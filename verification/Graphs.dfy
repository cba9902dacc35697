/** Finite directed graphs given by adjacency lists, and reachability in them. */
module Graphs {

  // Node u has the transitions g[u]; every transition leads to a node of the graph.
  type Graph = g: seq<seq<nat>> | forall u, k :: 0 <= u < |g| && 0 <= k < |g[u]| ==> g[u][k] < |g|

  ghost predicate Edge(g: Graph, u: nat, v: nat) {
    u < |g| && v in g[u]
  }

  // p lists the nodes visited after u, the last of which is v.
  ghost predicate Path(g: Graph, u: nat, p: seq<nat>, v: nat)
    decreases p
  {
    if p == [] then u == v else Edge(g, u, p[0]) && Path(g, p[0], p[1..], v)
  }

  ghost predicate Reach(g: Graph, u: nat, v: nat) {
    exists p :: Path(g, u, p, v)
  }

  ghost predicate Mutual(g: Graph, u: nat, v: nat) {
    Reach(g, u, v) && Reach(g, v, u)
  }

  ghost predicate Closed(g: Graph, s: set<nat>) {
    forall u, v :: u in s && Edge(g, u, v) ==> v in s
  }

  lemma ReachRefl(g: Graph, u: nat)
    ensures Reach(g, u, u)
  {
    assert Path(g, u, [], u);
  }

  lemma ReachEdge(g: Graph, u: nat, v: nat)
    requires Edge(g, u, v)
    ensures Reach(g, u, v)
  {
    assert Path(g, v, [], v);
    assert Path(g, u, [v], v);
  }

  lemma {:induction false} PathTrans(g: Graph, u: nat, p: seq<nat>, v: nat, q: seq<nat>, w: nat)
    requires Path(g, u, p, v) && Path(g, v, q, w)
    ensures Path(g, u, p + q, w)
    decreases p
  {
    if p == [] {
      assert p + q == q;
    } else {
      PathTrans(g, p[0], p[1..], v, q, w);
      assert (p + q)[1..] == p[1..] + q;
    }
  }

  lemma ReachTrans(g: Graph, u: nat, v: nat, w: nat)
    requires Reach(g, u, v) && Reach(g, v, w)
    ensures Reach(g, u, w)
  {
    var p :| Path(g, u, p, v);
    var q :| Path(g, v, q, w);
    PathTrans(g, u, p, v, q, w);
  }

  lemma {:induction false} PathStaysIn(g: Graph, s: set<nat>, u: nat, p: seq<nat>, v: nat)
    requires Closed(g, s) && u in s && Path(g, u, p, v)
    ensures v in s
    decreases p
  {
    if p != [] {
      PathStaysIn(g, s, p[0], p[1..], v);
    }
  }

  // A set closed under transitions keeps everything its nodes reach.
  lemma ReachStaysIn(g: Graph, s: set<nat>, u: nat, v: nat)
    requires Closed(g, s) && u in s && Reach(g, u, v)
    ensures v in s
  {
    var p :| Path(g, u, p, v);
    PathStaysIn(g, s, u, p, v);
  }
}
