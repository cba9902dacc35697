/**
 Strongly connected components by Tarjan's algorithm, without recursion: a frontier of half-consumed
 transition iterators takes the place of the call stack.
 */
module Components {
  import opened Options
  import opened Graphs

  datatype Info = Info(onStack: bool, index: Option<nat>, lowlink: nat)

  // A node together with its transition iterator, of which the first `next` transitions are consumed.
  datatype Frame = Frame(node: nat, next: nat)

  // Everything a run has built: the fields of the algorithm, its frontier, and the slices emitted so far.
  datatype State = State(info: seq<Info>, stack: seq<nat>, index: nat, frontier: seq<Frame>, components: seq<seq<nat>>)
  {
    predicate Visited(u: nat) {
      u < |info| && info[u].index.Some?
    }

    ghost function VisitedSet(): set<nat> {
      set u: nat | u < |info| && Visited(u)
    }

    predicate OnStack(u: nat) {
      u < |info| && info[u].onStack
    }

    function Idx(u: nat): nat {
      if Visited(u) then info[u].index.value else 0
    }

    function Low(u: nat): nat {
      if u < |info| then info[u].lowlink else 0
    }

    ghost predicate OnFrontier(u: nat) {
      exists i :: 0 <= i < |frontier| && frontier[i].node == u
    }

    // The stack nodes from frontier node i up to the next frontier node form the segment of i.
    ghost predicate InSegment(i: nat, u: nat) {
      && i < |frontier|
      && OnStack(u)
      && Idx(frontier[i].node) <= Idx(u)
      && (i + 1 < |frontier| ==> Idx(u) < Idx(frontier[i + 1].node))
    }

    // The transition u -> w has been taken, by a node whose iterator is exhausted or by a frontier node.
    ghost predicate Consumed(g: Graph, u: nat, w: nat) {
      || (Visited(u) && !OnFrontier(u) && Edge(g, u, w))
      || exists i :: 0 <= i < |frontier| && frontier[i].node == u && Taken(g, frontier[i], w)
    }

    // x is a stack node whose index is the lowlink of v, and v reaches it.
    ghost predicate Attains(g: Graph, v: nat, x: nat) {
      OnStack(x) && Idx(x) == Low(v) && Reach(g, v, x)
    }
  }

  // The transition f.node -> w has been taken from f's iterator.
  ghost predicate Taken(g: Graph, f: Frame, w: nat) {
    f.node < |g| && f.next <= |g[f.node]| && w in g[f.node][..f.next]
  }

  // ----- What the emitted slices promise

  ghost function Elements(s: seq<nat>): set<nat> {
    set u | u in s
  }

  ghost function Members(components: seq<seq<nat>>): set<nat> {
    set k, i | 0 <= k < |components| && 0 <= i < |components[k]| :: components[k][i]
  }

  // The nodes of c are exactly the nodes mutually reachable with any one of them.
  ghost predicate IsComponent(g: Graph, c: seq<nat>) {
    && c != []
    && (forall i :: 0 <= i < |c| ==> c[i] < |g|)
    && (forall u, v: nat :: u in c && v < |g| ==> (v in c <==> Mutual(g, u, v)))
  }

  ghost predicate NoRepeats(components: seq<seq<nat>>) {
    && (forall k, i, j :: 0 <= k < |components| && 0 <= i < j < |components[k]| ==>
          components[k][i] != components[k][j])
    && (forall k, l, u :: 0 <= k < l < |components| && u in components[k] ==> u !in components[l])
  }

  // Whatever a component reaches is in that component or in one emitted before it.
  ghost predicate ReverseTopological(g: Graph, components: seq<seq<nat>>) {
    forall k :: 0 <= k <= |components| ==> Closed(g, Members(components[..k]))
  }

  ghost predicate AreComponents(g: Graph, components: seq<seq<nat>>) {
    && (forall k :: 0 <= k < |components| ==> IsComponent(g, components[k]))
    && NoRepeats(components)
    && ReverseTopological(g, components)
  }

  ghost predicate ReachableFrom(g: Graph, roots: set<nat>, u: nat) {
    exists r :: r in roots && Reach(g, r, u)
  }

  // ----- The invariant of a run

  ghost predicate Indices(g: Graph, s: State) {
    && |s.info| == |g|
    && |s.VisitedSet()| == s.index
    && (forall u: nat :: s.Visited(u) ==> s.Idx(u) < s.index)
    && (forall u: nat :: s.OnStack(u) ==> s.Visited(u))
  }

  ghost predicate StackSorted(s: State) {
    && (forall u: nat :: u in s.stack <==> s.OnStack(u))
    && (forall a, b :: 0 <= a < b < |s.stack| ==> s.Idx(s.stack[a]) < s.Idx(s.stack[b]))
  }

  ghost predicate FrontierSorted(g: Graph, s: State) {
    && (forall i :: 0 <= i < |s.frontier| ==>
          var f := s.frontier[i]; s.OnStack(f.node) && f.node < |g| && f.next <= |g[f.node]|)
    && (forall i, j :: 0 <= i < j < |s.frontier| ==> s.Idx(s.frontier[i].node) < s.Idx(s.frontier[j].node))
    && (s.frontier == [] <==> s.stack == [])
    && (s.frontier != [] ==> s.frontier[0].node == s.stack[0])
  }

  ghost predicate FrontierLinked(g: Graph, s: State) {
    forall i, j :: 0 <= i < j < |s.frontier| ==> Reach(g, s.frontier[i].node, s.frontier[j].node)
  }

  ghost predicate Segments(g: Graph, s: State) {
    forall i: nat, u: nat :: s.InSegment(i, u) ==> Mutual(g, s.frontier[i].node, u)
  }

  // The lowlink of frontier node i bounds every consumed transition of its segment that ends on the stack...
  ghost predicate LowBounds(g: Graph, s: State) {
    forall i: nat, u: nat, w: nat :: s.InSegment(i, u) && s.Consumed(g, u, w) && s.OnStack(w)
      ==> s.Low(s.frontier[i].node) <= s.Idx(w)
  }

  // ... and is attained: it is the index of a stack node that i reaches.
  ghost predicate LowAttained(g: Graph, s: State) {
    forall i :: 0 <= i < |s.frontier| ==>
      var v := s.frontier[i].node; s.Low(v) <= s.Idx(v) && exists x: nat :: s.Attains(g, v, x)
  }

  ghost predicate SuccessorsVisited(g: Graph, s: State) {
    forall u: nat, w: nat :: s.Consumed(g, u, w) ==> s.Visited(w)
  }

  ghost predicate EmittedLeftStack(s: State) {
    forall u: nat :: u in Members(s.components) <==> s.Visited(u) && !s.OnStack(u)
  }

  ghost predicate VisitedFromRoots(g: Graph, roots: set<nat>, s: State) {
    forall u: nat :: s.Visited(u) ==> ReachableFrom(g, roots, u)
  }

  ghost predicate Shape(g: Graph, s: State) {
    Indices(g, s) && StackSorted(s) && FrontierSorted(g, s)
  }

  ghost predicate Inv(g: Graph, roots: set<nat>, s: State) {
    && Shape(g, s)
    && FrontierLinked(g, s)
    && Segments(g, s)
    && LowBounds(g, s)
    && LowAttained(g, s)
    && SuccessorsVisited(g, s)
    && EmittedLeftStack(s)
    && AreComponents(g, s.components)
    && VisitedFromRoots(g, roots, s)
  }

  // ----- Entering a node

  function Enter(s: State, w: nat): State
    requires w < |s.info|
  {
    s.(info := s.info[w := Info(true, Some(s.index), s.index)], stack := s.stack + [w], index := s.index + 1,
       frontier := s.frontier + [Frame(w, 0)])
  }

  lemma EnterShape(g: Graph, s: State, w: nat)
    requires Shape(g, s) && w < |g| && !s.Visited(w)
    ensures Shape(g, Enter(s, w))
  {
    EnterIndices(g, s, w);
    EnterFrontier(g, s, w);
    var t := Enter(s, w);
    assert forall u: nat :: u != w ==> t.Idx(u) == s.Idx(u) && (t.OnStack(u) <==> s.OnStack(u));
    assert forall u: nat :: u in t.stack <==> u in s.stack || u == w;
  }

  lemma EnterIndices(g: Graph, s: State, w: nat)
    requires Indices(g, s) && w < |g| && !s.Visited(w)
    ensures Indices(g, Enter(s, w))
  {
    var t := Enter(s, w);
    assert t.VisitedSet() == s.VisitedSet() + {w};
    assert forall u: nat :: u != w ==> (t.Visited(u) <==> s.Visited(u)) && (t.OnStack(u) <==> s.OnStack(u));
  }

  lemma EnterFrontier(g: Graph, s: State, w: nat)
    requires Shape(g, s) && w < |g| && !s.Visited(w)
    ensures FrontierSorted(g, Enter(s, w))
  {
    var t := Enter(s, w);
    assert forall u: nat :: s.OnStack(u) ==> u != w && t.OnStack(u) && t.Idx(u) == s.Idx(u) < s.index;
    assert t.OnStack(w) && t.Idx(w) == s.index;
  }

  lemma EnterSegment(g: Graph, s: State, w: nat, i: nat, u: nat)
    requires Shape(g, s) && w < |g| && !s.Visited(w)
    requires Enter(s, w).InSegment(i, u)
    ensures (i < |s.frontier| && u != w && s.InSegment(i, u)) || (i == |s.frontier| && u == w)
  {
    var t := Enter(s, w);
    assert u != w ==> t.Idx(u) == s.Idx(u) < s.index;
    assert t.Idx(w) == s.index;
    assert i < |s.frontier| ==> t.frontier[i] == s.frontier[i] && s.frontier[i].node != w;
    if i + 1 < |s.frontier| {
      assert t.frontier[i + 1] == s.frontier[i + 1];
    }
  }

  lemma EnterConsumed(g: Graph, s: State, w: nat, u: nat, x: nat)
    requires w < |s.info|
    requires Enter(s, w).Consumed(g, u, x)
    ensures s.Consumed(g, u, x)
  {
    var t := Enter(s, w);
    assert t.frontier[|s.frontier|].node == w;
    assert forall i :: 0 <= i < |s.frontier| ==> s.frontier[i] == t.frontier[i];
  }

  // Entering from the top of the frontier, or as a root when the frontier is empty, keeps the invariant.
  lemma EnterKeepsInv(g: Graph, roots: set<nat>, s: State, w: nat)
    requires Inv(g, roots, s) && w < |g| && !s.Visited(w)
    requires if s.frontier == [] then w in roots else Reach(g, s.frontier[|s.frontier| - 1].node, w)
    ensures Inv(g, roots, Enter(s, w))
  {
    var t := Enter(s, w);
    EnterShape(g, s, w);
    EnterLinked(g, s, w);
    EnterSegments(g, roots, s, w);
    EnterLowBounds(g, s, w);
    EnterLowAttained(g, s, w);
    forall u: nat, x: nat | t.Consumed(g, u, x) ensures t.Visited(x) {
      EnterConsumed(g, s, w, u, x);
    }
    ReachRefl(g, w);
    if s.frontier != [] {
      var v := s.frontier[|s.frontier| - 1].node;
      var r :| r in roots && Reach(g, r, v);
      ReachTrans(g, r, v, w);
    }
    assert ReachableFrom(g, roots, w);
  }

  lemma EnterLinked(g: Graph, s: State, w: nat)
    requires FrontierLinked(g, s) && w < |s.info|
    requires s.frontier != [] ==> Reach(g, s.frontier[|s.frontier| - 1].node, w)
    ensures FrontierLinked(g, Enter(s, w))
  {
    forall i | 0 <= i < |s.frontier| ensures Reach(g, s.frontier[i].node, w) {
      if i < |s.frontier| - 1 { ReachTrans(g, s.frontier[i].node, s.frontier[|s.frontier| - 1].node, w); }
    }
  }

  lemma EnterSegments(g: Graph, roots: set<nat>, s: State, w: nat)
    requires Shape(g, s) && Segments(g, s) && w < |g| && !s.Visited(w)
    ensures Segments(g, Enter(s, w))
  {
    var t := Enter(s, w);
    ReachRefl(g, w);
    forall i: nat, u: nat | t.InSegment(i, u) ensures Mutual(g, t.frontier[i].node, u) {
      EnterSegment(g, s, w, i, u);
    }
  }

  lemma EnterLowBounds(g: Graph, s: State, w: nat)
    requires Shape(g, s) && LowBounds(g, s) && SuccessorsVisited(g, s) && w < |g| && !s.Visited(w)
    ensures LowBounds(g, Enter(s, w))
  {
    var t := Enter(s, w);
    forall i: nat, u: nat, x: nat | t.InSegment(i, u) && t.Consumed(g, u, x) && t.OnStack(x)
      ensures t.Low(t.frontier[i].node) <= t.Idx(x)
    {
      EnterSegment(g, s, w, i, u);
      EnterConsumed(g, s, w, u, x);
    }
  }

  lemma EnterLowAttained(g: Graph, s: State, w: nat)
    requires Shape(g, s) && LowAttained(g, s) && w < |g| && !s.Visited(w)
    ensures LowAttained(g, Enter(s, w))
  {
    var t := Enter(s, w);
    forall i | 0 <= i < |t.frontier|
      ensures t.Low(t.frontier[i].node) <= t.Idx(t.frontier[i].node)
      ensures exists x: nat :: t.Attains(g, t.frontier[i].node, x)
    {
      if i < |s.frontier| {
        var x: nat :| s.Attains(g, s.frontier[i].node, x);
        assert t.Attains(g, t.frontier[i].node, x);
      } else {
        ReachRefl(g, w);
        assert t.Attains(g, w, w);
      }
    }
  }

  // ----- Steps that enter and leave no node

  // t has the marks, indices and stack of s; its iterators and lowlinks may differ.
  ghost predicate SameMarks(s: State, t: State) {
    && |t.info| == |s.info| && |t.frontier| == |s.frontier|
    && t.stack == s.stack && t.index == s.index && t.components == s.components
    && (forall u: nat :: (t.Visited(u) <==> s.Visited(u)) && (t.OnStack(u) <==> s.OnStack(u)) && t.Idx(u) == s.Idx(u))
    && (forall i :: 0 <= i < |s.frontier| ==> t.frontier[i].node == s.frontier[i].node)
  }

  lemma SameMarksShape(g: Graph, s: State, t: State)
    requires Shape(g, s) && SameMarks(s, t)
    requires forall i :: 0 <= i < |s.frontier| ==> t.frontier[i].next <= |g[s.frontier[i].node]|
    ensures Shape(g, t)
  {
    assert t.VisitedSet() == s.VisitedSet();
  }

  lemma SameMarksSegments(g: Graph, s: State, t: State)
    requires SameMarks(s, t)
    ensures forall i: nat, u: nat :: t.InSegment(i, u) <==> s.InSegment(i, u)
    ensures forall u: nat :: t.OnFrontier(u) <==> s.OnFrontier(u)
    ensures Segments(g, s) ==> Segments(g, t)
  {
  }

  lemma SameMarksRest(g: Graph, roots: set<nat>, s: State, t: State)
    requires SameMarks(s, t)
    ensures FrontierLinked(g, s) ==> FrontierLinked(g, t)
    ensures EmittedLeftStack(s) ==> EmittedLeftStack(t)
    ensures VisitedFromRoots(g, roots, s) ==> VisitedFromRoots(g, roots, t)
  {
  }

  function Advance(s: State, i: nat): State
    requires i < |s.frontier|
  {
    s.(frontier := s.frontier[i := s.frontier[i].(next := s.frontier[i].next + 1)])
  }

  lemma AdvanceConsumed(g: Graph, s: State, i: nat, u: nat, x: nat)
    requires FrontierSorted(g, s) && i < |s.frontier| && s.frontier[i].next < |g[s.frontier[i].node]|
    requires Advance(s, i).Consumed(g, u, x)
    ensures s.Consumed(g, u, x) || (u == s.frontier[i].node && x == g[u][s.frontier[i].next])
  {
    var t := Advance(s, i);
    assert forall j :: 0 <= j < |s.frontier| ==> s.frontier[j].node == t.frontier[j].node;
    if t.Visited(u) && !t.OnFrontier(u) && Edge(g, u, x) {
      assert !s.OnFrontier(u);
    } else {
      var j :| 0 <= j < |t.frontier| && t.frontier[j].node == u && Taken(g, t.frontier[j], x);
      if j == i {
        var k := s.frontier[i].next;
        assert g[u][..k + 1] == g[u][..k] + [g[u][k]];
        assert x == g[u][k] || Taken(g, s.frontier[i], x);
      } else {
        assert Taken(g, s.frontier[j], x);
      }
    }
  }

  lemma AdvanceKeepsInv(g: Graph, roots: set<nat>, s: State, i: nat)
    requires Inv(g, roots, s) && i < |s.frontier|
    requires var f := s.frontier[i];
             && f.next < |g[f.node]|
             && var w := g[f.node][f.next];
             && s.Visited(w) && (s.OnStack(w) ==> s.Low(f.node) <= s.Idx(w))
    ensures Inv(g, roots, Advance(s, i))
  {
    var t := Advance(s, i);
    assert SameMarks(s, t);
    SameMarksShape(g, s, t);
    SameMarksSegments(g, s, t);
    SameMarksRest(g, roots, s, t);
    AdvanceBounds(g, s, i, g[s.frontier[i].node][s.frontier[i].next]);
    AdvanceAttained(g, s, i);
  }

  lemma AdvanceBounds(g: Graph, s: State, i: nat, w: nat)
    requires Shape(g, s) && LowBounds(g, s) && SuccessorsVisited(g, s) && i < |s.frontier|
    requires s.frontier[i].next < |g[s.frontier[i].node]| && w == g[s.frontier[i].node][s.frontier[i].next]
    requires s.Visited(w) && (s.OnStack(w) ==> s.Low(s.frontier[i].node) <= s.Idx(w))
    ensures LowBounds(g, Advance(s, i)) && SuccessorsVisited(g, Advance(s, i))
  {
    var t := Advance(s, i);
    assert forall j :: 0 <= j < |s.frontier| ==> s.frontier[j].node == t.frontier[j].node;
    forall u: nat, x: nat | t.Consumed(g, u, x) ensures t.Visited(x) {
      AdvanceConsumed(g, s, i, u, x);
    }
    forall j: nat, u: nat, x: nat | t.InSegment(j, u) && t.Consumed(g, u, x) && t.OnStack(x)
      ensures t.Low(t.frontier[j].node) <= t.Idx(x)
    {
      assert s.InSegment(j, u);
      AdvanceConsumed(g, s, i, u, x);
      if u == s.frontier[i].node {
        OneSegment(g, s, i, j);
      }
    }
  }

  // A frontier node lies in its own segment only.
  lemma OneSegment(g: Graph, s: State, i: nat, j: nat)
    requires FrontierSorted(g, s) && i < |s.frontier| && s.InSegment(j, s.frontier[i].node)
    ensures i == j
  {
  }

  lemma AdvanceAttained(g: Graph, s: State, i: nat)
    requires LowAttained(g, s) && i < |s.frontier|
    ensures LowAttained(g, Advance(s, i))
  {
    var t := Advance(s, i);
    forall j | 0 <= j < |t.frontier|
      ensures t.Low(t.frontier[j].node) <= t.Idx(t.frontier[j].node)
      ensures exists x: nat :: t.Attains(g, t.frontier[j].node, x)
    {
      assert t.frontier[j].node == s.frontier[j].node;
      var x: nat :| s.Attains(g, s.frontier[j].node, x);
      assert t.Attains(g, t.frontier[j].node, x);
    }
  }

  // ----- Lowering a lowlink

  function Lower(s: State, v: nat, low: nat): State
    requires v < |s.info|
  {
    s.(info := s.info[v := s.info[v].(lowlink := if s.info[v].lowlink <= low then s.info[v].lowlink else low)])
  }

  // A lowlink may be lowered to the index of any stack node that is reached.
  lemma LowerKeepsInv(g: Graph, roots: set<nat>, s: State, i: nat, x: nat)
    requires Inv(g, roots, s) && i < |s.frontier|
    requires s.OnStack(x) && Reach(g, s.frontier[i].node, x)
    ensures Inv(g, roots, Lower(s, s.frontier[i].node, s.Idx(x)))
  {
    var v := s.frontier[i].node;
    var t := Lower(s, v, s.Idx(x));
    assert SameMarks(s, t);
    SameMarksShape(g, s, t);
    SameMarksSegments(g, s, t);
    SameMarksRest(g, roots, s, t);
    LowerBounds(g, s, v, s.Idx(x));
    LowerAttained(g, s, v, x);
  }

  lemma LowerBounds(g: Graph, s: State, v: nat, low: nat)
    requires LowBounds(g, s) && SuccessorsVisited(g, s) && v < |s.info|
    ensures LowBounds(g, Lower(s, v, low)) && SuccessorsVisited(g, Lower(s, v, low))
  {
    var t := Lower(s, v, low);
    assert SameMarks(s, t);
    SameMarksSegments(g, s, t);
    assert forall u: nat, w: nat :: t.Consumed(g, u, w) <==> s.Consumed(g, u, w);
  }

  lemma LowerAttained(g: Graph, s: State, v: nat, x: nat)
    requires Shape(g, s) && LowAttained(g, s) && v < |g| && s.OnStack(x) && Reach(g, v, x)
    ensures LowAttained(g, Lower(s, v, s.Idx(x)))
  {
    var t := Lower(s, v, s.Idx(x));
    assert forall u: nat :: (t.Visited(u) <==> s.Visited(u)) && t.Idx(u) == s.Idx(u);
    forall j | 0 <= j < |t.frontier|
      ensures t.Low(t.frontier[j].node) <= t.Idx(t.frontier[j].node)
      ensures exists y: nat :: t.Attains(g, t.frontier[j].node, y)
    {
      var w := s.frontier[j].node;
      var y: nat :| s.Attains(g, w, y);
      assert t.Attains(g, w, y) || (w == v && t.Attains(g, w, x));
    }
  }

  // ----- Leaving a node that roots no component

  function Leave(s: State): State
    requires s.frontier != []
  {
    s.(frontier := s.frontier[..|s.frontier| - 1])
  }

  lemma LeaveDrops(s: State)
    requires s.frontier != []
    ensures Leave(s) == State(s.info, s.stack, s.index, s.frontier[..|s.frontier| - 1], s.components)
  {
  }

  ghost predicate Exhausted(g: Graph, s: State) {
    && s.frontier != []
    && var f := s.frontier[|s.frontier| - 1]; f.node < |g| && f.next == |g[f.node]|
  }

  lemma ShorterFrontier(g: Graph, s: State, t: State, u: nat, w: nat)
    requires Exhausted(g, s) && t.frontier == s.frontier[..|s.frontier| - 1] && t.Consumed(g, u, w)
    requires t.Visited(u) ==> s.Visited(u)
    ensures s.Consumed(g, u, w)
  {
  }

  // Without the last frontier node its segment joins the one below.
  lemma LeaveSegment(g: Graph, s: State, i: nat, u: nat)
    requires FrontierSorted(g, s) && s.frontier != []
    requires Leave(s).InSegment(i, u)
    ensures s.InSegment(i, u) || (i == |s.frontier| - 2 && s.InSegment(i + 1, u))
  {
  }

  lemma LeaveKeepsInv(g: Graph, roots: set<nat>, s: State)
    requires Inv(g, roots, s) && Exhausted(g, s) && |s.frontier| >= 2
    requires var n := |s.frontier| - 1;
             && s.Low(s.frontier[n].node) < s.Idx(s.frontier[n].node)
             && s.Low(s.frontier[n - 1].node) <= s.Low(s.frontier[n].node)
    ensures Inv(g, roots, Leave(s))
  {
    LeaveShape(g, roots, s);
    LeaveSegments(g, s);
    LeaveBounds(g, s);
    LeaveAttained(g, s);
  }

  lemma LeaveShape(g: Graph, roots: set<nat>, s: State)
    requires Shape(g, s) && |s.frontier| >= 2 && FrontierLinked(g, s) && EmittedLeftStack(s)
    requires VisitedFromRoots(g, roots, s)
    ensures var t := Leave(s);
            Shape(g, t) && FrontierLinked(g, t) && EmittedLeftStack(t) && VisitedFromRoots(g, roots, t)
  {
    var t := Leave(s);
    assert t.VisitedSet() == s.VisitedSet();
    assert forall u: nat ::
      (t.Visited(u) <==> s.Visited(u)) && t.Idx(u) == s.Idx(u) && (t.OnStack(u) <==> s.OnStack(u));
  }

  // The node leaving reaches a stack node below it, and so the frontier node below it.
  lemma LeaveReachesParent(g: Graph, s: State)
    requires Shape(g, s) && Segments(g, s) && FrontierLinked(g, s) && LowAttained(g, s) && |s.frontier| >= 2
    requires var v := s.frontier[|s.frontier| - 1].node; s.Low(v) < s.Idx(v)
    ensures var n := |s.frontier| - 1; Mutual(g, s.frontier[n - 1].node, s.frontier[n].node)
  {
    var n := |s.frontier| - 1;
    var v, p := s.frontier[n].node, s.frontier[n - 1].node;
    var x: nat :| s.Attains(g, v, x);
    var j := SegmentOf(g, s, x);
    ReachTrans(g, v, x, s.frontier[j].node);
    if j < n - 1 {
      ReachTrans(g, v, s.frontier[j].node, p);
    }
  }

  // Every stack node lies in some segment.
  lemma SegmentOf(g: Graph, s: State, x: nat) returns (j: nat)
    requires Shape(g, s) && s.OnStack(x)
    ensures s.InSegment(j, x)
  {
    assert x in s.stack;
    j := |s.frontier| - 1;
    while s.Idx(x) < s.Idx(s.frontier[j].node)
      invariant j < |s.frontier|
      invariant j + 1 < |s.frontier| ==> s.Idx(x) < s.Idx(s.frontier[j + 1].node)
    {
      j := j - 1;
    }
  }

  lemma LeaveSegments(g: Graph, s: State)
    requires Shape(g, s) && Segments(g, s) && FrontierLinked(g, s) && LowAttained(g, s) && |s.frontier| >= 2
    requires var v := s.frontier[|s.frontier| - 1].node; s.Low(v) < s.Idx(v)
    ensures Segments(g, Leave(s))
  {
    var t, n := Leave(s), |s.frontier| - 1;
    var v, p := s.frontier[n].node, s.frontier[n - 1].node;
    LeaveReachesParent(g, s);
    forall i: nat, u: nat | t.InSegment(i, u) ensures Mutual(g, t.frontier[i].node, u) {
      LeaveSegment(g, s, i, u);
      if !s.InSegment(i, u) {
        ReachTrans(g, p, v, u);
        ReachTrans(g, u, v, p);
      }
    }
  }

  lemma LeaveBounds(g: Graph, s: State)
    requires Shape(g, s) && LowBounds(g, s) && SuccessorsVisited(g, s)
    requires Exhausted(g, s) && |s.frontier| >= 2
    requires var n := |s.frontier| - 1; s.Low(s.frontier[n - 1].node) <= s.Low(s.frontier[n].node)
    ensures LowBounds(g, Leave(s)) && SuccessorsVisited(g, Leave(s))
  {
    var t := Leave(s);
    forall u: nat, x: nat | t.Consumed(g, u, x) ensures s.Consumed(g, u, x) && t.Visited(x) {
      ShorterFrontier(g, s, t, u, x);
    }
    forall i: nat, u: nat, x: nat | t.InSegment(i, u) && t.Consumed(g, u, x) && t.OnStack(x)
      ensures t.Low(t.frontier[i].node) <= t.Idx(x)
    {
      LeaveSegment(g, s, i, u);
    }
  }

  lemma LeaveAttained(g: Graph, s: State)
    requires LowAttained(g, s) && s.frontier != []
    ensures LowAttained(g, Leave(s))
  {
    var t := Leave(s);
    forall i | 0 <= i < |t.frontier|
      ensures t.Low(t.frontier[i].node) <= t.Idx(t.frontier[i].node)
      ensures exists x: nat :: t.Attains(g, t.frontier[i].node, x)
    {
      var x: nat :| s.Attains(g, s.frontier[i].node, x);
      assert t.Attains(g, t.frontier[i].node, x);
    }
  }

  // ----- Emitting a component

  // The stack from position pos on is emitted, and the last frontier node leaves.
  function Emit(s: State, pos: nat): State
    requires pos <= |s.stack| && s.frontier != []
  {
    var slice := s.stack[pos..];
    s.(info := seq(|s.info|, u requires 0 <= u < |s.info| =>
                     if u in slice then s.info[u].(onStack := false) else s.info[u]),
       stack := s.stack[..pos], frontier := s.frontier[..|s.frontier| - 1], components := s.components + [slice])
  }

  // The last frontier node sits at position pos of the stack and its lowlink is its own index.
  ghost predicate Roots(g: Graph, s: State, pos: nat) {
    && Exhausted(g, s)
    && pos < |s.stack|
    && var v := s.frontier[|s.frontier| - 1].node; s.stack[pos] == v && s.Low(v) == s.Idx(v)
  }

  lemma SliceIsSegment(g: Graph, s: State, pos: nat, u: nat)
    requires Shape(g, s) && Roots(g, s, pos)
    ensures u in s.stack[pos..] <==> s.InSegment(|s.frontier| - 1, u)
    ensures u in s.stack[..pos] <==> s.OnStack(u) && s.Idx(u) < s.Idx(s.stack[pos])
  {
  }

  // Every transition out of the slice ends in the slice or in an emitted component.
  lemma SliceClosed(g: Graph, s: State, pos: nat, u: nat, w: nat)
    requires Shape(g, s) && LowBounds(g, s) && SuccessorsVisited(g, s) && EmittedLeftStack(s) && Roots(g, s, pos)
    requires u in s.stack[pos..] && Edge(g, u, w)
    ensures w in s.stack[pos..] || w in Members(s.components)
  {
    var n := |s.frontier| - 1;
    var f := s.frontier[n];
    SliceIsSegment(g, s, pos, u);
    SliceIsSegment(g, s, pos, w);
    assert s.Consumed(g, u, w) by {
      assert g[f.node][..f.next] == g[f.node];
      assert u == f.node ==> Taken(g, f, w);
      assert forall i :: 0 <= i < n ==> s.Idx(s.frontier[i].node) < s.Idx(f.node);
    }
  }

  lemma MembersAppend(components: seq<seq<nat>>, c: seq<nat>)
    ensures Members(components + [c]) == Members(components) + Elements(c)
  {
    var all := components + [c];
    forall u | u in c ensures u in Members(all) {
      var i :| 0 <= i < |c| && c[i] == u;
      assert all[|components|][i] == u;
    }
    forall u | u in Members(components) ensures u in Members(all) {
      var k, i :| 0 <= k < |components| && 0 <= i < |components[k]| && components[k][i] == u;
      assert all[k][i] == u;
    }
  }

  lemma SliceIsComponent(g: Graph, roots: set<nat>, s: State, pos: nat)
    requires Inv(g, roots, s) && Roots(g, s, pos)
    ensures IsComponent(g, s.stack[pos..])
    ensures Closed(g, Members(s.components + [s.stack[pos..]]))
  {
    var c, m, v := s.stack[pos..], Members(s.components), s.stack[pos];
    assert s.components == s.components[..|s.components|];
    assert Closed(g, m);
    MembersAppend(s.components, c);
    var all := Members(s.components + [c]);
    forall u, w | u in all && Edge(g, u, w) ensures w in all {
      if u in c { SliceClosed(g, s, pos, u, w); }
    }
    forall u | u in c ensures Mutual(g, v, u) && u !in m {
      SliceIsSegment(g, s, pos, u);
    }
    forall u, w: nat | u in c && w < |g| ensures w in c <==> Mutual(g, u, w) {
      if w in c {
        ReachTrans(g, u, v, w);
        ReachTrans(g, w, v, u);
      } else if Mutual(g, u, w) {
        ReachStaysIn(g, all, u, w);
        ReachStaysIn(g, m, w, u);
      }
    }
  }

  lemma EmitComponents(g: Graph, roots: set<nat>, s: State, pos: nat)
    requires Inv(g, roots, s) && Roots(g, s, pos)
    ensures AreComponents(g, Emit(s, pos).components)
  {
    var c := s.stack[pos..];
    var all := s.components + [c];
    SliceIsComponent(g, roots, s, pos);
    forall k | 0 <= k <= |all| ensures Closed(g, Members(all[..k])) {
      if k < |all| { assert all[..k] == s.components[..k]; } else { assert all[..k] == all; }
    }
    forall k, u | 0 <= k < |s.components| && u in s.components[k] ensures u !in c {
      assert u in Members(s.components);
      SliceIsSegment(g, s, pos, u);
    }
  }

  lemma EmitMark(g: Graph, s: State, pos: nat, u: nat)
    requires Shape(g, s) && Roots(g, s, pos)
    ensures var t := Emit(s, pos);
      && (t.Visited(u) <==> s.Visited(u)) && t.Idx(u) == s.Idx(u) && t.Low(u) == s.Low(u)
      && (t.OnStack(u) <==> s.OnStack(u) && s.Idx(u) < s.Idx(s.stack[pos]))
      && (t.OnStack(u) <==> u in t.stack)
      && (s.OnStack(u) && !t.OnStack(u) <==> u in s.stack[pos..])
  {
  }

  lemma EmitMarks(g: Graph, s: State, pos: nat)
    requires Shape(g, s) && Roots(g, s, pos)
    ensures var t := Emit(s, pos); Indices(g, t) && StackSorted(t)
  {
    var t := Emit(s, pos);
    forall u: nat
      ensures t.Visited(u) <==> s.Visited(u)
      ensures t.Idx(u) == s.Idx(u)
      ensures t.OnStack(u) <==> u in t.stack
      ensures t.OnStack(u) ==> s.OnStack(u)
    {
      EmitMark(g, s, pos, u);
    }
    assert t.VisitedSet() == s.VisitedSet();
  }

  lemma EmitLeftStack(g: Graph, roots: set<nat>, s: State, pos: nat)
    requires Shape(g, s) && EmittedLeftStack(s) && VisitedFromRoots(g, roots, s) && Roots(g, s, pos)
    ensures EmittedLeftStack(Emit(s, pos)) && VisitedFromRoots(g, roots, Emit(s, pos))
  {
    var t := Emit(s, pos);
    MembersAppend(s.components, s.stack[pos..]);
    forall u: nat
      ensures u in Members(t.components) <==> t.Visited(u) && !t.OnStack(u)
      ensures t.Visited(u) ==> ReachableFrom(g, roots, u)
    {
      EmitMark(g, s, pos, u);
      assert u in Members(s.components) <==> s.Visited(u) && !s.OnStack(u);
    }
  }

  lemma EmitFrontier(g: Graph, s: State, pos: nat)
    requires Shape(g, s) && Roots(g, s, pos)
    ensures FrontierSorted(g, Emit(s, pos))
  {
    var t := Emit(s, pos);
    forall i | 0 <= i < |t.frontier|
      ensures t.OnStack(t.frontier[i].node) && t.Idx(t.frontier[i].node) == s.Idx(s.frontier[i].node)
    {
      EmitMark(g, s, pos, s.frontier[i].node);
    }
    assert |s.frontier| >= 2 ==> pos > 0;
    assert |s.frontier| == 1 ==> pos == 0;
  }

  lemma EmitSegment(g: Graph, s: State, pos: nat, i: nat, u: nat)
    requires Shape(g, s) && Roots(g, s, pos) && Emit(s, pos).InSegment(i, u)
    ensures s.InSegment(i, u)
  {
  }

  lemma EmitBounds(g: Graph, s: State, pos: nat)
    requires Shape(g, s) && LowBounds(g, s) && SuccessorsVisited(g, s) && Roots(g, s, pos)
    ensures LowBounds(g, Emit(s, pos)) && SuccessorsVisited(g, Emit(s, pos))
  {
    var t := Emit(s, pos);
    forall u: nat, x: nat | t.Consumed(g, u, x) ensures s.Consumed(g, u, x) && t.Visited(x) {
      EmitMark(g, s, pos, u);
      EmitMark(g, s, pos, x);
      ShorterFrontier(g, s, t, u, x);
    }
    forall i: nat, u: nat, x: nat | t.InSegment(i, u) && t.Consumed(g, u, x) && t.OnStack(x)
      ensures t.Low(t.frontier[i].node) <= t.Idx(x)
    {
      EmitSegment(g, s, pos, i, u);
      EmitMark(g, s, pos, x);
      EmitMark(g, s, pos, t.frontier[i].node);
    }
  }

  lemma EmitAttained(g: Graph, s: State, pos: nat)
    requires Shape(g, s) && LowAttained(g, s) && Roots(g, s, pos)
    ensures LowAttained(g, Emit(s, pos))
  {
    var t := Emit(s, pos);
    forall i | 0 <= i < |t.frontier|
      ensures t.Low(t.frontier[i].node) <= t.Idx(t.frontier[i].node)
      ensures exists x: nat :: t.Attains(g, t.frontier[i].node, x)
    {
      var w := s.frontier[i].node;
      var x: nat :| s.Attains(g, w, x);
      EmitMark(g, s, pos, w);
      EmitMark(g, s, pos, x);
      assert t.Attains(g, w, x);
    }
  }

  lemma EmitKeepsInv(g: Graph, roots: set<nat>, s: State, pos: nat)
    requires Inv(g, roots, s) && Roots(g, s, pos)
    ensures Inv(g, roots, Emit(s, pos))
  {
    var t := Emit(s, pos);
    EmitMarks(g, s, pos);
    EmitFrontier(g, s, pos);
    EmitLeftStack(g, roots, s, pos);
    EmitBounds(g, s, pos);
    EmitAttained(g, s, pos);
    EmitComponents(g, roots, s, pos);
    EmitSegments(g, s, pos);
  }

  lemma EmitSegments(g: Graph, s: State, pos: nat)
    requires Shape(g, s) && FrontierLinked(g, s) && Segments(g, s) && Roots(g, s, pos)
    ensures FrontierLinked(g, Emit(s, pos)) && Segments(g, Emit(s, pos))
  {
    var t := Emit(s, pos);
    forall i: nat, u: nat | t.InSegment(i, u) ensures Mutual(g, t.frontier[i].node, u) {
      EmitSegment(g, s, pos, i, u);
    }
  }

  // ----- The algorithm

  lemma BoundedSet(s: set<nat>, n: nat)
    requires forall u :: u in s ==> u < n
    ensures |s| <= n
  {
    if n > 0 {
      BoundedSet(s - {n - 1}, n - 1);
    }
  }

  lemma IndexBounded(g: Graph, s: State)
    requires Indices(g, s)
    ensures s.index <= |g|
  {
    BoundedSet(s.VisitedSet(), |g|);
  }

  // The lowest frontier node cannot have a lowlink below its own index.
  lemma OnlyUpperNodesLeave(g: Graph, s: State)
    requires Shape(g, s) && LowAttained(g, s) && s.frontier != []
    requires var v := s.frontier[|s.frontier| - 1].node; s.Low(v) != s.Idx(v)
    ensures |s.frontier| >= 2
  {
  }

  lemma TopOfFrontier(g: Graph, roots: set<nat>, s: State)
    requires Inv(g, roots, s) && s.frontier != []
    ensures |s.info| == |g| && s.index <= |g|
    ensures var f := s.frontier[|s.frontier| - 1];
            f.node < |g| && f.next <= |g[f.node]| && s.Visited(f.node) && f.node in s.stack
    ensures forall i :: 0 <= i < |s.stack| ==> s.stack[i] < |g|
  {
    IndexBounded(g, s);
    assert forall u: nat :: u in s.stack ==> u < |g|;
  }

  lemma StartSearch(g: Graph, roots: set<nat>, s: State, root: nat)
    requires Inv(g, roots, s) && s.frontier == []
    requires root in roots && root < |g| && !s.Visited(root)
    ensures |s.info| == |g| && s.index + 1 <= |g|
    ensures var t := Enter(s, root); Inv(g, roots, t) && t.Visited(root) && VisitedStay(s, t)
  {
    EnterKeepsInv(g, roots, s, root);
    IndexBounded(g, Enter(s, root));
  }

  // The three ways of consuming a transition of the top node, by the mark of its target.
  lemma PushKeepsInv(g: Graph, roots: set<nat>, s: State, w: nat)
    requires Inv(g, roots, s) && s.frontier != []
    requires var f := s.frontier[|s.frontier| - 1]; f.node < |g| && f.next < |g[f.node]| && w == g[f.node][f.next]
    requires w < |g| && !s.Visited(w)
    ensures var t := Advance(Enter(s, w), |s.frontier| - 1); Inv(g, roots, t) && VisitedStay(s, t) && s.index + 1 <= |g|
  {
    var top := |s.frontier| - 1;
    var v := s.frontier[top].node;
    ReachEdge(g, v, w);
    EnterKeepsInv(g, roots, s, w);
    IndexBounded(g, Enter(s, w));
    assert s.Low(v) <= s.Idx(v) < s.index;
    assert v != w;
    AdvanceKeepsInv(g, roots, Enter(s, w), top);
  }

  lemma TouchKeepsInv(g: Graph, roots: set<nat>, s: State, w: nat)
    requires Inv(g, roots, s) && s.frontier != []
    requires var f := s.frontier[|s.frontier| - 1]; f.node < |g| && f.next < |g[f.node]| && w == g[f.node][f.next]
    requires s.Visited(w) && s.OnStack(w)
    ensures var top := |s.frontier| - 1;
            var t := Advance(Lower(s, s.frontier[top].node, s.Idx(w)), top);
            Inv(g, roots, t) && VisitedStay(s, t)
  {
    var top := |s.frontier| - 1;
    var v := s.frontier[top].node;
    ReachEdge(g, v, w);
    LowerKeepsInv(g, roots, s, top, w);
    AdvanceKeepsInv(g, roots, Lower(s, v, s.Idx(w)), top);
  }

  lemma SkipKeepsInv(g: Graph, roots: set<nat>, s: State, w: nat)
    requires Inv(g, roots, s) && s.frontier != []
    requires var f := s.frontier[|s.frontier| - 1]; f.node < |g| && f.next < |g[f.node]| && w == g[f.node][f.next]
    requires s.Visited(w) && !s.OnStack(w)
    ensures var t := Advance(s, |s.frontier| - 1); Inv(g, roots, t) && VisitedStay(s, t)
  {
    AdvanceKeepsInv(g, roots, s, |s.frontier| - 1);
  }

  ghost predicate VisitedStay(s: State, t: State) {
    forall u: nat :: s.Visited(u) ==> t.Visited(u)
  }

  lemma VisitedStayTrans(s: State, t: State, r: State, u: nat)
    requires VisitedStay(s, t) && VisitedStay(t, r) && t.Visited(u)
    ensures VisitedStay(s, r) && r.Visited(u)
  {
  }

  // The top of the frontier has left.
  ghost predicate Shorter(s: State, t: State) {
    && s.frontier != [] && t.frontier == s.frontier[..|s.frontier| - 1]
    && t.index == s.index && s.components <= t.components
    && VisitedStay(s, t)
  }

  // The two ways of leaving the frontier; the node below takes over the lowlink of the one that leaves.
  lemma EmitStep(g: Graph, roots: set<nat>, s: State, pos: nat)
    requires Inv(g, roots, s) && Roots(g, s, pos)
    ensures var t := Emit(s, pos);
            && Inv(g, roots, t)
            && Shorter(s, t)
            && (t.frontier != [] ==>
                  var p, v := t.frontier[|t.frontier| - 1].node, s.frontier[|s.frontier| - 1].node;
                  p < |t.info| && v < |t.info| && Lower(t, p, t.info[v].lowlink) == t)
  {
    EmitLowlinks(g, s, pos) by {
      hide FrontierLinked, Segments, LowBounds, SuccessorsVisited, EmittedLeftStack, AreComponents, VisitedFromRoots;
    }
    hide Inv;
    EmitKeepsInv(g, roots, s, pos);
  }

  lemma EmitLowlinks(g: Graph, s: State, pos: nat)
    requires Shape(g, s) && LowAttained(g, s) && Roots(g, s, pos)
    ensures var t := Emit(s, pos);
            && Shorter(s, t)
            && (t.frontier != [] ==>
                  var p, v := t.frontier[|t.frontier| - 1].node, s.frontier[|s.frontier| - 1].node;
                  p < |t.info| && v < |t.info| && Lower(t, p, t.info[v].lowlink) == t)
  {
    var t, n := Emit(s, pos), |s.frontier| - 1;
    if n > 0 {
      var p, v := s.frontier[n - 1].node, s.frontier[n].node;
      assert s.Low(p) <= s.Idx(p) < s.Idx(v) == s.Low(v);
      assert t.Low(p) == s.Low(p) && t.Low(v) == s.Low(v);
    }
  }

  lemma LeaveStep(g: Graph, roots: set<nat>, s: State)
    requires Inv(g, roots, s) && Exhausted(g, s)
    requires var v := s.frontier[|s.frontier| - 1].node; s.Low(v) != s.Idx(v)
    ensures |s.frontier| >= 2
    ensures var p, v := s.frontier[|s.frontier| - 2].node, s.frontier[|s.frontier| - 1].node;
            && p < |s.info|
            && v < |s.info|
            && var t := Leave(Lower(s, p, s.info[v].lowlink));
               Inv(g, roots, t) && Shorter(s, t)
  {
    var x := LeaveTarget(g, s) by {
      hide Segments, LowBounds, SuccessorsVisited, EmittedLeftStack, AreComponents, VisitedFromRoots;
    }
    hide Inv;
    LowerKeepsInv(g, roots, s, |s.frontier| - 2, x);
    LeaveKeepsInv(g, roots, Lower(s, s.frontier[|s.frontier| - 2].node, s.Idx(x)));
  }

  lemma LeaveTarget(g: Graph, s: State) returns (x: nat)
    requires Shape(g, s) && LowAttained(g, s) && FrontierLinked(g, s) && Exhausted(g, s)
    requires var v := s.frontier[|s.frontier| - 1].node; s.Low(v) != s.Idx(v)
    ensures |s.frontier| >= 2
    ensures var p, v := s.frontier[|s.frontier| - 2].node, s.frontier[|s.frontier| - 1].node;
            && p < |s.info| && v < |s.info|
            && s.OnStack(x) && s.Idx(x) == s.info[v].lowlink && Reach(g, p, x)
            && var t := Lower(s, p, s.Idx(x));
               Exhausted(g, t) && t.Low(v) < t.Idx(v) && t.Low(p) <= t.Low(v) && Shorter(s, Leave(t))
  {
    OnlyUpperNodesLeave(g, s);
    var p, v := s.frontier[|s.frontier| - 2].node, s.frontier[|s.frontier| - 1].node;
    x :| s.Attains(g, v, x);
    ReachTrans(g, p, v, x);
    assert s.Idx(p) < s.Idx(v);
  }

  // The number of stack nodes above the topmost v.
  function CountAbove(stack: seq<nat>, v: nat): (n: nat)
    ensures v in stack ==> n < |stack| && stack[|stack| - 1 - n] == v
  {
    if stack == [] || stack[|stack| - 1] == v then 0 else 1 + CountAbove(stack[..|stack| - 1], v)
  }

  function Min(a: nat, b: nat): nat {
    if a <= b then a else b
  }

  class StronglyConnectedComponents {
    const graph: Graph
    var info: seq<Info>
    var stack: seq<nat>
    var index: nat
    // The slices handed to the callback, in the order of the calls.
    var emitted: seq<seq<nat>>

    ghost function Now(frontier: seq<Frame>): State
      reads this
    {
      State(info, stack, index, frontier, emitted)
    }

    // Between two searches the frontier is empty.
    ghost predicate Valid(roots: set<nat>)
      reads this
    {
      Inv(graph, roots, Now([]))
    }

    constructor (g: Graph)
      ensures graph == g && emitted == [] && stack == []
      ensures Valid({})
      ensures forall u: nat :: !Now([]).Visited(u)
    {
      graph := g;
      info := seq(|g|, _ => Info(false, None, 0));
      stack := [];
      index := 0;
      emitted := [];
      new;
      assert Now([]).VisitedSet() == {};
    }

    // The nodes of the slice leave the stack.
    method Drain(slice: seq<nat>)
      requires forall i :: 0 <= i < |slice| ==> slice[i] < |info|
      modifies this`info
      ensures |info| == |old(info)|
      ensures forall u :: 0 <= u < |info| ==>
                info[u] == if u in slice then old(info)[u].(onStack := false) else old(info)[u]
    {
      for i := 0 to |slice|
        invariant |info| == |old(info)|
        invariant forall u :: 0 <= u < |info| ==>
                    info[u] == if u in slice[..i] then old(info)[u].(onStack := false) else old(info)[u]
      {
        info := info[slice[i] := info[slice[i]].(onStack := false)];
        assert slice[..i + 1] == slice[..i] + [slice[i]];
      }
      assert slice[..|slice|] == slice;
    }

    // The callback receives the topmost num nodes of the stack, which are then drained.
    method EmitSlice(num: nat, ghost frontier: seq<Frame>)
      requires num <= |stack| && frontier != []
      requires forall i :: 0 <= i < |stack| ==> stack[i] < |info|
      modifies this`info, this`stack, this`emitted
      ensures Now(frontier[..|frontier| - 1]) == Emit(old(Now(frontier)), |old(stack)| - num)
    {
      var pos := |stack| - num;
      var slice := stack[pos..];
      emitted := emitted + [slice];
      stack := stack[..pos];
      Drain(slice);
    }

    // The top of the frontier is exhausted: it emits its component if it roots one, and leaves.
    method Tail(frontier: seq<Frame>, ghost roots: set<nat>) returns (rest: seq<Frame>)
      requires Inv(graph, roots, Now(frontier)) && Exhausted(graph, Now(frontier))
      modifies this
      ensures Inv(graph, roots, Now(rest))
      ensures Shorter(old(Now(frontier)), Now(rest))
    {
      hide Inv, Lower, Leave, Emit;
      var v := frontier[|frontier| - 1].node;
      ghost var s := Now(frontier);
      TopOfFrontier(graph, roots, s);
      rest := frontier[..|frontier| - 1];
      if info[v].lowlink == info[v].index.value {
        var num := CountAbove(stack, v) + 1;
        EmitStep(graph, roots, s, |stack| - num);
        EmitSlice(num, frontier);
        if rest != [] {
          TakeOver(rest[|rest| - 1].node, v, rest);
        }
      } else {
        LeaveStep(graph, roots, s);
        TakeOver(rest[|rest| - 1].node, v, frontier);
        assert Now(rest) == Leave(Now(frontier)) by { LeaveDrops(Now(frontier)); }
      }
    }

    // The lowlink of the parent is lowered to that of the node that left.
    method TakeOver(parent: nat, v: nat, ghost frontier: seq<Frame>)
      requires parent < |info| && v < |info|
      modifies this`info
      ensures Now(frontier) == Lower(old(Now(frontier)), parent, old(info)[v].lowlink)
    {
      info := info[parent := info[parent].(lowlink := Min(info[parent].lowlink, info[v].lowlink))];
    }

    method StrongConnectNorec(root: nat, ghost roots: set<nat>)
      requires root in roots && root < |graph|
      requires Valid(roots) && !Now([]).Visited(root)
      modifies this
      ensures Valid(roots)
      ensures Now([]).Visited(root)
      ensures VisitedStay(old(Now([])), Now([]))
      ensures old(emitted) <= emitted
    {
      hide Inv, VisitedStay;
      var frontier := [Frame(root, 0)];
      StartSearch(graph, roots, Now([]), root);
      ghost var before := Now([]);
      info := info[root := Info(true, Some(index), index)];
      index := index + 1;
      stack := stack + [root];
      assert Now(frontier) == Enter(before, root);

      label Search:
      while |frontier| > 0
        invariant Inv(graph, roots, Now(frontier))
        invariant VisitedStay(before, Now(frontier)) && Now(frontier).Visited(root)
        invariant old(emitted) <= emitted
        invariant index <= |graph|
        decreases |graph| - index, |frontier|
      {
        var top := |frontier| - 1;
        var v := frontier[top].node;
        TopOfFrontier(graph, roots, Now(frontier));
        ghost var index0 := index;
        while true
          invariant |frontier| == top + 1 && frontier[top].node == v
          invariant Inv(graph, roots, Now(frontier))
          invariant |info| == |graph| && v < |graph| && frontier[top].next <= |graph[v]|
          invariant index == index0
          invariant VisitedStay(before, Now(frontier)) && Now(frontier).Visited(root) && old(emitted) <= emitted
          decreases |graph[v]| - frontier[top].next
        {
          var next := frontier[top].next;
          ghost var s := Now(frontier);
          if next < |graph[v]| {
            var w := graph[v][next];
            frontier := frontier[top := Frame(v, next + 1)];
            match info[w].index
            case None =>
              info := info[w := Info(true, Some(index), index)];
              index := index + 1;
              stack := stack + [w];
              frontier := frontier + [Frame(w, 0)];
              PushKeepsInv(graph, roots, s, w);
              assert Now(frontier) == Advance(Enter(s, w), top);
              VisitedStayTrans(before, s, Now(frontier), root);
              continue Search;
            case Some(wIndex) =>
              if info[w].onStack {
                info := info[v := info[v].(lowlink := Min(info[v].lowlink, wIndex))];
                TouchKeepsInv(graph, roots, s, w);
                assert Now(frontier) == Advance(Lower(s, v, wIndex), top);
              } else {
                SkipKeepsInv(graph, roots, s, w);
                assert Now(frontier) == Advance(s, top);
              }
              VisitedStayTrans(before, s, Now(frontier), root);
          } else {
            frontier := Tail(frontier, roots);
            VisitedStayTrans(before, s, Now(frontier), root);
            continue Search;
          }
        }
      }
    }

    // Searches from every root that no earlier search has visited.
    static method IterateWithRoots(g: Graph, roots: seq<nat>) returns (components: seq<seq<nat>>)
      requires forall r :: r in roots ==> r < |g|
      ensures AreComponents(g, components)
      ensures forall u: nat :: u in Members(components) <==> ReachableFrom(g, Elements(roots), u)
    {
      hide Inv, AreComponents;
      var b := new StronglyConnectedComponents(g);
      assert Elements(roots[..0]) == {};
      for i := 0 to |roots|
        invariant fresh(b) && b.graph == g
        invariant b.Valid(Elements(roots[..i]))
        invariant forall r :: r in roots[..i] ==> b.Now([]).Visited(r)
      {
        var root := roots[i];
        assert root in roots && root in roots[..i + 1];
        assert roots[..i + 1] == roots[..i] + [root];
        MoreRoots(g, Elements(roots[..i]), Elements(roots[..i + 1]), b.Now([]));
        if b.info[root].index.None? {
          b.StrongConnectNorec(root, Elements(roots[..i + 1]));
        }
      }
      assert roots[..|roots|] == roots;
      components := b.emitted;
      AllEmitted(g, Elements(roots), b.Now([]));
    }

    static method Iterate(g: Graph) returns (components: seq<seq<nat>>)
      ensures AreComponents(g, components)
      ensures forall u: nat :: u in Members(components) <==> u < |g|
    {
      var roots := seq(|g|, i requires 0 <= i => i);
      components := IterateWithRoots(g, roots);
      forall u: nat | u < |g| ensures u in Elements(roots) && ReachableFrom(g, Elements(roots), u) {
        assert roots[u] == u;
        ReachRefl(g, u);
        assert u in Elements(roots);
      }
      forall u: nat | ReachableFrom(g, Elements(roots), u) ensures u < |g| {
        var r :| r in Elements(roots) && Reach(g, r, u);
        ReachStaysIn(g, Elements(roots), r, u);
      }
    }
  }

  lemma MoreRoots(g: Graph, roots: set<nat>, more: set<nat>, s: State)
    requires Inv(g, roots, s) && roots <= more
    ensures Inv(g, more, s) && |s.info| == |g|
  {
  }

  // With an empty frontier everything visited is emitted, and that is everything reachable from the roots.
  lemma AllEmitted(g: Graph, roots: set<nat>, s: State)
    requires Inv(g, roots, s) && s.frontier == []
    requires forall r :: r in roots ==> s.Visited(r)
    ensures AreComponents(g, s.components)
    ensures forall u: nat :: u in Members(s.components) <==> ReachableFrom(g, roots, u)
  {
    hide FrontierLinked, Segments, LowBounds, LowAttained, SuccessorsVisited;
    var m := Members(s.components);
    assert s.components[..|s.components|] == s.components;
    assert forall u: nat :: u in m <==> s.Visited(u);
    forall u: nat | ReachableFrom(g, roots, u) ensures u in m {
      var r :| r in roots && Reach(g, r, u);
      ReachStaysIn(g, m, r, u);
    }
  }

  // ----- What the emission order means

  // A component is emitted only after every other component it can reach.
  lemma ReachesOnlyEarlier(g: Graph, components: seq<seq<nat>>, k: nat, l: nat, u: nat, v: nat)
    requires AreComponents(g, components) && k < |components| && l < |components|
    requires u in components[k] && v in components[l] && Reach(g, u, v)
    ensures l <= k
  {
    var upto := components[..k + 1];
    assert upto[k] == components[k];
    assert u in Members(upto);
    ReachStaysIn(g, Members(upto), u, v);
    var j, i :| 0 <= j < |upto| && 0 <= i < |upto[j]| && upto[j][i] == v;
    assert v in components[j];
  }

  // Any two mutually reachable nodes that were emitted are in one slice.
  lemma SlicesAreMaximal(g: Graph, components: seq<seq<nat>>, k: nat, l: nat, u: nat, v: nat)
    requires AreComponents(g, components) && k < |components| && l < |components|
    requires u in components[k] && v in components[l]
    ensures k == l <==> Mutual(g, u, v)
  {
  }
}
