/**
 The automaton of x86 prefix states: which prefixes an encoding has seen, as far as they matter to it, and the
 shortest prefix string for each state.
 */
module Prefixes {
  import opened Options

  // What the encoding makes use of.
  datatype Uses = Uses(segment: bool, operandSize: bool, lock: bool, rep: bool)

  datatype State = State(seg: Option<nat>, data: bool, addr: bool, lock: bool, rep: Option<nat>)

  const START := State(None, false, false, false, None)

  const ALL_PREFIXES: seq<nat> := [0x26, 0x2E, 0x36, 0x3E, 0x64, 0x65, 0x66, 0x67, 0xF0, 0xF2, 0xF3]

  predicate IsSegment(b: nat) {
    b == 0x26 || b == 0x2E || b == 0x36 || b == 0x3E || b == 0x64 || b == 0x65
  }

  predicate IsRep(b: nat) {
    b == 0xF2 || b == 0xF3
  }

  predicate IsPrefix(b: nat) {
    IsSegment(b) || b == 0x66 || b == 0x67 || b == 0xF0 || IsRep(b)
  }

  lemma PrefixesListed(b: nat)
    ensures IsPrefix(b) <==> b in ALL_PREFIXES
  {
  }

  predicate PrefixString(w: seq<nat>) {
    forall i :: 0 <= i < |w| ==> IsPrefix(w[i])
  }

  function Next(s: State, b: nat, u: Uses): State
    requires IsPrefix(b)
  {
    if IsSegment(b) then s.(seg := if u.segment then Some(b) else None)
    else if b == 0x66 then s.(data := u.operandSize)
    else if b == 0x67 then s.(addr := true)
    else if b == 0xF0 then s.(lock := u.lock)
    else s.(rep := if u.rep then Some(b) else None)
  }

  // The state after a prefix string.
  function Fold(w: seq<nat>, u: Uses): State
    requires PrefixString(w)
  {
    if w == [] then START else Next(Fold(w[..|w| - 1], u), w[|w| - 1], u)
  }

  function Opt(o: Option<nat>): seq<nat> {
    match o
    case Some(b) => [b]
    case None => []
  }

  function When(flag: bool, b: nat): Option<nat> {
    if flag then Some(b) else None
  }

  function Bytes(s: State): seq<nat> {
    Opt(s.seg) + Opt(When(s.data, 0x66)) + Opt(When(s.addr, 0x67)) + Opt(When(s.lock, 0xF0)) + Opt(s.rep)
  }

  // ----- The state in closed form

  function LastSegment(w: seq<nat>): Option<nat> {
    if w == [] then None else if IsSegment(w[|w| - 1]) then Some(w[|w| - 1]) else LastSegment(w[..|w| - 1])
  }

  function LastRep(w: seq<nat>): Option<nat> {
    if w == [] then None else if IsRep(w[|w| - 1]) then Some(w[|w| - 1]) else LastRep(w[..|w| - 1])
  }

  function Summary(w: seq<nat>, u: Uses): State {
    State(if u.segment then LastSegment(w) else None, u.operandSize && 0x66 in w, 0x67 in w, u.lock && 0xF0 in w,
          if u.rep then LastRep(w) else None)
  }

  lemma {:induction false} FoldIsSummary(w: seq<nat>, u: Uses)
    requires PrefixString(w)
    ensures Fold(w, u) == Summary(w, u)
  {
    if w != [] {
      FoldIsSummary(w[..|w| - 1], u);
      assert w == w[..|w| - 1] + [w[|w| - 1]];
      assert forall b :: b in w <==> b in w[..|w| - 1] || b == w[|w| - 1];
    }
  }

  // Strings that agree on the last segment byte, the last rep byte and the presence of 66, 67 and F0 are equivalent.
  lemma AgreeingStringsMeet(w: seq<nat>, v: seq<nat>, u: Uses)
    requires PrefixString(w) && PrefixString(v)
    requires LastSegment(w) == LastSegment(v) && LastRep(w) == LastRep(v)
    requires forall b :: b == 0x66 || b == 0x67 || b == 0xF0 ==> (b in w <==> b in v)
    ensures Fold(w, u) == Fold(v, u)
  {
    FoldIsSummary(w, u);
    FoldIsSummary(v, u);
  }

  lemma {:induction false} LastsOccur(w: seq<nat>)
    ensures LastSegment(w).Some? ==> LastSegment(w).value in w && IsSegment(LastSegment(w).value)
    ensures LastRep(w).Some? ==> LastRep(w).value in w && IsRep(LastRep(w).value)
  {
    if w != [] {
      LastsOccur(w[..|w| - 1]);
    }
  }

  // ----- Canonical prefix strings

  ghost predicate Reached(s: State, u: Uses) {
    exists w :: PrefixString(w) && Fold(w, u) == s
  }

  lemma FoldAppend(a: seq<nat>, o: Option<nat>, u: Uses)
    requires PrefixString(a) && (o.Some? ==> IsPrefix(o.value))
    ensures PrefixString(a + Opt(o))
    ensures Fold(a + Opt(o), u) == if o.Some? then Next(Fold(a, u), o.value, u) else Fold(a, u)
  {
    if o.Some? {
      assert (a + [o.value])[..|a|] == a;
    } else {
      assert a + [] == a;
    }
  }

  // A state that holds only what the encoding uses is reached by its bytes.
  lemma StateReplays(s: State, u: Uses)
    requires s.seg.Some? ==> IsSegment(s.seg.value) && u.segment
    requires s.rep.Some? ==> IsRep(s.rep.value) && u.rep
    requires (s.data ==> u.operandSize) && (s.lock ==> u.lock)
    ensures PrefixString(Bytes(s)) && Fold(Bytes(s), u) == s
  {
    var a := [] + Opt(s.seg);
    var b := a + Opt(When(s.data, 0x66));
    var c := b + Opt(When(s.addr, 0x67));
    var d := c + Opt(When(s.lock, 0xF0));
    assert a == Opt(s.seg) && Fold([], u) == START;
    hide Fold, Opt, Next;
    FoldAppend([], s.seg, u);
    FoldAppend(a, When(s.data, 0x66), u);
    FoldAppend(b, When(s.addr, 0x67), u);
    FoldAppend(c, When(s.lock, 0xF0), u);
    FoldAppend(d, s.rep, u);
    FieldByField(s, u);
  }

  lemma FieldByField(s: State, u: Uses)
    requires s.seg.Some? ==> IsSegment(s.seg.value) && u.segment
    requires s.rep.Some? ==> IsRep(s.rep.value) && u.rep
    requires (s.data ==> u.operandSize) && (s.lock ==> u.lock)
    ensures s.seg.Some? ==> Next(START, s.seg.value, u) == START.(seg := s.seg)
    ensures s.data ==> Next(START.(seg := s.seg), 0x66, u) == START.(seg := s.seg, data := true)
    ensures s.addr ==>
              Next(START.(seg := s.seg, data := s.data), 0x67, u) == START.(seg := s.seg, data := s.data, addr := true)
    ensures s.lock ==> Next(s.(lock := false, rep := None), 0xF0, u) == s.(rep := None)
    ensures s.rep.Some? ==> Next(s.(rep := None), s.rep.value, u) == s
  {
  }

  // Replaying the bytes of a reached state reaches it again.
  lemma BytesReplay(w: seq<nat>, u: Uses)
    requires PrefixString(w)
    ensures PrefixString(Bytes(Fold(w, u))) && Fold(Bytes(Fold(w, u)), u) == Fold(w, u)
  {
    FoldIsSummary(w, u);
    LastsOccur(w);
    StateReplays(Fold(w, u), u);
  }

  function Group(b: nat): nat {
    if IsSegment(b) then 0 else if b == 0x66 then 1 else if b == 0x67 then 2 else if b == 0xF0 then 3 else 4
  }

  // In order of their groups, all of which lie below bound.
  ghost predicate InOrder(v: seq<nat>, bound: nat) {
    && (forall i :: 0 <= i < |v| ==> Group(v[i]) < bound)
    && (forall i, j :: 0 <= i < j < |v| ==> Group(v[i]) < Group(v[j]))
  }

  lemma InOrderAppend(v: seq<nat>, o: Option<nat>, g: nat)
    requires InOrder(v, g) && (o.Some? ==> Group(o.value) == g)
    ensures InOrder(v + Opt(o), g + 1)
  {
    hide Group;
  }

  lemma OneInOrder(o: Option<nat>)
    requires o.Some? ==> Group(o.value) == 0
    ensures InOrder(Opt(o), 1)
  {
    hide Group;
  }

  lemma FiveInOrder(a: Option<nat>, b: Option<nat>, c: Option<nat>, d: Option<nat>, e: Option<nat>)
    requires (a.Some? ==> Group(a.value) == 0) && (b.Some? ==> Group(b.value) == 1)
    requires (c.Some? ==> Group(c.value) == 2) && (d.Some? ==> Group(d.value) == 3)
    requires e.Some? ==> Group(e.value) == 4
    ensures InOrder(Opt(a) + Opt(b) + Opt(c) + Opt(d) + Opt(e), 5)
  {
    hide Opt, Group, InOrder;
    OneInOrder(a);
    InOrderAppend(Opt(a), b, 1);
    InOrderAppend(Opt(a) + Opt(b), c, 2);
    InOrderAppend(Opt(a) + Opt(b) + Opt(c), d, 3);
    InOrderAppend(Opt(a) + Opt(b) + Opt(c) + Opt(d), e, 4);
  }

  lemma InOrderMeaning(v: seq<nat>, bound: nat)
    requires InOrder(v, bound)
    ensures forall i, j :: 0 <= i < j < |v| ==> Group(v[i]) < Group(v[j])
  {
    hide Group;
  }

  // The bytes come in a fixed order, at most one of each group, so that replaying them leaves no choice.
  lemma BytesInOrder(w: seq<nat>, u: Uses)
    requires PrefixString(w)
    ensures var v := Bytes(Fold(w, u)); forall i, j :: 0 <= i < j < |v| ==> Group(v[i]) < Group(v[j])
  {
    hide Fold, InOrder;
    FoldIsSummary(w, u);
    LastsOccur(w);
    var s := Fold(w, u);
    FiveInOrder(s.seg, When(s.data, 0x66), When(s.addr, 0x67), When(s.lock, 0xF0), s.rep);
    InOrderMeaning(Bytes(s), 5);
  }

  lemma LengthOfBytes(s: State)
    ensures |Bytes(s)| == |Opt(s.seg)| + |Opt(When(s.data, 0))| + |Opt(When(s.addr, 0))|
                          + |Opt(When(s.lock, 0))| + |Opt(s.rep)|
  {
  }

  lemma NextAddsOne(s: State, b: nat, u: Uses)
    requires IsPrefix(b)
    ensures |Bytes(Next(s, b, u))| <= |Bytes(s)| + 1
  {
    hide Bytes;
    LengthOfBytes(s);
    LengthOfBytes(Next(s, b, u));
  }

  // No shorter string reaches the state.
  lemma {:induction false} BytesAreShortest(w: seq<nat>, u: Uses)
    requires PrefixString(w)
    ensures |Bytes(Fold(w, u))| <= |w|
  {
    hide Next, Opt;
    if w == [] {
      LengthOfBytes(START);
      assert |Opt(None)| == 0 by { EmptyOpt(); }
    } else {
      BytesAreShortest(w[..|w| - 1], u);
      NextAddsOne(Fold(w[..|w| - 1], u), w[|w| - 1], u);
    }
  }

  lemma EmptyOpt()
    ensures |Opt(None)| == 0
  {
  }

  // ----- The automaton

  // Every state the encoding may be in.
  function Universe(): set<State> {
    var segs := {None, Some(0x26), Some(0x2E), Some(0x36), Some(0x3E), Some(0x64), Some(0x65)};
    var reps := {None, Some(0xF2), Some(0xF3)};
    var flags := {false, true};
    set seg, data, addr, lock, rep | seg in segs && data in flags && addr in flags && lock in flags && rep in reps
      :: State(seg, data, addr, lock, rep)
  }

  lemma NextInUniverse(s: State, b: nat, u: Uses)
    requires s in Universe() && IsPrefix(b)
    ensures Next(s, b, u) in Universe()
  {
  }

  lemma NextReached(s: State, b: nat, u: Uses)
    requires Reached(s, u) && IsPrefix(b)
    ensures Reached(Next(s, b, u), u)
  {
    var w :| PrefixString(w) && Fold(w, u) == s;
    FoldAppend(w, Some(b), u);
  }

  ghost predicate ClosedUnderNext(s: set<State>, u: Uses) {
    forall x, b :: x in s && IsPrefix(b) ==> Next(x, b, u) in s
  }

  lemma {:induction false} ReachedInClosed(s: set<State>, w: seq<nat>, u: Uses)
    requires START in s && ClosedUnderNext(s, u) && PrefixString(w)
    ensures Fold(w, u) in s
  {
    if w != [] {
      ReachedInClosed(s, w[..|w| - 1], u);
    }
  }

  // One state of a round: every successor not seen before is recorded as new.
  method ExpandState(node: State, all0: set<State>, new0: seq<State>, u: Uses)
    returns (all: set<State>, newNodes: seq<State>)
    requires node in all0 && all0 <= Universe() && forall s :: s in all0 ==> Reached(s, u)
    ensures all0 <= all <= Universe() && forall s :: s in all ==> Reached(s, u)
    ensures (forall s :: s in all - all0 ==> s in newNodes) && new0 <= newNodes
    ensures forall s :: s in newNodes ==> s in new0 || s in all - all0
    ensures forall b :: IsPrefix(b) ==> Next(node, b, u) in all
  {
    all, newNodes := all0, new0;
    for i := 0 to |ALL_PREFIXES|
      invariant all0 <= all <= Universe() && forall s :: s in all ==> Reached(s, u)
      invariant (forall s :: s in all - all0 ==> s in newNodes) && new0 <= newNodes
      invariant forall s :: s in newNodes ==> s in new0 || s in all - all0
      invariant forall j :: 0 <= j < i ==> IsPrefix(ALL_PREFIXES[j]) && Next(node, ALL_PREFIXES[j], u) in all
    {
      hide Universe, Next, Reached;
      var b := ALL_PREFIXES[i];
      PrefixesListed(b);
      var next := Next(node, b, u);
      NextInUniverse(node, b, u);
      NextReached(node, b, u);
      if next !in all {
        all, newNodes := all + {next}, newNodes + [next];
      }
    }
    forall b | IsPrefix(b) ensures Next(node, b, u) in all {
      PrefixesListed(b);
      var j :| 0 <= j < |ALL_PREFIXES| && ALL_PREFIXES[j] == b;
    }
  }

  // One round: all successors of the pending states.
  method ExpandRound(pending: seq<State>, all0: set<State>, u: Uses) returns (all: set<State>, newNodes: seq<State>)
    requires all0 <= Universe() && (forall s :: s in all0 ==> Reached(s, u)) && forall s :: s in pending ==> s in all0
    ensures all0 <= all <= Universe() && forall s :: s in all ==> Reached(s, u)
    ensures forall s :: s in newNodes <==> s in all - all0
    ensures forall s, b :: s in pending && IsPrefix(b) ==> Next(s, b, u) in all
  {
    hide Next, Reached, Universe;
    all, newNodes := all0, [];
    for i := 0 to |pending|
      invariant all0 <= all <= Universe()
      invariant forall s :: s in all ==> Reached(s, u)
      invariant forall s :: s in newNodes <==> s in all - all0
      invariant forall j, b :: 0 <= j < i && IsPrefix(b) ==> Next(pending[j], b, u) in all
    {
      assert pending[i] in pending;
      ghost var before, seen := all, newNodes;
      all, newNodes := ExpandState(pending[i], all, newNodes, u);
      forall s ensures s in newNodes <==> s in all - all0 {
        assert s in seen <==> s in before - all0;
      }
    }
  }

  // Explores all states from the start, one round of new states at a time.
  method ComputeStates(u: Uses) returns (all: set<State>)
    ensures forall s :: s in all <==> Reached(s, u)
    ensures ClosedUnderNext(all, u)
  {
    hide Next, Fold, Universe, Reached;
    StartReached(u);
    all := {START};
    var newNodes := [START];
    while newNodes != []
      invariant START in all && all <= Universe()
      invariant forall s :: s in all ==> Reached(s, u)
      invariant forall s :: s in newNodes ==> s in all
      invariant forall s, b :: s in all && s !in newNodes && IsPrefix(b) ==> Next(s, b, u) in all
      decreases Universe() - all, |newNodes|
    {
      ghost var before := all;
      all, newNodes := ExpandRound(newNodes, all, u);
      if newNodes != [] {
        assert newNodes[0] in newNodes && newNodes[0] in Universe() - before;
      }
    }
    forall s | Reached(s, u) ensures s in all {
      ReachedStateInClosed(all, s, u);
    }
  }

  lemma StartReached(u: Uses)
    ensures Reached(START, u) && START in Universe()
  {
    assert PrefixString([]) && Fold([], u) == START;
  }

  lemma ReachedStateInClosed(all: set<State>, s: State, u: Uses)
    requires START in all && ClosedUnderNext(all, u) && Reached(s, u)
    ensures s in all
  {
    var w :| PrefixString(w) && Fold(w, u) == s;
    ReachedInClosed(all, w, u);
  }

  datatype Edge = Edge(from: nat, byte: nat, to: nat)

  ghost predicate IsEdge(u: Uses, nodes: seq<State>, e: Edge) {
    e.from < |nodes| && e.to < |nodes| && IsPrefix(e.byte) && nodes[e.to] == Next(nodes[e.from], e.byte, u)
  }

  // The nodes are the reached states, the start first, and the edges lead where Next does.
  ghost predicate Automaton(u: Uses, nodes: seq<State>, edges: seq<Edge>) {
    && nodes != [] && nodes[0] == START
    && (forall i, j :: 0 <= i < j < |nodes| ==> nodes[i] != nodes[j])
    && (forall s :: s in nodes <==> Reached(s, u))
    && (forall e :: e in edges ==> IsEdge(u, nodes, e))
    && (forall i: nat, b: nat :: i < |nodes| && IsPrefix(b) ==> HasEdge(edges, i, b))
  }

  ghost predicate HasEdge(edges: seq<Edge>, i: nat, b: nat) {
    exists e :: e in edges && e.from == i && e.byte == b
  }

  // The states in some order, the start first.
  method OrderStates(all: set<State>) returns (nodes: seq<State>)
    requires START in all
    ensures nodes != [] && nodes[0] == START
    ensures forall i, j :: 0 <= i < j < |nodes| ==> nodes[i] != nodes[j]
    ensures forall s :: s in nodes <==> s in all
  {
    nodes := [START];
    var rest := all - {START};
    while rest != {}
      invariant nodes != [] && nodes[0] == START && rest <= all
      invariant forall i, j :: 0 <= i < j < |nodes| ==> nodes[i] != nodes[j]
      invariant forall s :: s in nodes <==> s in all - rest
      decreases rest
    {
      var s :| s in rest;
      assert s !in nodes;
      nodes, rest := nodes + [s], rest - {s};
    }
  }

  method ComputeAutomaton(u: Uses) returns (nodes: seq<State>, edges: seq<Edge>)
    ensures Automaton(u, nodes, edges)
  {
    hide Universe, Next, Fold;
    var all := ComputeStates(u);
    assert START in all by { StartReached(u); }
    nodes := OrderStates(all);
    var index := IndexOf(nodes);
    edges := [];
    for i := 0 to |nodes|
      invariant forall e :: e in edges ==> IsEdge(u, nodes, e)
      invariant forall j: nat, b: nat :: j < i && IsPrefix(b) ==> HasEdge(edges, j, b)
    {
      var more := EdgesFrom(nodes, index, i, u, all);
      forall j: nat, b: nat | j < i + 1 && IsPrefix(b) ensures HasEdge(edges + more, j, b) {
        if j < i {
          assert HasEdge(edges, j, b);
          var e :| e in edges && e.from == j && e.byte == b;
          assert e in edges + more;
        } else {
          assert HasEdge(more, j, b);
          var e :| e in more && e.from == j && e.byte == b;
          assert e in edges + more;
        }
      }
      edges := edges + more;
    }
  }

  method IndexOf(nodes: seq<State>) returns (index: map<State, nat>)
    ensures forall s :: s in index <==> s in nodes
    ensures forall s :: s in index ==> index[s] < |nodes| && nodes[index[s]] == s
  {
    index := map[];
    for i := 0 to |nodes|
      invariant forall s :: s in index <==> s in nodes[..i]
      invariant forall s :: s in index ==> index[s] < i && nodes[index[s]] == s
    {
      index := index[nodes[i] := i];
      assert nodes[..i + 1] == nodes[..i] + [nodes[i]];
    }
    assert nodes[..|nodes|] == nodes;
  }

  method EdgesFrom(nodes: seq<State>, index: map<State, nat>, i: nat, u: Uses, ghost all: set<State>)
    returns (edges: seq<Edge>)
    requires i < |nodes| && ClosedUnderNext(all, u)
    requires forall s :: s in nodes <==> s in all
    requires forall s :: s in index <==> s in nodes
    requires forall s :: s in index ==> index[s] < |nodes| && nodes[index[s]] == s
    ensures forall e :: e in edges ==> IsEdge(u, nodes, e) && e.from == i
    ensures forall b: nat :: IsPrefix(b) ==> HasEdge(edges, i, b)
  {
    hide Next;
    edges := [];
    for k := 0 to |ALL_PREFIXES|
      invariant |edges| == k
      invariant forall m :: 0 <= m < k ==> edges[m].from == i && edges[m].byte == ALL_PREFIXES[m]
      invariant forall e :: e in edges ==> IsEdge(u, nodes, e) && e.from == i
    {
      var b := ALL_PREFIXES[k];
      PrefixesListed(b);
      assert nodes[i] in all && Next(nodes[i], b, u) in index;
      edges := edges + [Edge(i, b, index[Next(nodes[i], b, u)])];
    }
    forall b: nat | IsPrefix(b) ensures HasEdge(edges, i, b) {
      PrefixesListed(b);
      var k :| 0 <= k < |ALL_PREFIXES| && ALL_PREFIXES[k] == b;
      assert edges[k] in edges;
    }
  }

  // ----- Following the edges

  ghost predicate Follows(edges: seq<Edge>, from: nat, w: seq<nat>, to: nat) {
    if w == [] then from == to
    else exists e :: e in edges && e.byte == w[|w| - 1] && e.to == to && Follows(edges, from, w[..|w| - 1], e.from)
  }

  // Any prefix string can be followed, and leads only to the node of its state.
  lemma {:induction false} EdgesFollowFold(u: Uses, nodes: seq<State>, edges: seq<Edge>, w: seq<nat>)
    returns (node: nat)
    requires Automaton(u, nodes, edges) && PrefixString(w)
    ensures node < |nodes| && nodes[node] == Fold(w, u)
    ensures forall to: nat :: Follows(edges, 0, w, to) <==> to == node
  {
    if w == [] {
      node := 0;
    } else {
      var b := w[|w| - 1];
      var before := EdgesFollowFold(u, nodes, edges, w[..|w| - 1]);
      assert HasEdge(edges, before, b);
      var e :| e in edges && e.from == before && e.byte == b;
      node := e.to;
      assert Follows(edges, 0, w, node);
    }
  }

  // ----- Equivalent prefix strings

  datatype Label = EquivalentTo(w: seq<nat>) | NotEquivalent

  // The k-th of the possible strings is the first that reaches s.
  ghost predicate FirstFor(possible: seq<seq<nat>>, u: Uses, s: State, k: nat)
    requires forall i :: 0 <= i < |possible| ==> PrefixString(possible[i])
  {
    k < |possible| && Fold(possible[k], u) == s && forall m :: 0 <= m < k ==> Fold(possible[m], u) != s
  }

  // The prefix strings that the bit pattern allows, the first for each state they reach. None: one of them is not the
  // shortest for its state, so the encoding is dropped.
  method LabelNodes(u: Uses, nodes: seq<State>, possible: seq<seq<nat>>, numBytes: nat) returns (r: Option<seq<Label>>)
    requires forall i :: 0 <= i < |possible| ==> PrefixString(possible[i]) && |possible[i]| == numBytes
    ensures r.None? <==> exists k :: 0 <= k < |possible| && |Bytes(Fold(possible[k], u))| < numBytes
    ensures r.Some? ==> |r.value| == |nodes| && forall i :: 0 <= i < |nodes| ==>
              match r.value[i]
              case EquivalentTo(w) => exists k: nat :: FirstFor(possible, u, nodes[i], k) && w == possible[k]
              case NotEquivalent => forall k :: 0 <= k < |possible| ==> Fold(possible[k], u) != nodes[i]
  {
    hide Next, Bytes, Fold;
    var first: map<State, seq<nat>> := map[];
    ghost var at: map<State, nat> := map[];
    for k := 0 to |possible|
      invariant at.Keys == first.Keys
      invariant forall s :: s in first ==> FirstFor(possible, u, s, at[s]) && first[s] == possible[at[s]]
      invariant forall m :: 0 <= m < k ==> Fold(possible[m], u) in first
    {
      var s := Fold(possible[k], u);
      if s !in first {
        first, at := first[s := possible[k]], at[s := k];
      }
    }
    forall k | 0 <= k < |possible| ensures |Bytes(Fold(possible[k], u))| <= numBytes {
      BytesAreShortest(possible[k], u);
    }
    if exists s :: s in first && |first[s]| != |Bytes(s)| {
      ghost var s :| s in first && |first[s]| != |Bytes(s)|;
      assert FirstFor(possible, u, s, at[s]);
      return None;
    }
    forall k | 0 <= k < |possible| ensures |Bytes(Fold(possible[k], u))| == numBytes {
      var s := Fold(possible[k], u);
      assert s in first && |first[s]| == |Bytes(s)|;
    }
    return Some(seq(|nodes|, i requires 0 <= i < |nodes| =>
      if nodes[i] in first then EquivalentTo(first[nodes[i]]) else NotEquivalent));
  }

  // Following any prefix string to a labelled node gives an equivalent possible string, and none is shorter.
  lemma LabelsAreEquivalent(u: Uses, nodes: seq<State>, edges: seq<Edge>, w: seq<nat>, node: nat,
                            possible: seq<seq<nat>>, k: nat)
    requires Automaton(u, nodes, edges) && PrefixString(w) && Follows(edges, 0, w, node) && node < |nodes|
    requires forall i :: 0 <= i < |possible| ==>
               PrefixString(possible[i]) && |Bytes(Fold(possible[i], u))| == |possible[i]|
    requires FirstFor(possible, u, nodes[node], k)
    ensures Fold(possible[k], u) == Fold(w, u) && |possible[k]| <= |w|
  {
    var n := EdgesFollowFold(u, nodes, edges, w);
    BytesAreShortest(w, u);
  }
}
