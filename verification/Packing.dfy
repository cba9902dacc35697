/**
 Packed encodings: each kind of shared component is stored once in a table, and encodings refer to it by a 16-bit
 index.
 */
module Packing {
  import opened Options

  // Name, equivalent prefixes, parts, addresses, commands, part packing and jump: the components that are shared, in
  // the order in which they are interned.
  const NUM_KINDS: nat := 7

  datatype Encoding<B, C, M> = Encoding(bits: B, components: seq<C>, isRep: bool, metadata: Option<M>)

  datatype PackedEncoding<B> = PackedEncoding(bits: B, indices: seq<nat>, isRep: bool)

  datatype Packed<B, C> = Packed(tables: seq<seq<C>>, encodings: seq<PackedEncoding<B>>)

  // Indices are 16 bits wide.
  const MAX_INDEX: nat := 0xFFFF

  // A table under construction and the position of each of its entries.
  datatype Interned<C> = Interned(table: seq<C>, index: map<C, nat>)
  {
    ghost predicate Valid() {
      && (forall c :: c in index ==> index[c] < |table| && table[index[c]] == c)
      && (forall i :: 0 <= i < |table| ==> table[i] in index && index[table[i]] == i)
    }
  }

  ghost predicate Complete<B, C, M>(encodings: seq<Encoding<B, C, M>>) {
    forall i :: 0 <= i < |encodings| ==> |encodings[i].components| == NUM_KINDS
  }

  // The different components of kind k.
  ghost function Used<B, C, M>(encodings: seq<Encoding<B, C, M>>, k: nat): set<C>
    requires Complete(encodings) && k < NUM_KINDS
  {
    set i | 0 <= i < |encodings| :: encodings[i].components[k]
  }

  ghost function Entries<C>(table: seq<C>): set<C> {
    set c | c in table
  }

  ghost predicate NoDuplicates<C>(table: seq<C>) {
    forall i, j :: 0 <= i < j < |table| ==> table[i] != table[j]
  }

  // Every index of p leads to the component of e it stands for.
  ghost predicate Refers<B, C, M>(p: PackedEncoding<B>, tables: seq<seq<C>>, e: Encoding<B, C, M>) {
    && p.bits == e.bits && p.isRep == e.isRep
    && |p.indices| == |tables| == |e.components| == NUM_KINDS
    && forall k :: 0 <= k < NUM_KINDS ==>
         p.indices[k] < |tables[k]| && p.indices[k] <= MAX_INDEX && tables[k][p.indices[k]] == e.components[k]
  }

  ghost predicate Represents<B, C, M>(p: Packed<B, C>, encodings: seq<Encoding<B, C, M>>) {
    && Complete(encodings) && |p.encodings| == |encodings| && |p.tables| == NUM_KINDS
    && (forall i :: 0 <= i < |encodings| ==> Refers(p.encodings[i], p.tables, encodings[i]))
    && (forall k :: 0 <= k < NUM_KINDS ==> NoDuplicates(p.tables[k]) && Entries(p.tables[k]) == Used(encodings, k))
  }

  function Empty<C>(): (t: Interned<C>)
    ensures t.Valid()
  {
    Interned([], map[])
  }

  method Intern<C(==)>(t: Interned<C>, c: C) returns (r: Interned<C>, i: nat)
    requires t.Valid()
    ensures r.Valid() && Grown(t, r, c) && Stands(r, i, c)
    ensures |r.table| == |t.table| || |r.table| == i + 1
    ensures r.table == if c in t.table then t.table else t.table + [c]
  {
    if c in t.index {
      return t, t.index[c];
    }
    assert c !in t.table;
    return Interned(t.table + [c], t.index[c := |t.table|]), |t.table|;
  }

  ghost predicate AllValid<C>(ts: seq<Interned<C>>) {
    |ts| == NUM_KINDS && forall k :: 0 <= k < NUM_KINDS ==> ts[k].Valid()
  }

  ghost predicate Grown<C>(t: Interned<C>, u: Interned<C>, c: C) {
    u.table == t.table || u.table == t.table + [c]
  }

  ghost predicate AllGrown<C>(ts: seq<Interned<C>>, us: seq<Interned<C>>, components: seq<C>)
    requires |ts| == |us| == |components| == NUM_KINDS
  {
    forall k :: 0 <= k < NUM_KINDS ==> Grown(ts[k], us[k], components[k])
  }

  ghost predicate Stands<C>(t: Interned<C>, i: nat, c: C) {
    i < |t.table| && t.table[i] == c
  }

  ghost predicate FitIndices<C>(ts: seq<Interned<C>>)
    requires |ts| == NUM_KINDS
  {
    forall k :: 0 <= k < NUM_KINDS ==> |ts[k].table| <= MAX_INDEX + 1
  }

  // One encoding. None: an index does not fit 16 bits, which is a panic.
  method PackOne<B, C(==), M>(e: Encoding<B, C, M>, ts: seq<Interned<C>>)
    returns (r: Option<PackedEncoding<B>>, us: seq<Interned<C>>)
    requires AllValid(ts) && FitIndices(ts) && |e.components| == NUM_KINDS
    ensures AllValid(us) && AllGrown(ts, us, e.components)
    ensures r.Some? ==> FitIndices(us) && Refers(r.value, Tables(us), e)
    ensures r.None? ==> !FitIndices(us)
  {
    us := ts;
    var indices: seq<nat> := [];
    for k := 0 to NUM_KINDS
      invariant AllValid(us) && AllGrown(ts, us, e.components) && FitIndices(us)
      invariant |indices| == k && forall j :: k <= j < NUM_KINDS ==> us[j] == ts[j]
      invariant forall j :: 0 <= j < k ==> indices[j] <= MAX_INDEX && Stands(us[j], indices[j], e.components[j])
    {
      hide Grown;
      var t, i := Intern(us[k], e.components[k]);
      us := us[k := t];
      if i > MAX_INDEX {
        assert |us[k].table| > MAX_INDEX + 1;
        return None, us;
      }
      indices := indices + [i];
    }
    r := Some(PackedEncoding(e.bits, indices, e.isRep));
  }

  function Tables<C>(ts: seq<Interned<C>>): (tables: seq<seq<C>>)
    requires |ts| == NUM_KINDS
    ensures |tables| == NUM_KINDS && forall k :: 0 <= k < NUM_KINDS ==> tables[k] == ts[k].table
  {
    seq(NUM_KINDS, k requires 0 <= k < NUM_KINDS => ts[k].table)
  }

  // The tables hold the components of the first n encodings, which the packed ones refer to.
  ghost predicate PackedUpTo<B, C, M>(encodings: seq<Encoding<B, C, M>>, packed: seq<PackedEncoding<B>>,
                                      ts: seq<Interned<C>>, n: nat) {
    && Complete(encodings) && n <= |encodings| && AllValid(ts) && |packed| == n
    && (forall i :: 0 <= i < n ==> Refers(packed[i], Tables(ts), encodings[i]))
    && (forall k :: 0 <= k < NUM_KINDS ==> Entries(ts[k].table) == Used(encodings[..n], k)) && FitIndices(ts)
  }

  lemma ReferenceKept<B, C, M>(p: PackedEncoding<B>, ts: seq<Interned<C>>, us: seq<Interned<C>>, components: seq<C>,
                               e: Encoding<B, C, M>)
    requires |ts| == |us| == |components| == NUM_KINDS && AllGrown(ts, us, components) && Refers(p, Tables(ts), e)
    ensures Refers(p, Tables(us), e)
  {
  }

  lemma UsedStep<B, C, M>(encodings: seq<Encoding<B, C, M>>, n: nat, k: nat)
    requires Complete(encodings) && n < |encodings| && k < NUM_KINDS
    ensures Used(encodings[..n + 1], k) == Used(encodings[..n], k) + {encodings[n].components[k]}
  {
  }

  lemma {:induction false} EntriesCount<C>(table: seq<C>)
    requires NoDuplicates(table)
    ensures |Entries(table)| == |table|
  {
    if table != [] {
      var rest, last := table[..|table| - 1], table[|table| - 1];
      EntriesCount(rest);
      assert table == rest + [last];
      assert Entries(table) == Entries(rest) + {last};
    }
  }

  lemma SubsetSize<C>(a: set<C>, b: set<C>)
    requires a <= b
    ensures |a| <= |b|
  {
    assert b == a + (b - a);
  }

  lemma UsedGrows<B, C, M>(encodings: seq<Encoding<B, C, M>>, n: nat, k: nat)
    requires Complete(encodings) && n <= |encodings| && k < NUM_KINDS
    ensures Used(encodings[..n], k) <= Used(encodings, k)
  {
  }

  lemma ValidTable<C>(t: Interned<C>)
    requires t.Valid()
    ensures NoDuplicates(t.table)
  {
  }

  // None: some table needs more entries than there are indices.
  method Pack<B, C(==), M>(encodings: seq<Encoding<B, C, M>>) returns (r: Option<Packed<B, C>>)
    requires Complete(encodings)
    ensures r.None? <==> exists k :: 0 <= k < NUM_KINDS && |Used(encodings, k)| > MAX_INDEX + 1
    ensures r.Some? ==> Represents(r.value, encodings)
  {
    hide Represents, Refers, PackedUpTo;
    var ts: seq<Interned<C>> := seq(NUM_KINDS, _ => Empty());
    var packed := [];
    PackNothing(encodings, ts);
    for n := 0 to |encodings|
      invariant PackedUpTo(encodings, packed, ts, n)
      invariant AllValid(ts) && FitIndices(ts)
    {
      var one, us := PackOne(encodings[n], ts);
      if one.None? {
        PackFails(encodings, packed, ts, us, n);
        return None;
      }
      PackStep(encodings, packed, ts, us, n, one.value);
      packed, ts := packed + [one.value], us;
    }
    PackEnd(encodings, packed, ts);
    return Some(Packed(Tables(ts), packed));
  }

  lemma PackNothing<B, C, M>(encodings: seq<Encoding<B, C, M>>, ts: seq<Interned<C>>)
    requires Complete(encodings) && |ts| == NUM_KINDS && forall k :: 0 <= k < NUM_KINDS ==> ts[k] == Empty()
    ensures PackedUpTo(encodings, [], ts, 0) && AllValid(ts) && FitIndices(ts)
  {
  }

  lemma PackStep<B, C, M>(encodings: seq<Encoding<B, C, M>>, packed: seq<PackedEncoding<B>>, ts: seq<Interned<C>>,
                          us: seq<Interned<C>>, n: nat,
                          one: PackedEncoding<B>)
    requires PackedUpTo(encodings, packed, ts, n) && n < |encodings|
    requires AllValid(us) && FitIndices(us) && AllGrown(ts, us, encodings[n].components)
    requires Refers(one, Tables(us), encodings[n])
    ensures PackedUpTo(encodings, packed + [one], us, n + 1)
  {
    forall k | 0 <= k < NUM_KINDS ensures Entries(us[k].table) == Used(encodings[..n + 1], k) {
      UsedStep(encodings, n, k);
      assert encodings[n].components[k] in us[k].table;
      assert Grown(ts[k], us[k], encodings[n].components[k]);
    }
    hide Refers;
    forall i | 0 <= i < n + 1 ensures Refers((packed + [one])[i], Tables(us), encodings[i]) {
      if i < n { ReferenceKept(packed[i], ts, us, encodings[n].components, encodings[i]); }
    }
  }

  lemma PackFails<B, C, M>(encodings: seq<Encoding<B, C, M>>, packed: seq<PackedEncoding<B>>, ts: seq<Interned<C>>,
                           us: seq<Interned<C>>, n: nat)
    requires PackedUpTo(encodings, packed, ts, n) && n < |encodings|
    requires AllValid(us) && !FitIndices(us) && AllGrown(ts, us, encodings[n].components)
    ensures exists k :: 0 <= k < NUM_KINDS && |Used(encodings, k)| > MAX_INDEX + 1
  {
    var k :| 0 <= k < NUM_KINDS && |us[k].table| > MAX_INDEX + 1;
    assert Grown(ts[k], us[k], encodings[n].components[k]);
    ValidTable(us[k]);
    EntriesCount(us[k].table);
    UsedStep(encodings, n, k);
    UsedGrows(encodings, n + 1, k);
    SubsetSize(Entries(us[k].table), Used(encodings, k));
  }

  lemma PackEnd<B, C, M>(encodings: seq<Encoding<B, C, M>>, packed: seq<PackedEncoding<B>>, ts: seq<Interned<C>>)
    requires PackedUpTo(encodings, packed, ts, |encodings|)
    ensures Represents(Packed(Tables(ts), packed), encodings)
    ensures forall k :: 0 <= k < NUM_KINDS ==> |Used(encodings, k)| <= MAX_INDEX + 1
  {
    assert encodings[..|encodings|] == encodings;
    forall k | 0 <= k < NUM_KINDS ensures NoDuplicates(ts[k].table) && |Used(encodings, k)| <= MAX_INDEX + 1 {
      ValidTable(ts[k]);
      EntriesCount(ts[k].table);
    }
  }

  // ----- Unpacking

  ghost predicate InRange<B, C>(p: Packed<B, C>) {
    && |p.tables| == NUM_KINDS
    && forall i :: 0 <= i < |p.encodings| ==>
         && |p.encodings[i].indices| == NUM_KINDS
         && forall k :: 0 <= k < NUM_KINDS ==> p.encodings[i].indices[k] < |p.tables[k]|
  }

  // The encoding that p's i-th entry stands for.
  function Get<B, C, M>(p: Packed<B, C>, i: nat): Encoding<B, C, M>
    requires InRange(p) && i < |p.encodings|
  {
    var e := p.encodings[i];
    Encoding(e.bits, seq(NUM_KINDS, k requires 0 <= k < NUM_KINDS => p.tables[k][e.indices[k]]), e.isRep, None)
  }

  method Unpack<B, C, M>(p: Packed<B, C>) returns (encodings: seq<Encoding<B, C, M>>)
    requires InRange(p)
    ensures |encodings| == |p.encodings| && forall i :: 0 <= i < |encodings| ==> encodings[i] == Get(p, i)
  {
    encodings := [];
    for i := 0 to |p.encodings|
      invariant |encodings| == i && forall j :: 0 <= j < i ==> encodings[j] == Get(p, j)
    {
      encodings := encodings + [Get(p, i)];
    }
  }

  // Unpacking what was packed gives everything back but the metadata, which is not packed.
  lemma UnpackOfPack<B, C, M>(encodings: seq<Encoding<B, C, M>>, p: Packed<B, C>, back: seq<Encoding<B, C, M>>)
    requires Represents(p, encodings)
    ensures InRange(p)
    ensures |back| == |p.encodings| && (forall i :: 0 <= i < |back| ==> back[i] == Get(p, i)) ==>
              && (forall i :: 0 <= i < |back| ==> back[i] == encodings[i].(metadata := None))
              && (back == encodings <==> forall i :: 0 <= i < |encodings| ==> encodings[i].metadata == None)
  {
  }

  // Two encodings share an index exactly when they share the component.
  lemma SharedExactly<B, C, M>(encodings: seq<Encoding<B, C, M>>, p: Packed<B, C>, i: nat, j: nat, k: nat)
    requires Represents(p, encodings) && i < |encodings| && j < |encodings| && k < NUM_KINDS
    ensures p.encodings[i].indices[k] == p.encodings[j].indices[k] <==>
              encodings[i].components[k] == encodings[j].components[k]
  {
  }
}
