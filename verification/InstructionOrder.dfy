/** The order on instructions: bytewise, with the shorter one padded by zeros, and the successor in that order. */
module InstructionOrder {
  import opened Bytes
  import opened Instructions
  import opened Options

  datatype Ordering = Less | Equal | Greater

  function Padded(s: seq<Byte>, i: nat): Byte {
    if i < |s| then s[i] else 0
  }

  function Longer(a: seq<Byte>, b: seq<Byte>): nat {
    if |a| <= |b| then |b| else |a|
  }

  // a and b differ first at k, where a is smaller.
  ghost predicate BelowAt(a: seq<Byte>, b: seq<Byte>, k: nat) {
    Padded(a, k) < Padded(b, k) && forall j: nat :: j < k ==> Padded(a, j) == Padded(b, j)
  }

  ghost predicate Below(a: seq<Byte>, b: seq<Byte>) {
    exists k: nat :: BelowAt(a, b, k)
  }

  ghost predicate Same(a: seq<Byte>, b: seq<Byte>) {
    forall j: nat :: Padded(a, j) == Padded(b, j)
  }

  method Cmp(a: Instruction, b: Instruction) returns (r: Ordering)
    ensures r == Less <==> Below(a.bytes, b.bytes)
    ensures r == Greater <==> Below(b.bytes, a.bytes)
    ensures r == Equal <==> Same(a.bytes, b.bytes)
  {
    var s, t := a.bytes, b.bytes;
    for i := 0 to Longer(s, t)
      invariant forall j: nat :: j < i ==> Padded(s, j) == Padded(t, j)
    {
      if Padded(s, i) < Padded(t, i) {
        assert BelowAt(s, t, i);
        Trichotomy(s, t);
        return Less;
      }
      if Padded(s, i) > Padded(t, i) {
        assert BelowAt(t, s, i);
        Trichotomy(s, t);
        return Greater;
      }
    }
    assert Same(s, t);
    Trichotomy(s, t);
    return Equal;
  }

  // At most one of below, above and same holds.
  lemma Trichotomy(a: seq<Byte>, b: seq<Byte>)
    ensures !(Below(a, b) && Below(b, a)) && !(Below(a, b) && Same(a, b)) && !(Below(b, a) && Same(a, b))
  {
  }

  ghost predicate AtMost(a: seq<Byte>, b: seq<Byte>) {
    Below(a, b) || Same(a, b)
  }

  lemma BelowTrans(a: seq<Byte>, b: seq<Byte>, c: seq<Byte>)
    requires AtMost(a, b) && AtMost(b, c)
    ensures AtMost(a, c)
    ensures Below(a, b) || Below(b, c) ==> Below(a, c)
  {
    if Below(a, b) {
      var k: nat :| BelowAt(a, b, k);
      if Below(b, c) {
        var l: nat :| BelowAt(b, c, l);
        assert BelowAt(a, c, if k <= l then k else l);
      } else {
        assert BelowAt(a, c, k);
      }
    } else if Below(b, c) {
      var l: nat :| BelowAt(b, c, l);
      assert BelowAt(a, c, l);
    }
  }

  // Any two instructions are comparable.
  lemma AtMostTotal(a: seq<Byte>, b: seq<Byte>)
    ensures AtMost(a, b) || AtMost(b, a)
  {
    if !Same(a, b) {
      var j: nat :| Padded(a, j) != Padded(b, j);
      var k := 0;
      while Padded(a, k) == Padded(b, k)
        invariant k <= j && forall i: nat :: i < k ==> Padded(a, i) == Padded(b, i)
        decreases j - k
      {
        k := k + 1;
      }
      assert BelowAt(a, b, k) || BelowAt(b, a, k);
    }
  }

  // The least instruction of at most the same length that is above s, if there is one, without zeros at its end.
  method Next(s: Instruction) returns (r: Option<Instruction>)
    ensures r.None? <==> forall i :: 0 <= i < |s.bytes| ==> s.bytes[i] == 255
    ensures r.Some? ==>
              && 1 <= |r.value.bytes| <= |s.bytes| && r.value.bytes[|r.value.bytes| - 1] != 0
              && (forall e: seq<Byte> :: Below(s.bytes + e, r.value.bytes))
              && (forall u: seq<Byte> :: |u| <= |s.bytes| && Below(s.bytes, u) ==> AtMost(r.value.bytes, u))
  {
    var b := s.bytes;
    var pos := |b|;
    while pos > 0
      invariant 0 <= pos <= |b| && forall i :: pos <= i < |b| ==> b[i] == 255
    {
      pos := pos - 1;
      if b[pos] < 255 {
        var t := b[..pos] + [b[pos] + 1];
        forall e: seq<Byte> ensures Below(b + e, t) {
          assert BelowAt(b + e, t, pos);
        }
        forall u: seq<Byte> | |u| <= |b| && Below(b, u) ensures AtMost(t, u) {
          NextIsLeast(b, pos, t, u);
        }
        return Some(Instruction(t));
      }
    }
    return None;
  }

  lemma NextIsLeast(b: seq<Byte>, pos: nat, t: seq<Byte>, u: seq<Byte>)
    requires pos < |b| && b[pos] < 255 && (forall i :: pos < i < |b| ==> b[i] == 255)
    requires t == b[..pos] + [b[pos] + 1] && |u| <= |b| && Below(b, u)
    ensures AtMost(t, u)
  {
    var k: nat :| BelowAt(b, u, k);
    assert k <= pos;
    if k < pos {
      assert BelowAt(t, u, k);
    } else if Padded(u, pos) > t[pos] {
      assert BelowAt(t, u, pos);
    } else {
      assert forall j: nat :: j <= pos ==> Padded(t, j) == Padded(u, j);
      assert forall j: nat :: Padded(t, j) <= Padded(u, j);
      AtMostTotal(t, u);
    }
  }
}
