/** PDEP by scanning the selector from one set bit to the next. */
module Deposit {
  import opened Options
  import opened Bits

  // The number of set bits of v below position i.
  function CountBelow(v: nat, i: nat): nat {
    if i == 0 then 0 else CountBelow(v, i - 1) + Bit(v, i - 1)
  }

  // PDEP: the lowest bits of source go, in order, to the set bits of selector.
  ghost predicate Deposited(source: nat, selector: nat, dest: nat, upTo: nat) {
    forall i: nat :: i < upTo ==>
      Bit(dest, i) == if Bit(selector, i) == 1 then Bit(source, CountBelow(selector, i)) else 0
  }

  function TrailingZeros(v: nat): (n: nat)
    requires v > 0
    ensures Bit(v, n) == 1 && forall k: nat :: k < n ==> Bit(v, k) == 0
  {
    if v % 2 == 1 then 0 else
      var n := TrailingZeros(v / 2);
      assert forall k: nat :: 0 < k <= n ==> Bit(v, k) == Bit(v / 2, k - 1);
      n + 1
  }

  lemma {:induction false} CountZeros(v: nat, i: nat, n: nat)
    requires forall k: nat :: i <= k < i + n ==> Bit(v, k) == 0
    ensures CountBelow(v, i + n) == CountBelow(v, i)
    decreases n
  {
    if n > 0 {
      CountZeros(v, i, n - 1);
    }
  }

  lemma OnlyTopBit(v: nat, n: nat)
    requires 0 < v < Pow2(n + 1)
    ensures TrailingZeros(v) == n <==> v == Pow2(n)
  {
    forall k: nat | k < n + 1 ensures Bit(Pow2(n), k) == if k == n then 1 else 0 {
      BitOfSum(0, n, 1, k);
      ZeroBits(k);
    }
    Pow2Grows(n, n + 1);
    if TrailingZeros(v) == n {
      BitsDetermine(v, Pow2(n), n + 1);
    }
    if v == Pow2(n) {
      var z := TrailingZeros(v);
      if z > n { BitAbove(v, n + 1, z); }
    }
  }

  lemma {:induction false} ZeroBits(k: nat)
    ensures Bit(0, k) == 0
  {
    if k > 0 { ZeroBits(k - 1); }
  }

  // The next set bit of the selector is z places on.
  lemma NextSetBit(selector: nat, d: nat, z: nat)
    requires selector < Pow2(128) && Shr(selector, d) > 0 && z == TrailingZeros(Shr(selector, d))
    ensures d + z < 128
    ensures forall i: nat :: d <= i <= d + z ==> Bit(selector, i) == if i == d + z then 1 else 0
    ensures CountBelow(selector, d + z) == CountBelow(selector, d)
    ensures CountBelow(selector, d + z + 1) == CountBelow(selector, d) + 1
  {
    forall i: nat | d <= i <= d + z ensures Bit(selector, i) == if i == d + z then 1 else 0 {
      BitOfShr(selector, d, i - d);
    }
    CountZeros(selector, d, z);
    if d + z >= 128 { BitAbove(selector, 128, d + z); }
  }

  // One turn of the scan: the next set bit of the selector receives the next bit of the source.
  lemma ScanStep(source: nat, selector: nat, d: nat, dest: nat, z: nat)
    requires selector < Pow2(128) && dest < Pow2(d) && Deposited(source, selector, dest, d)
    requires Shr(selector, d) > 0 && z == TrailingZeros(Shr(selector, d))
    ensures d + z < 128
    ensures var bit := Shr(source, CountBelow(selector, d)) % 2;
            var dest' := dest + Shl(bit, d + z);
            dest' < Pow2(d + z + 1) && Deposited(source, selector, dest', d + z + 1)
    ensures CountBelow(selector, d + z + 1) == CountBelow(selector, d) + 1
  {
    hide TrailingZeros, CountBelow, Bit, Shr, Pow2;
    NextSetBit(selector, d, z);
    var bit := Shr(source, CountBelow(selector, d)) % 2;
    LowBit(source, CountBelow(selector, d));
    BitFits(dest, d, d + z, bit);
    var dest' := dest + Shl(bit, d + z);
    forall i: nat | i < d + z + 1
      ensures Bit(dest', i) == if Bit(selector, i) == 1 then Bit(source, CountBelow(selector, i)) else 0
    {
      PlacedBit(dest, d, d + z, bit, i);
    }
  }

  lemma BitFits(dest: nat, d: nat, at: nat, bit: nat)
    requires dest < Pow2(d) && d <= at && bit <= 1
    ensures dest + Shl(bit, at) < Pow2(at + 1)
  {
    Pow2Grows(d, at);
    assert Shl(bit, at) <= Pow2(at);
  }

  lemma PlacedBit(dest: nat, d: nat, at: nat, bit: nat, i: nat)
    requires dest < Pow2(d) && d <= at && bit <= 1 && i <= at
    ensures Bit(dest + Shl(bit, at), i) == if i == at then bit else if i < d then Bit(dest, i) else 0
  {
    Pow2Grows(d, at);
    BitOfSum(dest, at, bit, i);
    if d <= i {
      BitAbove(dest, d, i);
    }
  }

  lemma LowBit(v: nat, n: nat)
    ensures Shr(v, n) % 2 == Bit(v, n)
  {
  }

  lemma ScanShifts(source: nat, selector: nat, d: nat, z: nat)
    ensures Shr(Shr(selector, d), z + 1) == Shr(selector, d + z + 1)
    ensures Shr(source, CountBelow(selector, d)) / 2 == Shr(source, CountBelow(selector, d) + 1)
  {
    ShrOfShr(selector, d, z + 1);
    ShrOfShr(source, CountBelow(selector, d), 1);
    var s := Shr(source, CountBelow(selector, d));
    assert Shr(s, 1) == Shr(s / 2, 0);
  }

  // With no set bit left, the scan is complete.
  lemma ScanEnd(source: nat, selector: nat, d: nat, dest: nat, i: nat)
    requires dest < Pow2(d) && Deposited(source, selector, dest, d) && Shr(selector, d) == 0
    ensures Bit(dest, i) == if Bit(selector, i) == 1 then Bit(source, CountBelow(selector, i)) else 0
  {
    if i >= d {
      BitOfShr(selector, d, i - d);
      ZeroBits(i - d);
      BitAbove(dest, d, i);
    }
  }

  // None: the shift of the selector by 128 is out of range, which only the single bit 2^127 calls for.
  method DepositBits(source: nat, selector: nat) returns (r: Option<nat>)
    requires source < Pow2(128) && selector < Pow2(128)
    ensures r.None? <==> selector == Pow2(127)
    ensures r.Some? ==> Deposited(source, selector, r.value, 128) && r.value < Pow2(128)
  {
    hide Deposited, Pow2, CountBelow, Bit, Shr;
    var src, sel := source, selector;
    var dest: nat, destBit: nat := 0, 0;
    ScanStart(source, selector);
    while sel != 0
      invariant sel == Shr(selector, destBit) && src == Shr(source, CountBelow(selector, destBit))
      invariant dest < Pow2(destBit) && destBit <= 128 && Deposited(source, selector, dest, destBit)
      invariant destBit > 0 ==> selector != Pow2(127)
      decreases 128 - destBit
    {
      var bitIndex := TrailingZeros(sel);
      ScanStep(source, selector, destBit, dest, bitIndex);
      ScanShifts(source, selector, destBit, bitIndex);
      if destBit == 0 {
        OnlyTopBit(selector, 127);
      }
      if bitIndex + 1 >= 128 {
        return None;
      }
      var bit := src % 2;
      dest := dest + Shl(bit, destBit + bitIndex);
      destBit := destBit + bitIndex + 1;
      src := src / 2;
      sel := Shr(sel, bitIndex + 1);
    }
    ScanDone(source, selector, destBit, dest);
    return Some(dest);
  }

  lemma ScanStart(source: nat, selector: nat)
    ensures Shr(selector, 0) == selector && Shr(source, CountBelow(selector, 0)) == source
    ensures 0 < Pow2(0) && Deposited(source, selector, 0, 0)
  {
  }

  lemma ScanDone(source: nat, selector: nat, d: nat, dest: nat)
    requires dest < Pow2(d) && d <= 128 && Deposited(source, selector, dest, d) && Shr(selector, d) == 0
    ensures Deposited(source, selector, dest, 128) && dest < Pow2(128)
  {
    Pow2Grows(d, 128);
    forall i: nat | i < 128
      ensures Bit(dest, i) == if Bit(selector, i) == 1 then Bit(source, CountBelow(selector, i)) else 0
    {
      ScanEnd(source, selector, d, dest, i);
    }
  }
}
