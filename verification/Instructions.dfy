/** Instruction bitstrings: bits counted from the right, and the order on instructions of different lengths. */
module Instructions {
  import opened Bytes
  import opened Bits

  datatype Instruction = Instruction(bytes: seq<Byte>)
  {
    function BitLen(): nat { 8 * |bytes| }

    function ByteAt(index: nat): nat
      requires index < BitLen()
      ensures ByteAt(index) < |bytes|
    {
      |bytes| - 1 - index / 8
    }

    function NthBitFromRight(index: nat): nat
      requires index < BitLen()
    {
      Bit(bytes[ByteAt(index)], index % 8)
    }

    function SetNthBitFromRight(index: nat, bit: nat): (r: Instruction)
      requires index < BitLen() && bit <= 1
      ensures r.BitLen() == BitLen()
      ensures forall i: nat :: i < BitLen() ==> r.NthBitFromRight(i) == if i == index then bit else NthBitFromRight(i)
    {
      var k := ByteAt(index);
      ByteFits(bytes[k], index % 8, bit);
      var r := Instruction(bytes[k := WithBit(bytes[k], index % 8, bit)]);
      SetBitMeaning(this, r, index, bit);
      r
    }
  }

  lemma ByteFits(b: Byte, k: nat, bit: nat)
    requires k < 8 && bit <= 1
    ensures WithBit(b, k, bit) < 256
  {
    assert Pow2(8) == 256 by { assert Pow2(4) == 16; assert Pow2(6) == 64; }
    WithBitFits(b, k, bit, 8);
  }

  lemma SetBitMeaning(s: Instruction, r: Instruction, index: nat, bit: nat)
    requires index < s.BitLen() && bit <= 1 && WithBit(s.bytes[s.ByteAt(index)], index % 8, bit) < 256
    requires r.bytes == s.bytes[s.ByteAt(index) := WithBit(s.bytes[s.ByteAt(index)], index % 8, bit)]
    ensures forall i: nat :: i < s.BitLen() ==> r.NthBitFromRight(i) == if i == index then bit else s.NthBitFromRight(i)
  {
    forall i: nat | i < s.BitLen() ensures r.NthBitFromRight(i) == if i == index then bit else s.NthBitFromRight(i) {
      if s.ByteAt(i) == s.ByteAt(index) {
        BitOfWithBit(s.bytes[s.ByteAt(index)], index % 8, bit, i % 8);
        assert i == index <==> i % 8 == index % 8;
      }
    }
  }

  // Instructions of one length are equal when all their bits are.
  lemma SameBits(a: Instruction, b: Instruction)
    requires a.BitLen() == b.BitLen()
    requires forall i: nat :: i < a.BitLen() ==> a.NthBitFromRight(i) == b.NthBitFromRight(i)
    ensures a == b
  {
    forall p | 0 <= p < |a.bytes| ensures a.bytes[p] == b.bytes[p] {
      var low := 8 * (|a.bytes| - 1 - p);
      forall k: nat | k < 8 ensures Bit(a.bytes[p], k) == Bit(b.bytes[p], k) {
        assert a.ByteAt(low + k) == p && (low + k) % 8 == k;
        assert a.NthBitFromRight(low + k) == b.NthBitFromRight(low + k);
      }
      assert Pow2(8) == 256 by { assert Pow2(4) == 16; assert Pow2(6) == 64; }
      BitsDetermine(a.bytes[p], b.bytes[p], 8);
    }
  }

  // The bits of data, one at a time from the lowest, placed from index on; and what is left of data.
  function SetBits(s: Instruction, index: nat, data: nat, num: nat): (r: Instruction)
    requires index + num <= s.BitLen()
    ensures r.BitLen() == s.BitLen()
    decreases num
  {
    if num == 0 then s else SetBits(s.SetNthBitFromRight(index, data % 2), index + 1, data / 2, num - 1)
  }

  lemma {:induction false} SetBitsMeaning(s: Instruction, index: nat, data: nat, num: nat)
    requires index + num <= s.BitLen()
    ensures forall i: nat :: i < s.BitLen() ==>
              SetBits(s, index, data, num).NthBitFromRight(i)
              == if index <= i < index + num then Bit(data, i - index) else s.NthBitFromRight(i)
    decreases num
  {
    if num > 0 {
      var t := s.SetNthBitFromRight(index, data % 2);
      SetBitsMeaning(t, index + 1, data / 2, num - 1);
      forall i: nat | i < s.BitLen()
        ensures SetBits(s, index, data, num).NthBitFromRight(i)
                == if index <= i < index + num then Bit(data, i - index) else s.NthBitFromRight(i)
      {
        assert t.NthBitFromRight(i) == if i == index then data % 2 else s.NthBitFromRight(i);
      }
    }
  }

  // Whole bytes at once. It leaves what placing the bits one at a time leaves.
  method SetMultipleBitsFromRight(s: Instruction, index: nat, data: nat, num: nat) returns (r: Instruction)
    requires num % 8 == 0 && index % 8 == 0 && index + num <= s.BitLen()
    ensures r == SetBits(s, index, data, num)
  {
    hide Pow2, Bit, Trunc, SetBits;
    var bytes: seq<Byte> := s.bytes;
    var rest := data;
    var i := |bytes| - 1 - index / 8;
    for n := 0 to num / 8
      invariant |bytes| == |s.bytes| && i == |bytes| - 1 - index / 8 - n
      invariant rest == Shr(data, 8 * n)
      invariant forall p :: 0 <= p <= i ==> bytes[p] == s.bytes[p]
      invariant forall p :: |bytes| - index / 8 <= p < |bytes| ==> bytes[p] == s.bytes[p]
      invariant forall p :: i < p < |bytes| - index / 8 ==>
                  bytes[p] == Trunc(Shr(data, 8 * (|bytes| - 1 - index / 8 - p)), 8)
    {
      LowByte(rest);
      ShrOfShr(data, 8 * n, 8);
      bytes := bytes[i := rest % 256];
      i := i - 1;
      rest := rest / 256;
    }
    r := Instruction(bytes);
    BytesAreBits(s, r, index, data, num);
  }

  lemma BytesAreBits(s: Instruction, r: Instruction, index: nat, data: nat, num: nat)
    requires num % 8 == 0 && index % 8 == 0 && index + num <= s.BitLen() && |r.bytes| == |s.bytes|
    requires forall p :: 0 <= p < |s.bytes| - (index + num) / 8 || |s.bytes| - index / 8 <= p < |s.bytes| ==>
               r.bytes[p] == s.bytes[p]
    requires forall p :: |s.bytes| - (index + num) / 8 <= p < |s.bytes| - index / 8
               ==> r.bytes[p] == Trunc(Shr(data, 8 * (|s.bytes| - 1 - index / 8 - p)), 8)
    ensures r == SetBits(s, index, data, num)
  {
    hide Shr, Trunc, Bit;
    SetBitsMeaning(s, index, data, num);
    var t := SetBits(s, index, data, num);
    forall i: nat | i < s.BitLen() ensures r.NthBitFromRight(i) == t.NthBitFromRight(i) {
      ByteInRange(s, index, num, i);
      if index <= i < index + num {
        BitOfByte(r, s, index, data, i);
      }
    }
    SameBits(r, t);
  }

  lemma ByteInRange(s: Instruction, index: nat, num: nat, i: nat)
    requires num % 8 == 0 && index % 8 == 0 && index + num <= s.BitLen() && i < s.BitLen()
    ensures index <= i < index + num <==> |s.bytes| - (index + num) / 8 <= s.ByteAt(i) < |s.bytes| - index / 8
  {
  }

  lemma BitOfByte(r: Instruction, s: Instruction, index: nat, data: nat, i: nat)
    requires index % 8 == 0 && index <= i < s.BitLen() && |r.bytes| == |s.bytes|
    requires r.bytes[s.ByteAt(i)] == Trunc(Shr(data, 8 * (|s.bytes| - 1 - index / 8 - s.ByteAt(i))), 8)
    ensures r.NthBitFromRight(i) == Bit(data, i - index)
  {
    hide Shr, Trunc, Bit;
    var n := i / 8 - index / 8;
    BitOfTrunc(Shr(data, 8 * n), 8, i % 8);
    BitOfShr(data, 8 * n, i % 8);
    assert 8 * n + i % 8 == i - index;
  }
}
