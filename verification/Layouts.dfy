/**
 What page tables mean, in plain numbers: entries are little-endian words, whose bits say where a page is, who may use
 it, and whether it was used. Every walk is given here exactly, with the marks it makes.
 */
module Layouts {
  import opened Bytes
  import opened PageTables

  // The little-endian number of size bytes at a.
  function Word(ram: seq<Byte>, a: nat, size: nat): nat
    requires a + size <= |ram|
    decreases size
  {
    if size == 0 then 0 else At(ram, a) + 256 * Word(ram, a + 1, size - 1)
  }

  // Whether the bit of that value is set.
  predicate Flag(v: nat, bit: nat) requires bit > 0 { v / bit % 2 == 1 }

  // A number below count, in multiples of unit.
  function Field(v: nat, unit: nat, count: nat): nat
    requires unit > 0 && count > 0
  {
    v / unit % count
  }

  function SetBit5(ram: seq<Byte>, a: nat): (r: seq<Byte>)
    requires a < |ram|
    ensures |r| == |ram|
  {
    if ram[a] / 32 % 2 == 1 then ram else ram[a := ram[a] + 32]
  }

  // ----- Walks, exactly

  // Bits 12 and up, of a PAE entry up to 51.
  function Base(u: nat, size: nat): nat {
    (if size == 4 then u / 0x1000 else Field(u, 0x1000, 0x100_0000_0000)) * 0x1000
  }

  // PAE has pages of 2 MiB. The page size extension has pages of 4 MiB, with bits 32 to 39 of the address in bits 13 to
  // 20 of the entry.
  function BigAddress(u: nat, size: nat, x: nat): nat {
    if size == 4 then u / 0x40_0000 * 0x40_0000 + Field(u, 0x2000, 256) * 0x1_0000_0000 + x % 0x40_0000
    else Field(u, 0x20_0000, 0x8000_0000) * 0x20_0000 + x % 0x20_0000
  }

  function Slot(x: nat, size: nat): nat { if size == 4 then x / 0x1000 % 1024 else x / 0x1000 % 512 }

  // What a walk finds in the entry at b of a table whose directory entry is u. Writing and user access take the flag of
  // both levels.
  function FromTable(ram: seq<Byte>, x: nat, u: nat, b: nat, size: nat, mark: bool): (Walk, seq<Byte>)
    requires size > 0
  {
    if b + size > |ram| then (Outside, ram)
    else
      var v := Word(ram, b, size);
      if !Flag(v, 1) then (Unmapped(Pte, b), ram)
      else
        (Mapped(Base(v, size) + x % 0x1000, Flag(u, 2) && Flag(v, 2), Flag(u, 4) && Flag(v, 4), Flag(v, 64),
                Flag(v, 256), false, b),
         if mark then SetBit5(ram, b) else ram)
  }

  // What it finds in the directory entry at a. The entry is marked before it is looked at any further.
  function FromDirectory(ram: seq<Byte>, x: nat, a: nat, size: nat, bigPages: bool, mark: bool): (Walk, seq<Byte>)
    requires size > 0
  {
    if a + size > |ram| then (Outside, ram)
    else
      var u := Word(ram, a, size);
      if !Flag(u, 1) then (Unmapped(Pde, a), ram)
      else
        var r := if mark then SetBit5(ram, a) else ram;
        if bigPages && Flag(u, 128) then
          (Mapped(BigAddress(u, size, x), Flag(u, 2), Flag(u, 4), Flag(u, 64), Flag(u, 256), true, a), r)
        else
          FromTable(r, x, u, Base(u, size) + Slot(x, size) * size, size, mark)
  }

  function Walk32(ram: seq<Byte>, base: nat, pse: bool, x: nat, mark: bool): (Walk, seq<Byte>) {
    FromDirectory(ram, x, base + x / 0x40_0000 * 4, 4, pse, mark)
  }

  // There is a pointer for each GiB, which is never marked, then there are tables of 512 entries.
  function WalkPae(ram: seq<Byte>, base: nat, x: nat, mark: bool): (Walk, seq<Byte>) {
    var p := base + x / 0x4000_0000 * 8;
    if p + 8 > |ram| then (Outside, ram)
    else if !Flag(Word(ram, p, 8), 1) then (Unmapped(Pdpe, p), ram)
    else FromDirectory(ram, x, Base(Word(ram, p, 8), 8) + x / 0x20_0000 % 512 * 8, 8, true, mark)
  }

  // ----- Entries

  lemma EvenAdd(q: nat, r: nat)
    ensures (q + 2 * r) % 2 == q % 2
  {
  }

  lemma {:induction false} AtLeastOnce(n: nat, k: nat)
    requires n >= 1
    ensures n * k >= k
  {
    if n > 1 { AtLeastOnce(n - 1, k); }
  }

  lemma SameQuotient(k: nat, d: nat, m: nat, q: nat, r: nat)
    requires m < k && r < k && d * k + m == q * k + r
    ensures d == q && m == r
  {
    if d < q {
      AtLeastOnce(q - d, k);
    } else if d > q {
      AtLeastOnce(d - q, k);
    }
  }

  lemma Quotient(v: nat, k: nat, q: nat, r: nat)
    requires r < k && v == q * k + r
    ensures v / k == q && v % k == r
  {
    SameQuotient(k, v / k, v % k, q, r);
  }

  // The flags of a word are those of its first byte, and the lowest one of its second.
  lemma Flag2(b: nat, rest: nat)
    ensures Flag(b + 256 * rest, 2) == Flag(b, 2)
  {
    Quotient(b + 256 * rest, 2, b / 2 + 128 * rest, b % 2);
    EvenAdd(b / 2, 64 * rest);
  }

  lemma Flag4(b: nat, rest: nat)
    ensures Flag(b + 256 * rest, 4) == Flag(b, 4)
  {
    Quotient(b + 256 * rest, 4, b / 4 + 64 * rest, b % 4);
    EvenAdd(b / 4, 32 * rest);
  }

  lemma Flag64(b: nat, rest: nat)
    ensures Flag(b + 256 * rest, 64) == Flag(b, 64)
  {
    Quotient(b + 256 * rest, 64, b / 64 + 4 * rest, b % 64);
    EvenAdd(b / 64, 2 * rest);
  }

  lemma Flag128(b: nat, rest: nat)
    ensures Flag(b + 256 * rest, 128) == Flag(b, 128)
  {
    Quotient(b + 256 * rest, 128, b / 128 + 2 * rest, b % 128);
    EvenAdd(b / 128, 1 * rest);
  }

  lemma Flag1(b: nat, rest: nat)
    ensures Flag(b + 256 * rest, 1) == Flag(b, 1)
  {
    EvenAdd(b, 128 * rest);
  }

  lemma Flag256(b: nat, rest: nat)
    requires b < 256
    ensures Flag(b + 256 * rest, 256) == Flag(rest, 1)
  {
    Quotient(b + 256 * rest, 256, rest, b);
  }

  lemma LowFlags(b: nat, rest: nat)
    ensures var v := b + 256 * rest;
            && Flag(v, 1) == Flag(b, 1) && Flag(v, 2) == Flag(b, 2) && Flag(v, 4) == Flag(b, 4)
            && Flag(v, 64) == Flag(b, 64) && Flag(v, 128) == Flag(b, 128)
  {
    hide Flag;
    Flag1(b, rest);
    Flag2(b, rest);
    Flag4(b, rest);
    Flag64(b, rest);
    Flag128(b, rest);
  }

  lemma FlagsOfByte(ram: seq<Byte>, a: nat)
    requires a < |ram|
    ensures (Present(ram, a) <==> Flag(At(ram, a), 1)) && (Writable(ram, a) <==> Flag(At(ram, a), 2))
    ensures (User(ram, a) <==> Flag(At(ram, a), 4)) && (Dirty(ram[a]) <==> Flag(At(ram, a), 64))
    ensures (BigPage(ram, a) <==> Flag(At(ram, a), 128)) && (ram[a] % 2 == 1 <==> Flag(At(ram, a), 1))
  {
  }

  lemma WordStep(ram: seq<Byte>, a: nat, size: nat)
    requires a + size <= |ram| && size > 0
    ensures Word(ram, a, size) == At(ram, a) + 256 * Word(ram, a + 1, size - 1)
  {
  }

  lemma Flags(ram: seq<Byte>, c: Paging, a: nat)
    requires InRam(ram, c, a)
    ensures var u := Word(ram, a, Width(c));
            && (Present(ram, a) <==> Flag(u, 1)) && (Writable(ram, a) <==> Flag(u, 2))
            && (User(ram, a) <==> Flag(u, 4)) && (Dirty(ram[a]) <==> Flag(u, 64))
            && (BigPage(ram, a) <==> Flag(u, 128)) && (ram[a + 1] % 2 == 1 <==> Flag(u, 256))
  {
    hide Word, Flag, Present, Writable, User, Dirty, BigPage;
    var rest := Word(ram, a + 1, Width(c) - 1);
    WordStep(ram, a, Width(c));
    WordStep(ram, a + 1, Width(c) - 1);
    FlagsOfByte(ram, a);
    FlagsOfByte(ram, a + 1);
    LowFlags(At(ram, a), rest);
    Flag256(At(ram, a), rest);
    Flag1(At(ram, a + 1), Word(ram, a + 2, Width(c) - 2));
  }

  lemma WordOfNothing(ram: seq<Byte>, a: nat)
    requires a <= |ram|
    ensures Word(ram, a, 0) == 0
  {
  }

  lemma Word4(ram: seq<Byte>, a: nat)
    requires a + 4 <= |ram|
    ensures Word(ram, a, 4) == At(ram, a) + 256 * (At(ram, a + 1) + 256 * (At(ram, a + 2) + 256 * At(ram, a + 3)))
  {
    hide Word;
    WordStep(ram, a, 4);
    WordStep(ram, a + 1, 3);
    WordStep(ram, a + 2, 2);
    WordStep(ram, a + 3, 1);
    WordOfNothing(ram, a + 4);
  }

  lemma Numbers32(b0: nat, b1: nat, b2: nat, b3: nat, x: nat)
    requires b0 < 256 && b1 < 256 && b2 < 256 && b3 < 256
    ensures var u := b0 + 256 * (b1 + 256 * (b2 + 256 * b3));
            && Base(u, 4) == b1 / 16 * 0x1000 + b2 * 0x1_0000 + b3 * 0x100_0000
            && BigAddress(u, 4, x) ==
                 b2 / 64 * 0x40_0000 + b3 * 0x100_0000 + (b1 / 32 + b2 % 32 * 8) * 0x1_0000_0000 + x % 0x40_0000
  {
    var u := b0 + 256 * (b1 + 256 * (b2 + 256 * b3));
    Quotient(u, 0x1000, b1 / 16 + 16 * b2 + 0x1000 * b3, b1 % 16 * 256 + b0);
    Quotient(u, 0x40_0000, b2 / 64 + 4 * b3, b2 % 64 * 0x1_0000 + b1 * 256 + b0);
    Quotient(u, 0x2000, b1 / 32 + 8 * b2 + 0x800 * b3, b1 % 32 * 256 + b0);
    Quotient(b1 / 32 + 8 * b2 + 0x800 * b3, 256, b2 / 32 + 8 * b3, b1 / 32 + 8 * (b2 % 32));
  }

  lemma Bases32(ram: seq<Byte>, c: Paging, a: nat, x: nat)
    requires !c.pae && InRam(ram, c, a)
    ensures var u := Word(ram, a, 4);
            TableBase(ram, c, a) == Base(u, 4) && BigBase(ram, c, a) + BigOffset(c, x) == BigAddress(u, 4, x)
  {
    hide Word, Base, BigAddress;
    Word4(ram, a);
    Numbers32(At(ram, a), At(ram, a + 1), At(ram, a + 2), At(ram, a + 3), x);
  }

  lemma SixteenOf(b: nat, rest: nat)
    ensures (b + 256 * rest) % 16 == b % 16
  {
    assert b + 256 * rest == 16 * (b / 16 + 16 * rest) + b % 16;
  }

  lemma Word8(ram: seq<Byte>, a: nat) returns (w6: nat)
    requires a + 8 <= |ram|
    ensures w6 % 16 == At(ram, a + 6) % 16
    ensures var w3 := At(ram, a + 3) + 256 * (At(ram, a + 4) + 256 * (At(ram, a + 5) + 256 * w6));
            Word(ram, a, 8) == At(ram, a) + 256 * (At(ram, a + 1) + 256 * (At(ram, a + 2) + 256 * w3))
  {
    hide Word;
    w6 := Word(ram, a + 6, 2);
    WordStep(ram, a, 8);
    WordStep(ram, a + 1, 7);
    WordStep(ram, a + 2, 6);
    WordStep(ram, a + 3, 5);
    WordStep(ram, a + 4, 4);
    WordStep(ram, a + 5, 3);
    WordStep(ram, a + 6, 2);
    SixteenOf(At(ram, a + 6), Word(ram, a + 7, 1));
  }

  lemma AboveFlags(b0: nat, b1: nat, b2: nat, w3: nat)
    requires b0 < 256 && b1 < 256 && b2 < 256
    ensures var u := b0 + 256 * (b1 + 256 * (b2 + 256 * w3));
            u / 0x1000 == b1 / 16 + 16 * b2 + 0x1000 * w3 && u / 0x20_0000 == b2 / 32 + 8 * w3
  {
    var u := b0 + 256 * (b1 + 256 * (b2 + 256 * w3));
    Quotient(u, 0x1000, b1 / 16 + 16 * b2 + 0x1000 * w3, b1 % 16 * 256 + b0);
    Quotient(u, 0x20_0000, b2 / 32 + 8 * w3, b2 % 32 * 0x1_0000 + b1 * 256 + b0);
  }

  // Bits 52 and up of an entry are ignored.
  lemma BelowBit52(b3: nat, b4: nat, b5: nat, w6: nat, low: nat, unit: nat)
    requires b3 < 256 && b4 < 256 && b5 < 256 && low < unit && (unit == 0x1000 || unit == 8)
    ensures (low + unit * (b3 + 256 * (b4 + 256 * (b5 + 256 * w6)))) % (unit * 0x1000_0000) ==
              low + unit * (b3 + 256 * b4 + 0x1_0000 * b5 + 0x100_0000 * (w6 % 16))
  {
    var v := b3 + 256 * b4 + 0x1_0000 * b5 + 0x100_0000 * (w6 % 16);
    assert b3 + 256 * (b4 + 256 * (b5 + 256 * w6)) == v + 0x1000_0000 * (w6 / 16);
    if unit == 8 {
      Quotient(low + 8 * (v + 0x1000_0000 * (w6 / 16)), 0x8000_0000, w6 / 16, low + 8 * v);
    } else {
      Quotient(low + 0x1000 * (v + 0x1000_0000 * (w6 / 16)), 0x100_0000_0000, w6 / 16, low + 0x1000 * v);
    }
  }

  lemma NumbersPae(b0: nat, b1: nat, b2: nat, b3: nat, b4: nat, b5: nat, w6: nat, x: nat)
    requires b0 < 256 && b1 < 256 && b2 < 256 && b3 < 256 && b4 < 256 && b5 < 256
    ensures var u := b0 + 256 * (b1 + 256 * (b2 + 256 * (b3 + 256 * (b4 + 256 * (b5 + 256 * w6)))));
            && Base(u, 8) == b1 / 16 * 0x1000 + b2 * 0x1_0000 + b3 * 0x100_0000 +
                             b4 * 0x1_0000_0000 + b5 * 0x100_0000_0000 + w6 % 16 * 0x1_0000_0000_0000
            && BigAddress(u, 8, x) == b2 / 32 * 0x20_0000 + b3 * 0x100_0000 + b4 * 0x1_0000_0000 +
                                      b5 * 0x100_0000_0000 + w6 % 16 * 0x1_0000_0000_0000 + x % 0x20_0000
  {
    AboveFlags(b0, b1, b2, b3 + 256 * (b4 + 256 * (b5 + 256 * w6)));
    BelowBit52(b3, b4, b5, w6, b1 / 16 + 16 * b2, 0x1000);
    BelowBit52(b3, b4, b5, w6, b2 / 32, 8);
  }

  lemma BasesPae(ram: seq<Byte>, c: Paging, a: nat, x: nat)
    requires c.pae && InRam(ram, c, a)
    ensures var u := Word(ram, a, 8);
            TableBase(ram, c, a) == Base(u, 8) && BigBase(ram, c, a) + BigOffset(c, x) == BigAddress(u, 8, x)
  {
    hide Word, Base, BigAddress;
    var w6 := Word8(ram, a);
    NumbersPae(At(ram, a), At(ram, a + 1), At(ram, a + 2), At(ram, a + 3), At(ram, a + 4), At(ram, a + 5), w6, x);
  }

  lemma Bases(ram: seq<Byte>, c: Paging, a: nat, x: nat)
    requires InRam(ram, c, a)
    ensures var u := Word(ram, a, Width(c));
            && TableBase(ram, c, a) == Base(u, Width(c))
            && BigBase(ram, c, a) + BigOffset(c, x) == BigAddress(u, Width(c), x)
  {
    hide Word, Base, BigAddress, TableBase, BigBase, BigOffset;
    if c.pae { BasesPae(ram, c, a, x); } else { Bases32(ram, c, a, x); }
  }

  // ----- The walk of the machine is the one above

  lemma AccessedIsBit5(ram: seq<Byte>, a: nat)
    requires a < |ram|
    ensures ram[a := SetAccessed(ram[a])] == SetBit5(ram, a)
  {
  }

  lemma SameRights(ram: seq<Byte>, r: seq<Byte>, a: nat)
    requires a < |ram| == |r| && (r[a] == ram[a] || r[a] == SetAccessed(ram[a]))
    ensures Writable(r, a) == Writable(ram, a) && User(r, a) == User(ram, a)
  {
    SettersKeepFlags(ram[a]);
  }

  lemma PteExactly(ram: seq<Byte>, c: Paging, x: nat, u: nat, a: nat, b: nat, mark: bool)
    requires InRam(ram, c, a) && Writable(ram, a) == Flag(u, 2) && User(ram, a) == Flag(u, 4)
    ensures WalkPte(ram, c, x, a, b, mark) == FromTable(ram, x, u, b, Width(c), mark)
  {
    hide Word, Flag, Base, TableBase, BigBase, BigOffset, BigAddress, Writable, User, Present, BigPage, Dirty;
    hide SetAccessed, SetBit5;
    if InRam(ram, c, b) {
      Flags(ram, c, b);
      AccessedIsBit5(ram, b);
      Bases(ram, c, b, x);
    }
  }

  lemma PdeExactly(ram: seq<Byte>, c: Paging, x: nat, a: nat, mark: bool)
    ensures WalkPde(ram, c, x, a, mark) == FromDirectory(ram, x, a, Width(c), c.pae || c.pse, mark)
  {
    hide Word, Flag, Base, TableBase, BigBase, BigOffset, BigAddress, Writable, User, Present, BigPage, Dirty;
    hide SetAccessed, SetBit5, WalkPte, FromTable, TranslatePte;
    if InRam(ram, c, a) {
      Flags(ram, c, a);
      AccessedIsBit5(ram, a);
      Bases(ram, c, a, x);
      var r := if mark then ram[a := SetAccessed(ram[a])] else ram;
      SameRights(ram, r, a);
      PteExactly(r, c, x, Word(ram, a, Width(c)), a, TableBase(ram, c, a) + PteIndex(c, x) * Width(c), mark);
    }
  }

  lemma WalkExactly32(ram: seq<Byte>, c: Paging, x: nat, mark: bool)
    requires !c.pae && x < 0x1_0000_0000
    ensures WalkTables(ram, c, x, mark) == Walk32(ram, c.base, c.pse, x, mark)
  {
    hide WalkPde, FromDirectory;
    assert PdeIndex(c, x) == x / 0x40_0000;
    PdeExactly(ram, c, x, c.base + x / 0x40_0000 * 4, mark);
  }

  lemma WalkExactlyPae(ram: seq<Byte>, c: Paging, x: nat, mark: bool)
    requires c.pae && x < 0x1_0000_0000
    ensures WalkTables(ram, c, x, mark) == WalkPae(ram, c.base, x, mark)
  {
    hide WalkPde, FromDirectory, Word, Flag, Base, TableBase, BigBase, BigAddress, Present, Writable, User, BigPage;
    hide BigOffset, Dirty;
    var p := c.base + x / 0x4000_0000 * 8;
    assert x / 0x4000_0000 % 4 == x / 0x4000_0000;
    if p + 8 <= |ram| {
      Flags(ram, c, p);
      Bases(ram, c, p, x);
      PdeExactly(ram, c, x, TableBase(ram, c, p) + x / 0x20_0000 % 512 * 8, mark);
    }
  }

  // Translation is what a walk that makes no mark finds, and such a walk changes nothing.
  lemma UnmarkedWalk(ram: seq<Byte>, c: Paging, x: nat)
    ensures WalkTables(ram, c, x, false) == (Translate(ram, c, x), ram)
  {
    hide TableBase, BigBase;
  }

  // ----- Tables that map a page

  // Through 32-bit tables, address x leads to table t with flags f, and there to frame n with flags g.
  ghost predicate Maps32(ram: seq<Byte>, c: Paging, x: nat, t: nat, f: nat, n: nat, g: nat) {
    var a, b := c.base + x / 0x40_0000 * 4, t * 0x1000 + x / 0x1000 % 1024 * 4;
    && !c.pae && x < 0x1_0000_0000 && f < 0x1000 && g < 0x1000
    && a + 4 <= |ram| && Word(ram, a, 4) == t * 0x1000 + f
    && b + 4 <= |ram| && Word(ram, b, 4) == n * 0x1000 + g
    && Flag(f, 1) && Flag(g, 1) && !(Flag(f, 128) && c.pse)
  }

  lemma Parts(n: nat, f: nat)
    requires f < 0x1000
    ensures var v := n * 0x1000 + f;
            && v / 0x1000 == n && Flag(v, 1) == Flag(f, 1) && Flag(v, 2) == Flag(f, 2) && Flag(v, 4) == Flag(f, 4)
            && Flag(v, 64) == Flag(f, 64) && Flag(v, 128) == Flag(f, 128) && Flag(v, 256) == Flag(f, 256)
  {
    assert n * 0x1000 + f == f + 256 * (16 * n);
    LowFlags(f, 16 * n);
    HighFlag(f, n);
    Quotient(n * 0x1000 + f, 0x1000, n, f);
  }

  lemma HighFlag(f: nat, n: nat)
    ensures Flag(f + 256 * (16 * n), 256) == Flag(f, 256)
  {
    Quotient(f + 256 * (16 * n), 256, f / 256 + 16 * n, f % 256);
    EvenAdd(f / 256, 8 * n);
  }

  // A page may be written, and used by user code, exactly if both levels say so.
  lemma SmallPage32(ram: seq<Byte>, c: Paging, x: nat, t: nat, f: nat, n: nat, g: nat)
    requires Maps32(ram, c, x, t, f, n, g)
    ensures Translate(ram, c, x) ==
              Mapped(n * 0x1000 + x % 0x1000, Flag(f, 2) && Flag(g, 2), Flag(f, 4) && Flag(g, 4), Flag(g, 64),
                     Flag(g, 256), false, t * 0x1000 + x / 0x1000 % 1024 * 4)
  {
    hide Word, Translate, WalkTables, Flag, SetBit5;
    WalkExactly32(ram, c, x, false);
    UnmarkedWalk(ram, c, x);
    Parts(t, f);
    Parts(n, g);
  }

  // A 4 MiB page n of the lower 4 GiB, and the h-th 4 GiB above it.
  lemma BigPage32(ram: seq<Byte>, c: Paging, x: nat, n: nat, h: nat, f: nat)
    requires !c.pae && c.pse && x < 0x1_0000_0000 && h < 256 && f < 0x1000
    requires Flag(f, 1) && Flag(f, 128)
    requires var a := c.base + x / 0x40_0000 * 4;
             a + 4 <= |ram| && Word(ram, a, 4) == n * 0x40_0000 + h * 0x2000 + f
    ensures Translate(ram, c, x) ==
              Mapped(h * 0x1_0000_0000 + n * 0x40_0000 + x % 0x40_0000, Flag(f, 2), Flag(f, 4), Flag(f, 64),
                     Flag(f, 256), true, c.base + x / 0x40_0000 * 4)
  {
    hide Word, Translate, WalkTables, Flag, SetBit5;
    WalkExactly32(ram, c, x, false);
    UnmarkedWalk(ram, c, x);
    Parts(n * 1024 + h * 2, f);
    BigParts(n, h, f);
  }

  lemma BigParts(n: nat, h: nat, f: nat)
    requires h < 256 && f < 0x1000
    ensures var v := n * 0x40_0000 + h * 0x2000 + f; v / 0x40_0000 == n && Field(v, 0x2000, 256) == h
  {
    var v := n * 0x40_0000 + h * 0x2000 + f;
    Quotient(v, 0x40_0000, n, h * 0x2000 + f);
    Quotient(v, 0x2000, n * 512 + h, f);
    Quotient(n * 512 + h, 256, 2 * n, h);
  }

  // A PAE entry. Bits 52 and up are ignored.
  ghost predicate HoldsPae(ram: seq<Byte>, a: nat, n: nat, f: nat) {
    && a + 8 <= |ram| && n < 0x100_0000_0000 && f < 0x1000 && Flag(f, 1)
    && Word(ram, a, 8) % 0x10_0000_0000_0000 == n * 0x1000 + f
  }

  // Through PAE tables, address x leads by directory d to table t with flags f, and there to frame n with flags g.
  ghost predicate MapsPae(ram: seq<Byte>, c: Paging, x: nat, d: nat, e: nat, t: nat, f: nat, n: nat, g: nat) {
    && c.pae && x < 0x1_0000_0000
    && HoldsPae(ram, c.base + x / 0x4000_0000 * 8, d, e)
    && HoldsPae(ram, d * 0x1000 + x / 0x20_0000 % 512 * 8, t, f) && !Flag(f, 128)
    && HoldsPae(ram, t * 0x1000 + x / 0x1000 % 512 * 8, n, g)
  }

  lemma PartsPae(ram: seq<Byte>, a: nat, n: nat, f: nat)
    requires HoldsPae(ram, a, n, f)
    ensures var v := Word(ram, a, 8);
            && Base(v, 8) == n * 0x1000 && Flag(v, 1) && Flag(v, 2) == Flag(f, 2) && Flag(v, 4) == Flag(f, 4)
            && Flag(v, 64) == Flag(f, 64) && Flag(v, 128) == Flag(f, 128) && Flag(v, 256) == Flag(f, 256)
  {
    hide Word;
    var high := Word(ram, a, 8) / 0x10_0000_0000_0000;
    Quotient(high * 0x100_0000_0000 + n, 0x100_0000_0000, high, n);
    Parts(high * 0x100_0000_0000 + n, f);
  }

  lemma SmallPagePae(ram: seq<Byte>, c: Paging, x: nat, d: nat, e: nat, t: nat, f: nat, n: nat, g: nat)
    requires MapsPae(ram, c, x, d, e, t, f, n, g)
    ensures Translate(ram, c, x) ==
              Mapped(n * 0x1000 + x % 0x1000, Flag(f, 2) && Flag(g, 2), Flag(f, 4) && Flag(g, 4), Flag(g, 64),
                     Flag(g, 256), false, t * 0x1000 + x / 0x1000 % 512 * 8)
  {
    hide Word, Translate, WalkTables, Base, Flag, Field, SetBit5;
    WalkExactlyPae(ram, c, x, false);
    UnmarkedWalk(ram, c, x);
    PartsPae(ram, c.base + x / 0x4000_0000 * 8, d, e);
    PartsPae(ram, d * 0x1000 + x / 0x20_0000 % 512 * 8, t, f);
    PartsPae(ram, t * 0x1000 + x / 0x1000 % 512 * 8, n, g);
  }

  // A 2 MiB page n.
  lemma BigPagePae(ram: seq<Byte>, c: Paging, x: nat, d: nat, e: nat, n: nat, f: nat)
    requires c.pae && x < 0x1_0000_0000
    requires HoldsPae(ram, c.base + x / 0x4000_0000 * 8, d, e)
    requires HoldsPae(ram, d * 0x1000 + x / 0x20_0000 % 512 * 8, n * 512, f) && Flag(f, 128)
    ensures Translate(ram, c, x) ==
              Mapped(n * 0x20_0000 + x % 0x20_0000, Flag(f, 2), Flag(f, 4), Flag(f, 64), Flag(f, 256), true,
                     d * 0x1000 + x / 0x20_0000 % 512 * 8)
  {
    hide Word, Translate, WalkTables, Base, Flag, Field, SetBit5;
    WalkExactlyPae(ram, c, x, false);
    UnmarkedWalk(ram, c, x);
    var a := d * 0x1000 + x / 0x20_0000 % 512 * 8;
    PartsPae(ram, c.base + x / 0x4000_0000 * 8, d, e);
    PartsPae(ram, a, n * 512, f);
    BigPartsPae(ram, a, n, f);
  }

  lemma BigPartsPae(ram: seq<Byte>, a: nat, n: nat, f: nat)
    requires HoldsPae(ram, a, n * 512, f)
    ensures Field(Word(ram, a, 8), 0x20_0000, 0x8000_0000) == n
  {
    hide Word;
    var high := Word(ram, a, 8) / 0x10_0000_0000_0000;
    Quotient(Word(ram, a, 8), 0x20_0000, high * 0x8000_0000 + n, f);
    Quotient(high * 0x8000_0000 + n, 0x8000_0000, high, n);
  }

  // ----- Such tables exist, for any page, frame and flags

  function Limit(size: nat): nat { if size == 0 then 1 else 256 * Limit(size - 1) }

  function WithWord(ram: seq<Byte>, a: nat, size: nat, v: nat): (r: seq<Byte>)
    requires a + size <= |ram|
    ensures |r| == |ram| && forall i :: 0 <= i < |ram| && !(a <= i < a + size) ==> r[i] == ram[i]
    decreases size
  {
    if size == 0 then ram else WithWord(ram[a := v % 256], a + 1, size - 1, v / 256)
  }

  lemma {:induction false} WordWritten(ram: seq<Byte>, a: nat, size: nat, v: nat)
    requires a + size <= |ram| && v < Limit(size)
    ensures Word(WithWord(ram, a, size, v), a, size) == v
    decreases size
  {
    if size > 0 {
      WordWritten(ram[a := v % 256], a + 1, size - 1, v / 256);
      assert WithWord(ram, a, size, v)[a] == v % 256;
    }
  }

  lemma {:induction false} WordKept(ram: seq<Byte>, ram': seq<Byte>, a: nat, size: nat)
    requires a + size <= |ram| == |ram'| && forall i :: a <= i < a + size ==> ram'[i] == ram[i]
    ensures Word(ram', a, size) == Word(ram, a, size)
    decreases size
  {
    if size > 0 { WordKept(ram, ram', a + 1, size - 1); }
  }

  lemma Limits()
    ensures Limit(4) == 0x1_0000_0000 && Limit(8) == 0x1_0000_0000_0000_0000
  {
    assert Limit(2) == 0x1_0000;
    assert Limit(4) == 0x1_0000_0000;
    assert Limit(6) == 0x1_0000_0000_0000;
  }

  predicate Apart(a: nat, b: nat, size: nat) { a + size <= b || b + size <= a }

  lemma AnyPage32(ram: seq<Byte>, c: Paging, x: nat, t: nat, f: nat, n: nat, g: nat)
    requires !c.pae && x < 0x1_0000_0000 && t < 0x10_0000 && n < 0x10_0000 && f < 0x1000 && g < 0x1000
    requires Flag(f, 1) && Flag(g, 1) && !(Flag(f, 128) && c.pse)
    requires var a, b := c.base + x / 0x40_0000 * 4, t * 0x1000 + x / 0x1000 % 1024 * 4;
             a + 4 <= |ram| && b + 4 <= |ram| && Apart(a, b, 4)
    ensures exists tables: seq<Byte> :: |tables| == |ram| && Maps32(tables, c, x, t, f, n, g)
  {
    hide Word, WithWord, Limit, Flag;
    Limits();
    var a, b := c.base + x / 0x40_0000 * 4, t * 0x1000 + x / 0x1000 % 1024 * 4;
    var one := WithWord(ram, a, 4, t * 0x1000 + f);
    var two := WithWord(one, b, 4, n * 0x1000 + g);
    WordWritten(ram, a, 4, t * 0x1000 + f);
    WordWritten(one, b, 4, n * 0x1000 + g);
    WordKept(one, two, a, 4);
    assert Maps32(two, c, x, t, f, n, g);
  }

  lemma AnyPagePae(ram: seq<Byte>, c: Paging, x: nat, d: nat, e: nat, t: nat, f: nat, n: nat, g: nat)
    requires c.pae && x < 0x1_0000_0000 && d < 0x100_0000_0000 && t < 0x100_0000_0000 && n < 0x100_0000_0000
    requires e < 0x1000 && f < 0x1000 && g < 0x1000 && Flag(e, 1) && Flag(f, 1) && Flag(g, 1) && !Flag(f, 128)
    requires var p, a := c.base + x / 0x4000_0000 * 8, d * 0x1000 + x / 0x20_0000 % 512 * 8;
             var b := t * 0x1000 + x / 0x1000 % 512 * 8;
             && p + 8 <= |ram| && a + 8 <= |ram| && b + 8 <= |ram|
             && Apart(p, a, 8) && Apart(p, b, 8) && Apart(a, b, 8)
    ensures exists tables: seq<Byte> :: |tables| == |ram| && MapsPae(tables, c, x, d, e, t, f, n, g)
  {
    hide Word, WithWord, Limit, Flag, HoldsPae;
    var p, a := c.base + x / 0x4000_0000 * 8, d * 0x1000 + x / 0x20_0000 % 512 * 8;
    var b := t * 0x1000 + x / 0x1000 % 512 * 8;
    var one := HoldsWritten(ram, p, d, e);
    var two := HoldsWritten(one, a, t, f);
    var three := HoldsWritten(two, b, n, g);
    HoldsKept(one, two, p, d, e);
    HoldsKept(two, three, p, d, e);
    HoldsKept(two, three, a, t, f);
    assert MapsPae(three, c, x, d, e, t, f, n, g);
  }

  lemma HoldsWritten(ram: seq<Byte>, a: nat, n: nat, f: nat) returns (r: seq<Byte>)
    requires a + 8 <= |ram| && n < 0x100_0000_0000 && f < 0x1000 && Flag(f, 1)
    ensures |r| == |ram| && HoldsPae(r, a, n, f)
    ensures forall i :: 0 <= i < |ram| && !(a <= i < a + 8) ==> r[i] == ram[i]
  {
    hide Word, WithWord, Limit, Flag;
    Limits();
    r := WithWord(ram, a, 8, n * 0x1000 + f);
    WordWritten(ram, a, 8, n * 0x1000 + f);
  }

  lemma HoldsKept(ram: seq<Byte>, r: seq<Byte>, a: nat, n: nat, f: nat)
    requires HoldsPae(ram, a, n, f) && |r| == |ram| && forall i :: a <= i < a + 8 ==> r[i] == ram[i]
    ensures HoldsPae(r, a, n, f)
  {
    hide Word;
    WordKept(ram, r, a, 8);
  }

  // ----- The marks that a walk makes

  ghost predicate Bit5(ram: seq<Byte>, a: nat) { a < |ram| && ram[a] / 32 % 2 == 1 }

  // Only the accessed bits of the entries at a and b were set.
  ghost predicate OnlyBit5(ram: seq<Byte>, ram': seq<Byte>, a: nat, b: nat) {
    && |ram'| == |ram|
    && forall i: nat :: i < |ram| && ram'[i] != ram[i] ==> (i == a || i == b) && Bit5(ram', i)
  }

  lemma SetBit5Marks(ram: seq<Byte>, a: nat)
    requires a < |ram|
    ensures Bit5(SetBit5(ram, a), a) && OnlyBit5(ram, SetBit5(ram, a), a, a)
  {
  }

  lemma MarksConcat(ram: seq<Byte>, r: seq<Byte>, ram': seq<Byte>, a: nat, b: nat)
    requires OnlyBit5(ram, r, a, a) && OnlyBit5(r, ram', b, b) && Bit5(r, a)
    ensures OnlyBit5(ram, ram', a, b) && Bit5(ram', a)
  {
    forall i: nat | i < |ram| && ram'[i] != ram[i] ensures (i == a || i == b) && Bit5(ram', i) {
      if ram'[i] == r[i] { assert r[i] != ram[i]; }
    }
  }

  // Where the directory entry for x is, if there is one.
  function DirectoryEntry(ram: seq<Byte>, c: Paging, x: nat): (a: nat) {
    if !c.pae then c.base + x / 0x40_0000 * 4
    else
      var p := c.base + x / 0x4000_0000 * 8;
      if p + 8 > |ram| || !Flag(Word(ram, p, 8), 1) then |ram|
      else Base(Word(ram, p, 8), 8) + x / 0x20_0000 % 512 * 8
  }

  lemma DirectoryMarks(ram: seq<Byte>, x: nat, a: nat, size: nat, bigPages: bool)
    requires size > 0
    ensures var (w, ram') := FromDirectory(ram, x, a, size, bigPages, true);
            && (a + size <= |ram| && Flag(Word(ram, a, size), 1) ==> Bit5(ram', a))
            && (w.Mapped? ==> a + size <= |ram| && Flag(Word(ram, a, size), 1) && Bit5(ram', w.leaf))
            && OnlyBit5(ram, ram', a, if w.Mapped? then w.leaf else a)
  {
    hide Word, Flag, Base, BigAddress, Slot, SetBit5, Bit5, OnlyBit5;
    if a + size <= |ram| && Flag(Word(ram, a, size), 1) {
      SetBit5Marks(ram, a);
      var r, w := SetBit5(ram, a), FromDirectory(ram, x, a, size, bigPages, true).0;
      if w.Mapped? && !w.big {
        SetBit5Marks(r, w.leaf);
        MarksConcat(ram, r, SetBit5(r, w.leaf), a, w.leaf);
      }
    } else {
      NothingMarked(ram, a);
    }
  }

  lemma NothingMarked(ram: seq<Byte>, a: nat)
    ensures OnlyBit5(ram, ram, a, a)
  {
  }

  // A marking walk sets the accessed bit of the directory entry that it meets and of the leaf that it finds, small page
  // or big, and changes nothing else; one that stops at the table has marked the directory entry.
  lemma WalkMarks(ram: seq<Byte>, c: Paging, x: nat)
    requires x < 0x1_0000_0000
    ensures var (w, ram') := WalkTables(ram, c, x, true);
            var a := DirectoryEntry(ram, c, x);
            && (a + Width(c) <= |ram| && Word(ram, a, Width(c)) % 2 == 1 ==> Bit5(ram', a))
            && (w.Mapped? ==> Bit5(ram', a) && Bit5(ram', w.leaf))
            && OnlyBit5(ram, ram', a, if w.Mapped? then w.leaf else a)
  {
    hide Word, WalkTables, Base, FromDirectory, OnlyBit5, Bit5;
    NothingMarked(ram, DirectoryEntry(ram, c, x));
    var a := DirectoryEntry(ram, c, x);
    DirectoryMarks(ram, x, a, Width(c), c.pae || c.pse);
    if c.pae { WalkExactlyPae(ram, c, x, true); } else { WalkExactly32(ram, c, x, true); }
  }
}
