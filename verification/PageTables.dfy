/**
 Page tables in RAM, read byte by byte: the layouts of 32-bit and PAE entries, the translation they
 define, and the accessed and dirty bits that a walk writes back into them.
 */
module PageTables {

  import opened Bytes

  // The control-register state a walk depends on. base is CR3 as it was written, pse the page size extension.
  datatype Paging = Paging(base: nat, pse: bool, pae: bool)

  datatype Level = Pdpe | Pde | Pte

  // What a walk finds. Outside: an entry lies beyond RAM, which the host cannot read.
  datatype Walk =
    | Outside
    | Unmapped(level: Level, entry: nat)
    | Mapped(addr: nat, writable: bool, user: bool, dirty: bool, global: bool, big: bool, leaf: nat)

  // ----- Entry layouts: the first byte holds the flags, the following ones the base address

  predicate Present(ram: seq<Byte>, a: nat) requires a < |ram| { ram[a] % 2 == 1 }
  predicate Writable(ram: seq<Byte>, a: nat) requires a < |ram| { ram[a] / 2 % 2 == 1 }
  predicate User(ram: seq<Byte>, a: nat) requires a < |ram| { ram[a] / 4 % 2 == 1 }
  predicate Accessed(b: Byte) { b / 32 % 2 == 1 }
  predicate Dirty(b: Byte) { b / 64 % 2 == 1 }
  predicate BigPage(ram: seq<Byte>, a: nat) requires a < |ram| { ram[a] / 128 == 1 }

  function Width(c: Paging): nat { if c.pae then 8 else 4 }

  predicate InRam(ram: seq<Byte>, c: Paging, a: nat) { a + Width(c) <= |ram| }

  function At(ram: seq<Byte>, a: nat): int requires a < |ram| { ram[a] }

  // Bits 12 to 31, or 12 to 51 of a PAE entry.
  function TableBase(ram: seq<Byte>, c: Paging, a: nat): nat
    requires InRam(ram, c, a)
  {
    At(ram, a + 1) / 16 * 0x1000 + At(ram, a + 2) * 0x1_0000 + At(ram, a + 3) * 0x100_0000 +
    if c.pae then
      At(ram, a + 4) * 0x1_0000_0000 + At(ram, a + 5) * 0x100_0000_0000 + At(ram, a + 6) % 16 * 0x1_0000_0000_0000
    else 0
  }

  // A 2 MiB page starts at bit 21; a 4 MiB page has address bits 22 to 31 in place and bits 32 to 39 at 13 to 20.
  function BigBase(ram: seq<Byte>, c: Paging, a: nat): nat
    requires InRam(ram, c, a)
  {
    if c.pae then
      At(ram, a + 2) / 32 * 0x20_0000 + At(ram, a + 3) * 0x100_0000 + At(ram, a + 4) * 0x1_0000_0000 +
      At(ram, a + 5) * 0x100_0000_0000 + At(ram, a + 6) % 16 * 0x1_0000_0000_0000
    else
      At(ram, a + 2) / 64 * 0x40_0000 + At(ram, a + 3) * 0x100_0000 +
      (At(ram, a + 1) / 32 + At(ram, a + 2) % 32 * 8) * 0x1_0000_0000
  }

  function SetAccessed(b: Byte): Byte { if Accessed(b) then b else b + 32 }
  function SetDirty(b: Byte): Byte { if Dirty(b) then b else b + 64 }

  // ----- Translation, which changes nothing

  function PdeIndex(c: Paging, x: nat): nat { if c.pae then x / 0x20_0000 % 512 else x / 0x40_0000 % 1024 }
  function PteIndex(c: Paging, x: nat): nat { if c.pae then x / 0x1000 % 512 else x / 0x1000 % 1024 }
  function BigOffset(c: Paging, x: nat): nat { if c.pae then x % 0x20_0000 else x % 0x40_0000 }
  predicate IsBig(ram: seq<Byte>, c: Paging, a: nat) requires a < |ram| { BigPage(ram, a) && (c.pae || c.pse) }

  function Translate(ram: seq<Byte>, c: Paging, x: nat): (w: Walk)
    ensures w.Mapped? ==> InRam(ram, c, w.leaf) && (w.dirty <==> Dirty(ram[w.leaf]))
  {
    if c.pae then
      var pdpe := c.base + x / 0x4000_0000 % 4 * 8;
      if !InRam(ram, c, pdpe) then Outside
      else if !Present(ram, pdpe) then Unmapped(Pdpe, pdpe)
      else TranslatePde(ram, c, x, TableBase(ram, c, pdpe) + PdeIndex(c, x) * 8)
    else
      TranslatePde(ram, c, x, c.base + PdeIndex(c, x) * 4)
  }

  function TranslatePde(ram: seq<Byte>, c: Paging, x: nat, pde: nat): (w: Walk)
    ensures w.Mapped? ==> InRam(ram, c, w.leaf) && (w.dirty <==> Dirty(ram[w.leaf]))
  {
    if !InRam(ram, c, pde) then Outside
    else if !Present(ram, pde) then Unmapped(Pde, pde)
    else if IsBig(ram, c, pde) then
      Mapped(BigBase(ram, c, pde) + BigOffset(c, x), Writable(ram, pde), User(ram, pde), Dirty(ram[pde]),
             ram[pde + 1] % 2 == 1, true, pde)
    else
      TranslatePte(ram, c, x, pde, TableBase(ram, c, pde) + PteIndex(c, x) * Width(c))
  }

  function TranslatePte(ram: seq<Byte>, c: Paging, x: nat, pde: nat, pte: nat): (w: Walk)
    requires InRam(ram, c, pde)
    ensures w.Mapped? ==> InRam(ram, c, w.leaf) && (w.dirty <==> Dirty(ram[w.leaf]))
  {
    if !InRam(ram, c, pte) then Outside
    else if !Present(ram, pte) then Unmapped(Pte, pte)
    else
      Mapped(TableBase(ram, c, pte) + x % 0x1000, Writable(ram, pde) && Writable(ram, pte),
             User(ram, pde) && User(ram, pte), Dirty(ram[pte]), ram[pte + 1] % 2 == 1, false, pte)
  }

  // ----- The walk as the machine performs it: accessed bits are written as it goes, and later reads see them

  function WalkPde(ram: seq<Byte>, c: Paging, x: nat, pde: nat, mark: bool): (r: (Walk, seq<Byte>))
    ensures |r.1| == |ram| && (r.0.Mapped? ==> InRam(ram, c, r.0.leaf))
  {
    if !InRam(ram, c, pde) then (Outside, ram)
    else if !Present(ram, pde) then (Unmapped(Pde, pde), ram)
    else
      var ram' := if mark then ram[pde := SetAccessed(ram[pde])] else ram;
      if IsBig(ram, c, pde) then (TranslatePde(ram, c, x, pde), ram')
      else
        var pte := TableBase(ram, c, pde) + PteIndex(c, x) * Width(c);
        WalkPte(ram', c, x, pde, pte, mark)
  }

  function WalkPte(ram: seq<Byte>, c: Paging, x: nat, pde: nat, pte: nat, mark: bool): (r: (Walk, seq<Byte>))
    requires InRam(ram, c, pde)
    ensures |r.1| == |ram| && (r.0.Mapped? ==> InRam(ram, c, r.0.leaf))
  {
    var w := TranslatePte(ram, c, x, pde, pte);
    (w, if mark && w.Mapped? then ram[pte := SetAccessed(ram[pte])] else ram)
  }

  function WalkTables(ram: seq<Byte>, c: Paging, x: nat, mark: bool): (r: (Walk, seq<Byte>))
    ensures |r.1| == |ram| && (r.0.Mapped? ==> InRam(ram, c, r.0.leaf))
  {
    if c.pae then
      var pdpe := c.base + x / 0x4000_0000 % 4 * 8;
      if !InRam(ram, c, pdpe) then (Outside, ram)
      else if !Present(ram, pdpe) then (Unmapped(Pdpe, pdpe), ram)
      else WalkPde(ram, c, x, TableBase(ram, c, pdpe) + PdeIndex(c, x) * 8, mark)
    else
      WalkPde(ram, c, x, c.base + PdeIndex(c, x) * 4, mark)
  }

  function MarkDirty(ram: seq<Byte>, leaf: nat): seq<Byte>
    requires leaf < |ram|
  {
    ram[leaf := SetDirty(ram[leaf])]
  }

  // ----- Accessed and dirty bits are transparent

  // A base at which no accessed or dirty bit of one entry is a meaningful bit of another. Only page directory
  // pointers, which are never marked, can lie off the grid of PAE entries.
  predicate Aligned(c: Paging) {
    if c.pae then c.base % 8 <= 4 else c.base % 4 == 0
  }

  // b' is b with the accessed or the dirty bit possibly set.
  predicate SameFlags(b: Byte, b': Byte) {
    && b % 2 == b' % 2 && b / 2 % 2 == b' / 2 % 2 && b / 4 % 2 == b' / 4 % 2
    && b / 8 % 2 == b' / 8 % 2 && b / 16 % 2 == b' / 16 % 2 && b / 128 == b' / 128
    && (Accessed(b) ==> Accessed(b')) && (Dirty(b) ==> Dirty(b'))
  }

  // Only the first byte of a present entry is ever marked.
  predicate SameByte(c: Paging, a: nat, b: Byte, b': Byte) {
    b == b' || (a % Width(c) == 0 && SameFlags(b, b') && b % 2 == 1)
  }

  ghost predicate SameButMarks(c: Paging, ram: seq<Byte>, ram': seq<Byte>) {
    |ram'| == |ram| && forall a: nat :: a < |ram| ==> SameByte(c, a, ram[a], ram'[a])
  }

  // The walks agree on everything but the dirty flag they report.
  predicate SameWalk(w: Walk, w': Walk) {
    w == w' || (w.Mapped? && w'.Mapped? && w == w'.(dirty := w.dirty))
  }

  lemma OffGrid(c: Paging, ram: seq<Byte>, ram': seq<Byte>, a: nat, k: nat)
    requires SameButMarks(c, ram, ram') && a % Width(c) == 0 && 1 <= k < Width(c) && a + k < |ram|
    ensures At(ram', a + k) == At(ram, a + k)
  {
    assert (a + k) % Width(c) == k;
    assert SameByte(c, a + k, ram[a + k], ram'[a + k]);
  }

  // An entry on the grid of marks means the same in both memories.
  lemma SameEntry(c: Paging, ram: seq<Byte>, ram': seq<Byte>, a: nat)
    requires SameButMarks(c, ram, ram') && InRam(ram, c, a) && a % Width(c) == 0
    ensures Present(ram', a) == Present(ram, a) && Writable(ram', a) == Writable(ram, a)
    ensures User(ram', a) == User(ram, a) && BigPage(ram', a) == BigPage(ram, a)
    ensures TableBase(ram', c, a) == TableBase(ram, c, a) && BigBase(ram', c, a) == BigBase(ram, c, a)
    ensures ram'[a + 1] == ram[a + 1]
  {
    assert SameByte(c, a, ram[a], ram'[a]);
    OffGrid(c, ram, ram', a, 1);
    OffGrid(c, ram, ram', a, 2);
    OffGrid(c, ram, ram', a, 3);
    if c.pae {
      OffGrid(c, ram, ram', a, 4);
      OffGrid(c, ram, ram', a, 5);
      OffGrid(c, ram, ram', a, 6);
    }
  }

  lemma SameTranslatePte(c: Paging, ram: seq<Byte>, ram': seq<Byte>, x: nat, pde: nat, pte: nat)
    requires SameButMarks(c, ram, ram') && InRam(ram, c, pde) && pde % Width(c) == 0 && pte % Width(c) == 0
    ensures SameWalk(TranslatePte(ram, c, x, pde, pte), TranslatePte(ram', c, x, pde, pte))
  {
    hide TableBase, BigBase;
    SameEntry(c, ram, ram', pde);
    if InRam(ram, c, pte) {
      SameEntry(c, ram, ram', pte);
    }
  }

  lemma SameTranslatePde(c: Paging, ram: seq<Byte>, ram': seq<Byte>, x: nat, pde: nat)
    requires SameButMarks(c, ram, ram') && pde % Width(c) == 0
    ensures SameWalk(TranslatePde(ram, c, x, pde), TranslatePde(ram', c, x, pde))
  {
    hide TableBase, BigBase, TranslatePte;
    if InRam(ram, c, pde) {
      SameEntry(c, ram, ram', pde);
      AlignedSlot(ram, c, pde, PteIndex(c, x));
      SameTranslatePte(c, ram, ram', x, pde, TableBase(ram, c, pde) + PteIndex(c, x) * Width(c));
    }
  }

  // Tables start on a page, so their entries lie on the grid.
  lemma AlignedSlot(ram: seq<Byte>, c: Paging, a: nat, k: nat)
    requires InRam(ram, c, a)
    ensures (TableBase(ram, c, a) + k * Width(c)) % Width(c) == 0
  {
    TablesStartOnPages(ram, c, a);
    var base := TableBase(ram, c, a);
    hide TableBase;
    if c.pae { SlotOnGrid(base, k, 8); } else { SlotOnGrid(base, k, 4); }
  }

  lemma SlotOnGrid(base: nat, k: nat, width: nat)
    requires base % 0x1000 == 0 && (width == 4 || width == 8)
    ensures (base + k * width) % width == 0
  {
    var page := base / 0x1000;
    if width == 4 {
      assert base + k * 4 == (page * 0x400 + k) * 4;
    } else {
      assert base + k * 8 == (page * 0x200 + k) * 8;
    }
  }

  lemma MarksAreTransparent(c: Paging, ram: seq<Byte>, ram': seq<Byte>, x: nat)
    requires Aligned(c) && |ram| <= MAX_RAM && SameButMarks(c, ram, ram')
    ensures SameWalk(Translate(ram, c, x), Translate(ram', c, x))
  {
    hide TranslatePde, TableBase;
    if c.pae {
      GridStep(c.base, x / 0x4000_0000 % 4);
      SameTranslatePae(c, ram, ram', x, c.base + x / 0x4000_0000 % 4 * 8);
    } else {
      GridStep(c.base, PdeIndex(c, x));
      hide PdeIndex;
      SameTranslatePde(c, ram, ram', x, c.base + PdeIndex(c, x) * 4);
    }
  }

  lemma GridStep(base: nat, k: nat)
    ensures (base + k * 8) % 8 == base % 8 && (base + k * 4) % 4 == base % 4
  {
    assert base + k * 8 == (base / 8 + k) * 8 + base % 8;
    assert base + k * 4 == (base / 4 + k) * 4 + base % 4;
  }

  lemma SameTranslatePae(c: Paging, ram: seq<Byte>, ram': seq<Byte>, x: nat, pdpe: nat)
    requires c.pae && pdpe % 8 <= 4 && |ram| <= MAX_RAM && SameButMarks(c, ram, ram')
    requires pdpe == c.base + x / 0x4000_0000 % 4 * 8
    ensures SameWalk(Translate(ram, c, x), Translate(ram', c, x))
  {
    hide TranslatePde, TableBase;
    if InRam(ram, c, pdpe) {
      SamePdpe(c, ram, ram', pdpe);
      AlignedSlot(ram, c, pdpe, PdeIndex(c, x));
      SameTranslatePde(c, ram, ram', x, TableBase(ram, c, pdpe) + PdeIndex(c, x) * 8);
      BeyondRam(c, ram, x, TableBase(ram, c, pdpe) + PdeIndex(c, x) * 8);
      BeyondRam(c, ram', x, TableBase(ram', c, pdpe) + PdeIndex(c, x) * 8);
    }
  }

  lemma BeyondRam(c: Paging, ram: seq<Byte>, x: nat, pde: nat)
    ensures |ram| <= pde ==> TranslatePde(ram, c, x, pde) == Outside
  {
  }

  // Of a page directory pointer only the present bit and bits 12 to 51 matter, so it may start up to two bytes off
  // the grid. Three or four bytes off, a mark in it shows that it points beyond RAM.
  lemma SamePdpe(c: Paging, ram: seq<Byte>, ram': seq<Byte>, a: nat)
    requires c.pae && a % 8 <= 4 && SameButMarks(c, ram, ram') && InRam(ram, c, a)
    ensures Present(ram', a) == Present(ram, a)
    ensures || TableBase(ram', c, a) == TableBase(ram, c, a)
            || (TableBase(ram', c, a) >= MAX_RAM && TableBase(ram, c, a) >= MAX_RAM)
  {
    hide TableBase;
    assert SameByte(c, a, ram[a], ram'[a]);
    hide SameFlags, SameButMarks;
    NearGrid(c, ram, ram', a, 1);
    NearGrid(c, ram, ram', a, 2);
    NearGrid(c, ram, ram', a, 3);
    if a % 8 <= 2 {
      NearGrid(c, ram, ram', a, 4);
      NearGrid(c, ram, ram', a, 5);
      ByteOf(c, ram, ram', a + 6);
      LowNibble(ram[a + 6], ram'[a + 6]);
      SameBase(c, ram, ram', a);
    } else if a % 8 == 3 {
      FarPdpe(c, ram, ram', a, a + 5);
    } else {
      FarPdpe(c, ram, ram', a, a + 4);
    }
  }

  lemma ByteOf(c: Paging, ram: seq<Byte>, ram': seq<Byte>, a: nat)
    requires SameButMarks(c, ram, ram') && a < |ram|
    ensures SameByte(c, a, ram[a], ram'[a])
  {
  }

  lemma SameBase(c: Paging, ram: seq<Byte>, ram': seq<Byte>, a: nat)
    requires c.pae && InRam(ram, c, a) && InRam(ram', c, a)
    requires ram'[a + 1] == ram[a + 1] && ram'[a + 2] == ram[a + 2] && ram'[a + 3] == ram[a + 3]
    requires ram'[a + 4] == ram[a + 4] && ram'[a + 5] == ram[a + 5] && At(ram', a + 6) % 16 == At(ram, a + 6) % 16
    ensures TableBase(ram', c, a) == TableBase(ram, c, a)
  {
  }

  lemma HighBase(c: Paging, ram: seq<Byte>, a: nat)
    requires c.pae && InRam(ram, c, a) && (ram[a + 4] >= 1 || ram[a + 5] >= 1)
    ensures TableBase(ram, c, a) >= MAX_RAM
  {
  }

  // Byte i of the pointer is the first of the next entry.
  lemma FarPdpe(c: Paging, ram: seq<Byte>, ram': seq<Byte>, a: nat, i: nat)
    requires c.pae && SameButMarks(c, ram, ram') && InRam(ram, c, a) && a + 4 <= i < a + 6 && i % 8 == 0
    requires ram'[a + 1] == ram[a + 1] && ram'[a + 2] == ram[a + 2] && ram'[a + 3] == ram[a + 3]
    ensures || TableBase(ram', c, a) == TableBase(ram, c, a)
            || (TableBase(ram', c, a) >= MAX_RAM && TableBase(ram, c, a) >= MAX_RAM)
  {
    hide TableBase, SameFlags;
    ByteOf(c, ram, ram', a + 4);
    ByteOf(c, ram, ram', a + 5);
    ByteOf(c, ram, ram', a + 6);
    hide SameButMarks;
    if ram[i] == ram'[i] {
      assert (i + 1) % 8 != 0 && (i + 2) % 8 != 0 && (i - 1) % 8 != 0;
      SameBase(c, ram, ram', a);
    } else {
      SameLowBit(ram[i], ram'[i]);
      HighBase(c, ram, a);
      HighBase(c, ram', a);
    }
  }

  lemma SameLowBit(b: Byte, b': Byte)
    requires SameFlags(b, b') && b % 2 == 1
    ensures b >= 1 && b' >= 1
  {
  }

  lemma NearGrid(c: Paging, ram: seq<Byte>, ram': seq<Byte>, a: nat, k: nat)
    requires c.pae && SameButMarks(c, ram, ram') && 1 <= k && a % 8 + k < 8 && a + k < |ram|
    ensures ram'[a + k] == ram[a + k]
  {
    assert (a + k) % 8 == a % 8 + k;
    assert SameByte(c, a + k, ram[a + k], ram'[a + k]);
  }

  lemma LowNibble(b: Byte, b': Byte)
    ensures b == b' || SameFlags(b, b') ==> (b as int) % 16 == (b' as int) % 16
  {
    Nibble(b);
    Nibble(b');
  }

  lemma Nibble(v: int)
    requires v >= 0
    ensures v % 16 == v % 2 + 2 * (v / 2 % 2) + 4 * (v / 4 % 2) + 8 * (v / 8 % 2)
  {
    var h := v / 2;
    var q := h / 2;
    assert v / 4 == q && v / 8 == q / 2;
  }

  lemma SameButMarksTrans(c: Paging, r0: seq<Byte>, r1: seq<Byte>, r2: seq<Byte>)
    requires SameButMarks(c, r0, r1) && SameButMarks(c, r1, r2)
    ensures SameButMarks(c, r0, r2)
  {
  }

  // Halving twice an even multiple of 2 * n leaves the bits below n alone.
  lemma Halve(n: int, u: int, r: int)
    requires r >= 0 && u >= 0 && n >= 0
    ensures (2 * n * u + r) / 2 == n * u + r / 2 && (2 * n * u + r) % 2 == r % 2
  {
  }

  // A byte by its bits 7, 6 and 5 and the five below them.
  lemma Split(h: int, d: int, a: int, r: int)
    requires 0 <= h < 2 && 0 <= d < 2 && 0 <= a < 2 && 0 <= r < 32
    ensures var v := 128 * h + 64 * d + 32 * a + r;
            && v % 2 == r % 2 && v / 2 % 2 == r / 2 % 2 && v / 4 % 2 == r / 4 % 2 && v / 8 % 2 == r / 8 % 2
            && v / 16 % 2 == r / 16 % 2 && v / 32 % 2 == a && v / 64 % 2 == d && v / 128 == h
  {
    var u, v := 4 * h + 2 * d + a, 128 * h + 64 * d + 32 * a + r;
    assert v == 32 * u + r;
    SplitLow(u, r);
    SplitHigh(h, d, a);
    assert v / 32 == u;
    assert v / 64 == u / 2 && v / 128 == u / 4;
  }

  lemma SplitLow(u: int, r: int)
    requires 0 <= u && 0 <= r < 32
    ensures var v := 32 * u + r;
            && v % 2 == r % 2 && v / 2 % 2 == r / 2 % 2 && v / 4 % 2 == r / 4 % 2 && v / 8 % 2 == r / 8 % 2
            && v / 16 % 2 == r / 16 % 2
  {
    var v := 32 * u + r;
    Halve(16, u, r);
    Halve(8, u, r / 2);
    Halve(4, u, r / 4);
    Halve(2, u, r / 8);
    Halve(1, u, r / 16);
    assert r / 2 / 2 == r / 4 && r / 4 / 2 == r / 8 && r / 8 / 2 == r / 16;
    assert v / 2 / 2 == v / 4 && v / 4 / 2 == v / 8 && v / 8 / 2 == v / 16;
  }

  lemma SplitHigh(h: int, d: int, a: int)
    requires 0 <= h < 2 && 0 <= d < 2 && 0 <= a < 2
    ensures var u := 4 * h + 2 * d + a; u % 2 == a && u / 2 % 2 == d && u / 4 == h
  {
  }

  lemma SettersKeepFlags(b: Byte)
    ensures SameFlags(b, SetAccessed(b)) && SameFlags(b, SetDirty(b))
    ensures Accessed(SetAccessed(b)) && Dirty(SetDirty(b))
    ensures Dirty(SetAccessed(b)) == Dirty(b) && Accessed(SetDirty(b)) == Accessed(b)
  {
    var h, d, a, r := (b as int) / 128, (b as int) / 64 % 2, (b as int) / 32 % 2, (b as int) % 32;
    assert b == 128 * h + 64 * d + 32 * a + r;
    Split(h, d, a, r);
    Split(h, d, 1, r);
    Split(h, 1, a, r);
  }

  lemma OneMark(c: Paging, ram: seq<Byte>, a: nat)
    requires a < |ram| && a % Width(c) == 0 && Present(ram, a)
    ensures SameButMarks(c, ram, ram[a := SetAccessed(ram[a])])
    ensures SameButMarks(c, ram, MarkDirty(ram, a))
  {
    hide SetAccessed, SetDirty, SameFlags;
    SettersKeepFlags(ram[a]);
    forall i: nat | i < |ram| && i != a ensures SameByte(c, i, ram[i], ram[i]) { SameFlagsRefl(ram[i]); }
  }

  lemma SameFlagsRefl(b: Byte)
    ensures SameFlags(b, b)
  {
  }

  // ----- A walk finds what translation says, and writes nothing but marks

  lemma WalkPdeMarks(c: Paging, ram: seq<Byte>, x: nat, pde: nat, mark: bool)
    requires pde % Width(c) == 0
    ensures WalkPde(ram, c, x, pde, mark).0 == TranslatePde(ram, c, x, pde)
    ensures SameButMarks(c, ram, WalkPde(ram, c, x, pde, mark).1)
  {
    hide TableBase, BigBase, SetAccessed, SameButMarks;
    SameButMarksRefl(c, ram);
    if InRam(ram, c, pde) && Present(ram, pde) && mark {
      var ram' := ram[pde := SetAccessed(ram[pde])];
      OneMark(c, ram, pde);
      if !IsBig(ram, c, pde) {
        var pte := TableBase(ram, c, pde) + PteIndex(c, x) * Width(c);
        AlignedSlot(ram, c, pde, PteIndex(c, x));
        AccessedPte(c, ram, x, pde, pte);
        if InRam(ram, c, pte) && Present(ram', pte) {
          OneMark(c, ram', pte);
          SameButMarksTrans(c, ram, ram', ram'[pte := SetAccessed(ram'[pte])]);
        }
      }
    }
  }

  lemma SameButMarksRefl(c: Paging, ram: seq<Byte>)
    ensures SameButMarks(c, ram, ram)
  {
  }

  // Marking the directory entry does not change what is read from the table entry, even if they are one.
  lemma AccessedPte(c: Paging, ram: seq<Byte>, x: nat, pde: nat, pte: nat)
    requires InRam(ram, c, pde) && Present(ram, pde) && pde % Width(c) == 0 && pte % Width(c) == 0
    ensures TranslatePte(ram[pde := SetAccessed(ram[pde])], c, x, pde, pte) == TranslatePte(ram, c, x, pde, pte)
  {
    hide TableBase, BigBase, SetAccessed, SameFlags, SameButMarks;
    var ram' := ram[pde := SetAccessed(ram[pde])];
    OneMark(c, ram, pde);
    SameTranslatePte(c, ram, ram', x, pde, pte);
    SettersKeepFlags(ram[pde]);
  }

  lemma WalkIsTranslation(c: Paging, ram: seq<Byte>, x: nat, mark: bool)
    requires Aligned(c)
    ensures WalkTables(ram, c, x, mark).0 == Translate(ram, c, x)
    ensures SameButMarks(c, ram, WalkTables(ram, c, x, mark).1)
  {
    hide WalkPde, TranslatePde, TableBase;
    SameButMarksRefl(c, ram);
    if c.pae {
      var pdpe := c.base + x / 0x4000_0000 % 4 * 8;
      if InRam(ram, c, pdpe) && Present(ram, pdpe) {
        AlignedSlot(ram, c, pdpe, PdeIndex(c, x));
        WalkPdeMarks(c, ram, x, TableBase(ram, c, pdpe) + PdeIndex(c, x) * 8, mark);
      }
    } else {
      WalkPdeMarks(c, ram, x, c.base + PdeIndex(c, x) * 4, mark);
    }
  }

  // Marking entries accessed leaves their dirty flags alone.
  lemma WalkKeepsDirty(c: Paging, ram: seq<Byte>, x: nat)
    ensures var (w, ram') := WalkTables(ram, c, x, true); w.Mapped? ==> (Dirty(ram'[w.leaf]) <==> w.dirty)
  {
    hide WalkPde, TableBase;
    if c.pae {
      var pdpe := c.base + x / 0x4000_0000 % 4 * 8;
      if InRam(ram, c, pdpe) {
        WalkPdeKeepsDirty(c, ram, x, TableBase(ram, c, pdpe) + PdeIndex(c, x) * 8);
      }
    } else {
      WalkPdeKeepsDirty(c, ram, x, c.base + PdeIndex(c, x) * 4);
    }
  }

  lemma WalkPdeKeepsDirty(c: Paging, ram: seq<Byte>, x: nat, pde: nat)
    ensures var (w, ram') := WalkPde(ram, c, x, pde, true); w.Mapped? ==> (Dirty(ram'[w.leaf]) <==> w.dirty)
  {
    hide TableBase, BigBase, SetAccessed, Dirty, SameFlags;
    if InRam(ram, c, pde) && Present(ram, pde) {
      SettersKeepFlags(ram[pde]);
      var ram' := ram[pde := SetAccessed(ram[pde])];
      var pte := TableBase(ram, c, pde) + PteIndex(c, x) * Width(c);
      if pte < |ram| { SettersKeepFlags(ram'[pte]); }
    }
  }

  // Every mapped address keeps the offset within its page.
  lemma PteOffset(ram: seq<Byte>, c: Paging, x: nat, pde: nat, pte: nat)
    requires InRam(ram, c, pde)
    ensures var w := TranslatePte(ram, c, x, pde, pte); w.Mapped? ==> w.addr % 0x1000 == x % 0x1000
  {
    hide TableBase, Writable, User, Dirty;
    if InRam(ram, c, pte) {
      TablesStartOnPages(ram, c, pte);
    }
  }

  lemma TablesStartOnPages(ram: seq<Byte>, c: Paging, a: nat)
    requires InRam(ram, c, a)
    ensures TableBase(ram, c, a) % 0x1000 == 0
  {
  }

  lemma PdeOffset(ram: seq<Byte>, c: Paging, x: nat, pde: nat)
    ensures var w := TranslatePde(ram, c, x, pde); w.Mapped? ==> w.addr % 0x1000 == x % 0x1000
  {
    hide TableBase, BigBase, BigOffset, TranslatePte, Writable, User, Dirty;
    if InRam(ram, c, pde) {
      BigPagesStartOnPages(ram, c, pde);
      BigOffsetInPage(c, x);
      AddToPage(BigBase(ram, c, pde), BigOffset(c, x));
      PteOffset(ram, c, x, pde, TableBase(ram, c, pde) + PteIndex(c, x) * Width(c));
    }
  }

  lemma BigPagesStartOnPages(ram: seq<Byte>, c: Paging, a: nat)
    requires InRam(ram, c, a)
    ensures BigBase(ram, c, a) % 0x1000 == 0
  {
    var b1, b2, b3 := At(ram, a + 1), At(ram, a + 2), At(ram, a + 3);
    if c.pae {
      var b4, b5, b6 := At(ram, a + 4), At(ram, a + 5), At(ram, a + 6) % 16;
      WholePages(b2 / 32 * 0x200 + b3 * 0x1000 + b4 * 0x10_0000 + b5 * 0x1000_0000 + b6 * 0x10_0000_0000,
                 BigBase(ram, c, a));
    } else {
      WholePages(b2 / 64 * 0x400 + b3 * 0x1000 + (b1 / 32 + b2 % 32 * 8) * 0x10_0000, BigBase(ram, c, a));
    }
  }

  lemma WholePages(pages: int, addr: int)
    requires addr == pages * 0x1000
    ensures addr % 0x1000 == 0
  {
  }

  lemma AddToPage(page: nat, offset: nat)
    requires page % 0x1000 == 0
    ensures (page + offset) % 0x1000 == offset % 0x1000
  {
    OffsetInPage(page + offset, page / 0x1000 + offset / 0x1000, offset % 0x1000);
  }

  lemma BigOffsetInPage(c: Paging, x: nat)
    ensures BigOffset(c, x) % 0x1000 == x % 0x1000
  {
    var r := BigOffset(c, x);
    if c.pae {
      assert x == x / 0x20_0000 * 0x20_0000 + r;
      OffsetInPage(x, x / 0x20_0000 * 0x200 + r / 0x1000, r % 0x1000);
    } else {
      assert x == x / 0x40_0000 * 0x40_0000 + r;
      OffsetInPage(x, x / 0x40_0000 * 0x400 + r / 0x1000, r % 0x1000);
    }
  }

  lemma OffsetInPage(x: int, page: int, offset: int)
    requires x == page * 0x1000 + offset && 0 <= offset < 0x1000
    ensures x % 0x1000 == offset && x / 0x1000 == page
  {
  }

  lemma WalkOffset(ram: seq<Byte>, c: Paging, x: nat, mark: bool)
    ensures var w := WalkTables(ram, c, x, mark).0; w.Mapped? ==> w.addr % 0x1000 == x % 0x1000
  {
    hide TableBase, WalkPde;
    if c.pae {
      var pdpe := c.base + x / 0x4000_0000 % 4 * 8;
      if InRam(ram, c, pdpe) {
        WalkPdeOffset(ram, c, x, TableBase(ram, c, pdpe) + PdeIndex(c, x) * 8, mark);
      }
    } else {
      WalkPdeOffset(ram, c, x, c.base + PdeIndex(c, x) * 4, mark);
    }
  }

  lemma TranslationOffset(c: Paging, ram: seq<Byte>, x: nat)
    ensures var w := Translate(ram, c, x); w.Mapped? ==> w.addr % 0x1000 == x % 0x1000
  {
    hide TableBase, TranslatePde;
    if c.pae {
      var pdpe := c.base + x / 0x4000_0000 % 4 * 8;
      if InRam(ram, c, pdpe) {
        PdeOffset(ram, c, x, TableBase(ram, c, pdpe) + PdeIndex(c, x) * 8);
      }
    } else {
      PdeOffset(ram, c, x, c.base + PdeIndex(c, x) * 4);
    }
  }

  lemma WalkPdeOffset(ram: seq<Byte>, c: Paging, x: nat, pde: nat, mark: bool)
    ensures var w := WalkPde(ram, c, x, pde, mark).0; w.Mapped? ==> w.addr % 0x1000 == x % 0x1000
  {
    hide TableBase, BigBase, SetAccessed, TranslatePde, TranslatePte;
    PdeOffset(ram, c, x, pde);
    if InRam(ram, c, pde) {
      var ram' := if mark then ram[pde := SetAccessed(ram[pde])] else ram;
      PteOffset(ram', c, x, pde, TableBase(ram, c, pde) + PteIndex(c, x) * Width(c));
    }
  }

  // The page of an address determines its translation, up to the offset.
  lemma TranslationIsPagewise(c: Paging, ram: seq<Byte>, x: nat)
    ensures var w, page := Translate(ram, c, x), x / 0x1000 * 0x1000;
            var v := Translate(ram, c, page);
            w == if v.Mapped? then v.(addr := v.addr + x % 0x1000) else v
  {
    hide TableBase, TranslatePde;
    PageIndices(c, x);
    if c.pae {
      var pdpe := c.base + x / 0x4000_0000 % 4 * 8;
      if InRam(ram, c, pdpe) {
        PdeIsPagewise(c, ram, x, TableBase(ram, c, pdpe) + PdeIndex(c, x) * 8);
      }
    } else {
      PdeIsPagewise(c, ram, x, c.base + PdeIndex(c, x) * 4);
    }
  }

  lemma PdeIsPagewise(c: Paging, ram: seq<Byte>, x: nat, pde: nat)
    ensures var w, page := TranslatePde(ram, c, x, pde), x / 0x1000 * 0x1000;
            var v := TranslatePde(ram, c, page, pde);
            w == if v.Mapped? then v.(addr := v.addr + x % 0x1000) else v
  {
    hide TableBase, BigBase;
    PageIndices(c, x);
  }

  lemma PageIndices(c: Paging, x: nat)
    ensures var page := x / 0x1000 * 0x1000;
            && page / 0x4000_0000 == x / 0x4000_0000
            && PdeIndex(c, page) == PdeIndex(c, x) && PteIndex(c, page) == PteIndex(c, x)
            && BigOffset(c, page) == BigOffset(c, x) - x % 0x1000 && page % 0x1000 == 0
  {
    var q := x / 0x1000;
    assert x / 0x4000_0000 == q / 0x4_0000 && x / 0x20_0000 == q / 0x200 && x / 0x40_0000 == q / 0x400;
  }

  // A step of a history: the walk of an access to x, or the dirty mark for a write to x.
  datatype Mark = ReadMark(x: nat) | WriteMark(x: nat)

  function ApplyMark(ram: seq<Byte>, c: Paging, m: Mark): seq<Byte> {
    var ram' := WalkTables(ram, c, m.x, true).1;
    var w := Translate(ram', c, m.x);
    if m.WriteMark? && w.Mapped? then MarkDirty(ram', w.leaf) else ram'
  }

  function ApplyMarks(ram: seq<Byte>, c: Paging, marks: seq<Mark>): seq<Byte>
    decreases |marks|
  {
    if marks == [] then ram else ApplyMarks(ApplyMark(ram, c, marks[0]), c, marks[1..])
  }

  lemma LeafOnGrid(c: Paging, ram: seq<Byte>, x: nat)
    requires Aligned(c) && Translate(ram, c, x).Mapped?
    ensures Translate(ram, c, x).leaf % Width(c) == 0 && Present(ram, Translate(ram, c, x).leaf)
  {
    hide BigBase, TableBase, TranslatePde;
    if c.pae {
      var pdpe := c.base + x / 0x4000_0000 % 4 * 8;
      AlignedSlot(ram, c, pdpe, PdeIndex(c, x));
      LeafOfPde(c, ram, x, TableBase(ram, c, pdpe) + PdeIndex(c, x) * 8);
    } else {
      LeafOfPde(c, ram, x, c.base + PdeIndex(c, x) * 4);
    }
  }

  lemma LeafOfPde(c: Paging, ram: seq<Byte>, x: nat, pde: nat)
    requires pde % Width(c) == 0 && TranslatePde(ram, c, x, pde).Mapped?
    ensures TranslatePde(ram, c, x, pde).leaf % Width(c) == 0 && Present(ram, TranslatePde(ram, c, x, pde).leaf)
  {
    AlignedSlot(ram, c, pde, PteIndex(c, x));
  }

  lemma {:induction false} HistoryOnlyMarks(c: Paging, ram: seq<Byte>, marks: seq<Mark>)
    requires Aligned(c)
    ensures SameButMarks(c, ram, ApplyMarks(ram, c, marks))
    decreases |marks|
  {
    hide WalkTables, Translate, SameButMarks;
    if marks == [] {
      SameButMarksRefl(c, ram);
    } else {
      var m := marks[0];
      var ram' := WalkTables(ram, c, m.x, true).1;
      WalkIsTranslation(c, ram, m.x, true);
      var next := ApplyMark(ram, c, m);
      var w := Translate(ram', c, m.x);
      if m.WriteMark? && w.Mapped? {
        LeafOnGrid(c, ram', m.x);
        OneMark(c, ram', w.leaf);
        SameButMarksTrans(c, ram, ram', next);
      }
      HistoryOnlyMarks(c, next, marks[1..]);
      SameButMarksTrans(c, ram, next, ApplyMarks(ram, c, marks));
    }
  }

  // No history of accessed and dirty marks changes any translation.
  lemma HistoryIsTransparent(c: Paging, ram: seq<Byte>, marks: seq<Mark>, x: nat)
    requires Aligned(c) && |ram| <= MAX_RAM
    ensures SameWalk(Translate(ram, c, x), Translate(ApplyMarks(ram, c, marks), c, x))
  {
    HistoryOnlyMarks(c, ram, marks);
    MarksAreTransparent(c, ram, ApplyMarks(ram, c, marks), x);
  }

  // ----- A translation depends on the entries it goes through, and on nothing else

  ghost predicate EntryKept(c: Paging, ram: seq<Byte>, ram': seq<Byte>, a: nat)
    requires |ram'| == |ram|
  {
    InRam(ram, c, a) ==> forall i: nat :: a <= i < a + Width(c) ==> ram'[i] == ram[i]
  }

  ghost predicate PdeKept(c: Paging, ram: seq<Byte>, ram': seq<Byte>, x: nat, pde: nat)
    requires |ram'| == |ram|
  {
    && EntryKept(c, ram, ram', pde)
    && (InRam(ram, c, pde) && Present(ram, pde) && !IsBig(ram, c, pde) ==>
          EntryKept(c, ram, ram', TableBase(ram, c, pde) + PteIndex(c, x) * Width(c)))
  }

  // The entries that the translation of x goes through hold the same bytes.
  ghost predicate EntriesKept(c: Paging, ram: seq<Byte>, ram': seq<Byte>, x: nat)
    requires |ram'| == |ram|
  {
    if c.pae then
      var pdpe := c.base + x / 0x4000_0000 % 4 * 8;
      && EntryKept(c, ram, ram', pdpe)
      && (InRam(ram, c, pdpe) && Present(ram, pdpe) ==>
            PdeKept(c, ram, ram', x, TableBase(ram, c, pdpe) + PdeIndex(c, x) * 8))
    else
      PdeKept(c, ram, ram', x, c.base + PdeIndex(c, x) * 4)
  }

  lemma KeptEntry(c: Paging, ram: seq<Byte>, ram': seq<Byte>, a: nat)
    requires |ram'| == |ram| && InRam(ram, c, a) && EntryKept(c, ram, ram', a)
    ensures ram'[a] == ram[a] && ram'[a + 1] == ram[a + 1]
    ensures TableBase(ram', c, a) == TableBase(ram, c, a) && BigBase(ram', c, a) == BigBase(ram, c, a)
  {
    assert forall i: nat :: a <= i < a + Width(c) ==> At(ram', i) == At(ram, i);
  }

  lemma KeptEntriesTranslate(c: Paging, ram: seq<Byte>, ram': seq<Byte>, x: nat)
    requires |ram'| == |ram| && EntriesKept(c, ram, ram', x)
    ensures Translate(ram', c, x) == Translate(ram, c, x)
  {
    hide TableBase, TranslatePde, PdeKept;
    if c.pae {
      var pdpe := c.base + x / 0x4000_0000 % 4 * 8;
      if InRam(ram, c, pdpe) {
        KeptEntry(c, ram, ram', pdpe);
        if Present(ram, pdpe) { KeptPde(c, ram, ram', x, TableBase(ram, c, pdpe) + PdeIndex(c, x) * 8); }
      }
    } else {
      KeptPde(c, ram, ram', x, c.base + PdeIndex(c, x) * 4);
    }
  }

  lemma KeptPde(c: Paging, ram: seq<Byte>, ram': seq<Byte>, x: nat, pde: nat)
    requires |ram'| == |ram| && PdeKept(c, ram, ram', x, pde)
    ensures TranslatePde(ram', c, x, pde) == TranslatePde(ram, c, x, pde)
  {
    hide TableBase, BigBase, EntryKept;
    if InRam(ram, c, pde) {
      KeptEntry(c, ram, ram', pde);
      var pte := TableBase(ram, c, pde) + PteIndex(c, x) * Width(c);
      if Present(ram, pde) && !IsBig(ram, c, pde) && InRam(ram, c, pte) { KeptEntry(c, ram, ram', pte); }
    }
  }

  // ----- Every walk and every dirty mark, aligned or not, does no more than set accessed and dirty bits

  ghost predicate OnlyMarks(ram: seq<Byte>, ram': seq<Byte>) {
    |ram'| == |ram| && forall a: nat :: a < |ram| ==> SameFlags(ram[a], ram'[a])
  }

  lemma OnlyMarksTrans(r0: seq<Byte>, r1: seq<Byte>, r2: seq<Byte>)
    requires OnlyMarks(r0, r1) && OnlyMarks(r1, r2)
    ensures OnlyMarks(r0, r2)
  {
  }

  lemma OnlyMarksRefl(ram: seq<Byte>)
    ensures OnlyMarks(ram, ram)
  {
  }

  lemma AnyMark(ram: seq<Byte>, a: nat)
    requires a < |ram|
    ensures OnlyMarks(ram, ram[a := SetAccessed(ram[a])]) && OnlyMarks(ram, MarkDirty(ram, a))
  {
    hide SetAccessed, SetDirty, SameFlags;
    SettersKeepFlags(ram[a]);
    forall i: nat | i < |ram| && i != a ensures SameFlags(ram[i], ram[i]) { SameFlagsRefl(ram[i]); }
  }

  lemma WalkOnlyMarks(c: Paging, ram: seq<Byte>, x: nat)
    ensures OnlyMarks(ram, WalkTables(ram, c, x, true).1)
  {
    hide WalkPde, TableBase, OnlyMarks;
    OnlyMarksRefl(ram);
    if c.pae {
      var pdpe := c.base + x / 0x4000_0000 % 4 * 8;
      if InRam(ram, c, pdpe) {
        WalkPdeOnlyMarks(c, ram, x, TableBase(ram, c, pdpe) + PdeIndex(c, x) * 8);
      }
    } else {
      WalkPdeOnlyMarks(c, ram, x, c.base + PdeIndex(c, x) * 4);
    }
  }

  lemma WalkPdeOnlyMarks(c: Paging, ram: seq<Byte>, x: nat, pde: nat)
    ensures OnlyMarks(ram, WalkPde(ram, c, x, pde, true).1)
  {
    hide TableBase, BigBase, SetAccessed, OnlyMarks, TranslatePte;
    OnlyMarksRefl(ram);
    if InRam(ram, c, pde) {
      var ram' := ram[pde := SetAccessed(ram[pde])];
      var pte := TableBase(ram, c, pde) + PteIndex(c, x) * Width(c);
      AnyMark(ram, pde);
      if TranslatePte(ram', c, x, pde, pte).Mapped? {
        LeafOfPte(c, ram', x, pde, pte);
        AnyMark(ram', pte);
        OnlyMarksTrans(ram, ram', ram'[pte := SetAccessed(ram'[pte])]);
      }
    }
  }

  lemma LeafOfPte(c: Paging, ram: seq<Byte>, x: nat, pde: nat, pte: nat)
    requires InRam(ram, c, pde) && TranslatePte(ram, c, x, pde, pte).Mapped?
    ensures TranslatePte(ram, c, x, pde, pte).leaf == pte && pte < |ram|
  {
  }

  // A walk by itself sets no dirty bit.
  ghost predicate SameDirt(ram: seq<Byte>, ram': seq<Byte>) {
    |ram'| == |ram| && forall a: nat :: a < |ram| ==> Dirty(ram'[a]) == Dirty(ram[a])
  }

  lemma WalkSameDirt(c: Paging, ram: seq<Byte>, x: nat)
    ensures SameDirt(ram, WalkTables(ram, c, x, true).1)
  {
    hide WalkPde, TableBase, Dirty;
    if c.pae {
      var pdpe := c.base + x / 0x4000_0000 % 4 * 8;
      if InRam(ram, c, pdpe) {
        WalkPdeSameDirt(c, ram, x, TableBase(ram, c, pdpe) + PdeIndex(c, x) * 8);
      }
    } else {
      WalkPdeSameDirt(c, ram, x, c.base + PdeIndex(c, x) * 4);
    }
  }

  lemma WalkPdeSameDirt(c: Paging, ram: seq<Byte>, x: nat, pde: nat)
    ensures SameDirt(ram, WalkPde(ram, c, x, pde, true).1)
  {
    hide TableBase, BigBase, SetAccessed, TranslatePte, Dirty;
    if InRam(ram, c, pde) {
      var ram' := ram[pde := SetAccessed(ram[pde])];
      var pte := TableBase(ram, c, pde) + PteIndex(c, x) * Width(c);
      AccessedKeepsDirt(ram[pde]);
      if pte < |ram'| { AccessedKeepsDirt(ram'[pte]); }
      if TranslatePte(ram', c, x, pde, pte).Mapped? { LeafOfPte(c, ram', x, pde, pte); }
    }
  }

  lemma AccessedKeepsDirt(b: Byte)
    ensures Dirty(SetAccessed(b)) == Dirty(b)
  {
    SettersKeepFlags(b);
  }

  lemma SameDirtTrans(r0: seq<Byte>, r1: seq<Byte>, r2: seq<Byte>)
    requires SameDirt(r0, r1) && SameDirt(r1, r2)
    ensures SameDirt(r0, r2)
  {
    hide Dirty;
  }

  // With an aligned base a translation once dirty stays dirty.
  lemma DirtyStays(c: Paging, ram: seq<Byte>, ram': seq<Byte>, x: nat)
    requires Aligned(c) && |ram| <= MAX_RAM && SameButMarks(c, ram, ram')
    requires Translate(ram, c, x).Mapped? && Translate(ram, c, x).dirty
    ensures Translate(ram', c, x) == Translate(ram, c, x)
  {
    MarksAreTransparent(c, ram, ram', x);
    var leaf := Translate(ram, c, x).leaf;
    assert SameByte(c, leaf, ram[leaf], ram'[leaf]);
  }

  // ----- Off the grid an accessed bit can move a page

  // In no RAM of whole pages does the walk of any address disturb the translation of any other.
  ghost predicate Transparent(c: Paging) {
    forall ram: seq<Byte>, x: nat, y: nat :: |ram| <= MAX_RAM && |ram| % PAGE_SIZE == 0 && x < MAX_RAM && y < MAX_RAM
      ==> SameWalk(Translate(ram, c, y), Translate(WalkTables(ram, c, x, true).1, c, y))
  }

  // A directory entry at base points to the page it lies on; the first byte of the entry is an address byte of
  // the table entry it overlaps.
  function Overlapping32(base: nat): (ram: seq<Byte>)
    requires base % 4 != 0 && base + 4 <= MAX_RAM
    ensures |ram| == MAX_RAM
  {
    var table := base / 0x1000;
    seq(MAX_RAM, i requires 0 <= i < MAX_RAM =>
      if i == base - base % 4 || i == base then 1
      else if i == base + 1 then table % 16 * 16
      else if i == base + 2 then table / 16 % 256
      else if i == base + 3 then table / 0x1000
      else 0)
  }

  lemma TableNumber(t: int)
    requires 0 <= t < 0x10_0000
    ensures t % 16 * 16 / 16 * 0x1000 + t / 16 % 256 * 0x1_0000 + t / 0x1000 * 0x100_0000 == t * 0x1000
  {
    assert t == t / 16 * 16 + t % 16;
    assert t / 16 == t / 0x1000 * 256 + t / 16 % 256;
  }

  // The entry at pde leads to page t.
  lemma LeadsTo(c: Paging, ram: seq<Byte>, pde: nat, t: nat)
    requires InRam(ram, c, pde) && t < 0x10_0000
    requires ram[pde + 1] == t % 16 * 16 && ram[pde + 2] == t / 16 % 256 && ram[pde + 3] == t / 0x1000
    requires c.pae ==> ram[pde + 4] == 0 && ram[pde + 5] == 0 && ram[pde + 6] == 0
    ensures TableBase(ram, c, pde) == t * 0x1000
  {
    TableNumber(t);
    assert At(ram, pde + 1) == t % 16 * 16 && At(ram, pde + 2) == t / 16 % 256 && At(ram, pde + 3) == t / 0x1000;
  }

  lemma Slots(c: Paging, j: nat)
    requires !c.pae && j < 1024
    ensures var x := j * 0x1000; PdeIndex(c, x) == 0 && PteIndex(c, x) == j && x % 0x1000 == 0
  {
  }

  // An entry on the grid, by its page and its slot.
  lemma SlotOf(entry: nat, width: nat)
    requires (width == 4 || width == 8) && entry % width == 0
    ensures entry == entry / 0x1000 * 0x1000 + entry % 0x1000 / width * width
  {
    var page, r := entry / 0x1000, entry % 0x1000;
    assert entry == page * 0x1000 + r;
    if width == 4 {
      assert r == 4 * (entry / 4 - page * 0x400);
    } else {
      assert r == 8 * (entry / 8 - page * 0x200);
    }
  }

  // Walking a directory entry marks it, then the table entry it leads to.
  lemma WalkMarksBoth(c: Paging, ram: seq<Byte>, x: nat, pde: nat, pte: nat)
    requires InRam(ram, c, pde) && ram[pde] == 1 && !IsBig(ram, c, pde)
    requires pte == TableBase(ram, c, pde) + PteIndex(c, x) * Width(c) && pte != pde
    requires InRam(ram, c, pte) && ram[pte] == 1
    ensures WalkPde(ram, c, x, pde, true).1 == ram[pde := 33][pte := 33]
    ensures TranslatePde(ram, c, x, pde).Mapped?
  {
    hide TableBase, BigBase;
    assert SetAccessed(1) == 33;
  }

  // What translation finds through the directory entry of Overlapping32 once the flags byte it shares is f.
  lemma ThroughOverlap(c: Paging, ram: seq<Byte>, f: Byte, x: nat)
    requires !c.pae && c.base % 4 != 0 && c.base + 4 <= MAX_RAM && (f == 1 || f == 33) && |ram| == MAX_RAM
    requires forall i :: c.base < i < c.base + 4 ==> ram[i] == Overlapping32(c.base)[i]
    requires ram[c.base] == f && ram[c.base - c.base % 4] % 2 == 1
    requires x == (c.base - c.base % 4) % 0x1000 / 4 * 0x1000
    ensures var pte := c.base - c.base % 4;
            && InRam(ram, c, pte) && !IsBig(ram, c, c.base)
            && TableBase(ram, c, c.base) + PteIndex(c, x) * 4 == pte && c.base + PdeIndex(c, x) * 4 == c.base
            && Translate(ram, c, x).Mapped? && Translate(ram, c, x).addr == TableBase(ram, c, pte)
  {
    hide TableBase, BigBase, PteIndex, PdeIndex;
    var pte := c.base - c.base % 4;
    SamePage(c.base);
    LeadsTo(c, ram, c.base, c.base / 0x1000);
    hide Overlapping32;
    Slots(c, pte % 0x1000 / 4);
    SlotOf(pte, 4);
  }

  lemma SamePage(base: nat)
    ensures (base - base % 4) % 4 == 0 && (base - base % 4) / 0x1000 == base / 0x1000
  {
    var page, q := base / 0x1000, base / 4;
    assert base == q * 4 + base % 4 && base == page * 0x1000 + base % 0x1000;
    OffsetInPage(q * 4, page, 4 * (q - page * 0x400));
  }

  lemma Misaligned32(c: Paging)
    requires !c.pae && c.base % 4 != 0 && c.base + 4 <= MAX_RAM
    ensures !Transparent(c)
  {
    hide TableBase, TranslatePde, TranslatePte, WalkPde, IsBig;
    var ram := Overlapping32(c.base);
    var pte := c.base - c.base % 4;
    var x := pte % 0x1000 / 4 * 0x1000;
    ThroughOverlap(c, ram, 1, x);
    WalkMarksBoth(c, ram, x, c.base, pte);
    var ram' := ram[c.base := 33][pte := 33];
    assert WalkTables(ram, c, x, true).1 == ram';
    ThroughOverlap(c, ram', 33, x);
    SharedByteMoves(c, ram, ram', pte);
    assert !SameWalk(Translate(ram, c, x), Translate(WalkTables(ram, c, x, true).1, c, x));
  }

  // The byte at base is one of the address bytes of the table entry.
  lemma SharedByteMoves(c: Paging, ram: seq<Byte>, ram': seq<Byte>, pte: nat)
    requires !c.pae && InRam(ram, c, pte) && pte < c.base < pte + 4
    requires ram[c.base] == 1 && ram' == ram[c.base := 33][pte := 33]
    ensures TableBase(ram, c, pte) != TableBase(ram', c, pte)
  {
  }

  // The table that a page directory pointer at base leads to if its only address byte is f, where the next one starts.
  function FirstTable(base: nat, f: Byte): nat {
    if base % 8 == 5 then (f as int) * 0x100_0000
    else if base % 8 == 6 then (f as int) * 0x1_0000
    else (f as int) / 16 * 0x1000
  }

  predicate Meets(table: nat, base: nat) {
    table < base + 8 && base < table + 8
  }

  // A directory slot away from the pointer, whichever of the two tables it leads to.
  function FreeSlot(base: nat): nat {
    if Meets(FirstTable(base, 1), base) || Meets(FirstTable(base, 33), base) then 4 else 0
  }

  lemma FreeSlotIsFree(base: nat, f: Byte)
    requires 5 <= base % 8 && (f == 1 || f == 33)
    ensures !Meets(FirstTable(base, f) + FreeSlot(base) * 8, base)
    ensures FirstTable(base, 1) + 0x2000 <= FirstTable(base, 33) < 0x4000_0000
  {
  }

  // A page directory pointer at base, whose address byte 8 - base % 8 is the first byte of a table entry; and the
  // directory entry that leads to that table.
  function OverlappingPae(base: nat): (ram: seq<Byte>)
    requires base % 8 >= 5 && base + 8 <= MAX_RAM
    ensures |ram| == MAX_RAM
  {
    var entry := base + 8 - base % 8;
    var pde := FirstTable(base, 1) + FreeSlot(base) * 8;
    var table := entry / 0x1000;
    seq(MAX_RAM, i requires 0 <= i < MAX_RAM =>
      if i == base || i == entry || i == pde then 1
      else if i == pde + 1 then table % 16 * 16
      else if i == pde + 2 then table / 16 % 256
      else if i == pde + 3 then table / 0x1000
      else 0)
  }

  // The pointer, once the byte it shares with the table entry is f.
  lemma OverlappingPointer(c: Paging, ram: seq<Byte>, f: Byte)
    requires c.pae && c.base % 8 >= 5 && InRam(ram, c, c.base)
    requires forall i :: c.base <= i < c.base + 8 ==>
               ram[i] == if i == c.base then 1 else if i == c.base + 8 - c.base % 8 then f else 0
    ensures Present(ram, c.base) && TableBase(ram, c, c.base) == FirstTable(c.base, f)
  {
    var a := c.base;
    assert At(ram, a + 4) == 0 && At(ram, a + 5) == 0 && At(ram, a + 6) == 0;
    assert At(ram, a + 1) == if c.base % 8 == 7 then f else 0;
    assert At(ram, a + 2) == if c.base % 8 == 6 then f else 0;
    assert At(ram, a + 3) == if c.base % 8 == 5 then f else 0;
  }

  lemma SlotsPae(c: Paging, k: nat, j: nat)
    requires c.pae && k < 512 && j < 512
    ensures var x := k * 0x20_0000 + j * 0x1000;
            x / 0x4000_0000 == 0 && PdeIndex(c, x) == k && PteIndex(c, x) == j
  {
    var x := k * 0x20_0000 + j * 0x1000;
    assert x / 0x20_0000 == k && x / 0x1000 == k * 512 + j;
  }

  lemma ThroughPointer(c: Paging, ram: seq<Byte>, x: nat)
    requires c.pae && x / 0x4000_0000 == 0 && InRam(ram, c, c.base) && Present(ram, c.base)
    ensures var pde := TableBase(ram, c, c.base) + PdeIndex(c, x) * 8;
            && WalkTables(ram, c, x, true) == WalkPde(ram, c, x, pde, true)
            && Translate(ram, c, x) == TranslatePde(ram, c, x, pde)
  {
  }

  // The entry that the pointer at base overlaps, the directory entry that leads to its table, and the one that takes
  // that entry's place once the pointer has moved.
  function OverlappedEntry(base: nat): nat { base + 8 - base % 8 }
  function LeadingEntry(base: nat): nat { FirstTable(base, 1) + FreeSlot(base) * 8 }
  function MovedEntry(base: nat): nat { FirstTable(base, 33) + FreeSlot(base) * 8 }

  lemma EntriesApart(base: nat)
    requires base % 8 >= 5 && base + 8 <= MAX_RAM
    ensures var entry, pde, moved := OverlappedEntry(base), LeadingEntry(base), MovedEntry(base);
            && base < entry < base + 4 && entry % 8 == 0 && entry + 8 <= MAX_RAM
            && !Meets(pde, base) && !Meets(moved, base) && pde + 0x2000 <= moved && moved + 8 <= MAX_RAM
  {
    FreeSlotIsFree(base, 1);
    FreeSlotIsFree(base, 33);
    var q := base / 8;
    assert base == q * 8 + base % 8 && OverlappedEntry(base) == (q + 1) * 8;
  }

  lemma OverlapBytes(base: nat)
    requires base % 8 >= 5 && base + 8 <= MAX_RAM
    ensures var ram, entry := OverlappingPae(base), OverlappedEntry(base);
            var pde, moved := LeadingEntry(base), MovedEntry(base);
            var table := entry / 0x1000;
            && (forall i :: base <= i < base + 8 ==> ram[i] == if i == base || i == entry then 1 else 0)
            && pde + 8 <= MAX_RAM && ram[pde] == 1
            && ram[pde + 1] == table % 16 * 16 && ram[pde + 2] == table / 16 % 256
            && ram[pde + 3] == table / 0x1000 && ram[pde + 4] == 0 && ram[pde + 5] == 0 && ram[pde + 6] == 0
            && moved < MAX_RAM && ram[moved] == 0
  {
    EntriesApart(base);
    hide FirstTable, FreeSlot;
  }

  // The address whose translation goes through the pointer, the leading entry and the overlapped entry.
  function Victim(base: nat): nat {
    FreeSlot(base) * 0x20_0000 + OverlappedEntry(base) % 0x1000 / 8 * 0x1000
  }

  lemma VictimIndices(c: Paging)
    requires c.pae && c.base % 8 >= 5 && c.base + 8 <= MAX_RAM
    ensures var x := Victim(c.base);
            && x / 0x4000_0000 == 0 && x < MAX_RAM && PdeIndex(c, x) == FreeSlot(c.base)
            && OverlappedEntry(c.base) / 0x1000 * 0x1000 + PteIndex(c, x) * 8 == OverlappedEntry(c.base)
  {
    EntriesApart(c.base);
    SlotsPae(c, FreeSlot(c.base), OverlappedEntry(c.base) % 0x1000 / 8);
    SlotOf(OverlappedEntry(c.base), 8);
  }

  // Before the walk: the pointer, the directory entry and the table entry are all present.
  lemma OverlapEntries(c: Paging)
    requires c.pae && c.base % 8 >= 5 && c.base + 8 <= MAX_RAM
    ensures var ram, x := OverlappingPae(c.base), Victim(c.base);
            var entry, pde := OverlappedEntry(c.base), LeadingEntry(c.base);
            && x / 0x4000_0000 == 0 && InRam(ram, c, c.base) && Present(ram, c.base)
            && TableBase(ram, c, c.base) + PdeIndex(c, x) * 8 == pde
            && InRam(ram, c, pde) && ram[pde] == 1 && pde != entry && InRam(ram, c, entry) && ram[entry] == 1
            && entry == TableBase(ram, c, pde) + PteIndex(c, x) * Width(c)
  {
    var ram, x := OverlappingPae(c.base), Victim(c.base);
    var entry, pde := OverlappedEntry(c.base), LeadingEntry(c.base);
    hide OverlappingPae, FreeSlot, FirstTable, TableBase, BigBase, WalkTables, Translate, PdeIndex, PteIndex;
    OverlapBytes(c.base);
    EntriesApart(c.base);
    VictimIndices(c);
    OverlappingPointer(c, ram, 1);
    LeadsTo(c, ram, pde, entry / 0x1000);
  }

  lemma WalkThroughPointer(c: Paging, ram: seq<Byte>, x: nat, pde: nat, entry: nat)
    requires c.pae && x / 0x4000_0000 == 0 && InRam(ram, c, c.base) && Present(ram, c.base)
    requires pde == TableBase(ram, c, c.base) + PdeIndex(c, x) * 8 && InRam(ram, c, pde) && ram[pde] == 1
    requires entry == TableBase(ram, c, pde) + PteIndex(c, x) * Width(c) && entry != pde
    requires InRam(ram, c, entry) && ram[entry] == 1
    ensures Translate(ram, c, x).Mapped? && WalkTables(ram, c, x, true).1 == ram[pde := 33][entry := 33]
  {
    hide TableBase, BigBase, WalkTables, Translate, PdeIndex, PteIndex, WalkPde, TranslatePde;
    ThroughPointer(c, ram, x);
    WalkMarksBoth(c, ram, x, pde, entry);
  }

  lemma OverlapBefore(c: Paging)
    requires c.pae && c.base % 8 >= 5 && c.base + 8 <= MAX_RAM
    ensures var ram, x := OverlappingPae(c.base), Victim(c.base);
            var entry, pde := OverlappedEntry(c.base), LeadingEntry(c.base);
            && pde < MAX_RAM && entry < MAX_RAM && Translate(ram, c, x).Mapped?
            && WalkTables(ram, c, x, true).1 == ram[pde := 33][entry := 33]
  {
    hide OverlappingPae, TableBase, BigBase, WalkTables, Translate, PdeIndex, PteIndex, OverlappedEntry, LeadingEntry;
    hide Victim, Present;
    OverlapEntries(c);
    WalkThroughPointer(c, OverlappingPae(c.base), Victim(c.base), LeadingEntry(c.base), OverlappedEntry(c.base));
  }

  // After it: the pointer leads to a directory whose entry is missing.
  lemma OverlapAfter(c: Paging)
    requires c.pae && c.base % 8 >= 5 && c.base + 8 <= MAX_RAM
    ensures var entry, pde := OverlappedEntry(c.base), LeadingEntry(c.base);
            && pde < MAX_RAM && entry < MAX_RAM
            && Translate(OverlappingPae(c.base)[pde := 33][entry := 33], c, Victim(c.base)).Unmapped?
  {
    var entry, pde := OverlappedEntry(c.base), LeadingEntry(c.base);
    hide OverlappingPae, FreeSlot, FirstTable, TableBase, BigBase, WalkTables, Translate, PdeIndex;
    OverlapBytes(c.base);
    EntriesApart(c.base);
    VictimIndices(c);
    var ram' := OverlappingPae(c.base)[pde := 33][entry := 33];
    OverlappingPointer(c, ram', 33);
    ThroughPointer(c, ram', Victim(c.base));
    hide OverlappedEntry, Victim;
    assert ram'[MovedEntry(c.base)] == 0;
  }

  lemma MisalignedPae(c: Paging)
    requires c.pae && c.base % 8 >= 5 && c.base + 8 <= MAX_RAM
    ensures !Transparent(c)
  {
    hide TableBase, TranslatePde, WalkPde, OverlappingPae, Victim, Translate, WalkTables;
    var ram, x := OverlappingPae(c.base), Victim(c.base);
    OverlapBefore(c);
    OverlapAfter(c);
    VictimIndices(c);
    assert !SameWalk(Translate(ram, c, x), Translate(WalkTables(ram, c, x, true).1, c, x));
  }

  // Nothing can be read at a base whose first entry lies beyond the highest address.
  lemma BeyondTop(c: Paging, ram: seq<Byte>, x: nat)
    requires |ram| <= MAX_RAM && c.base + Width(c) > MAX_RAM
    ensures Translate(ram, c, x) == Outside && WalkTables(ram, c, x, true).1 == ram
  {
  }

  // For every value of the base register: exactly at the aligned bases, and at those that no walk can use, does no walk
  // disturb any translation.
  lemma TransparentIffAligned(c: Paging)
    requires c.base < MAX_RAM
    ensures Transparent(c) <==> Aligned(c) || c.base + Width(c) > MAX_RAM
  {
    if Aligned(c) || c.base + Width(c) > MAX_RAM {
      forall ram: seq<Byte>, x: nat, y: nat | |ram| <= MAX_RAM
        ensures SameWalk(Translate(ram, c, y), Translate(WalkTables(ram, c, x, true).1, c, y))
      {
        if Aligned(c) {
          WalkIsTranslation(c, ram, x, true);
          MarksAreTransparent(c, ram, WalkTables(ram, c, x, true).1, y);
        } else {
          BeyondTop(c, ram, x);
        }
      }
    } else if c.pae {
      MisalignedPae(c);
    } else {
      Misaligned32(c);
    }
  }
}
