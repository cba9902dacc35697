/**
 Memory areas in a 64-bit address space, where an area may run past the last address and go on at address 0.

 None stands for a panic: an arithmetic overflow, or an expectation that does not hold.
 */
module Areas {
  import opened Bytes
  import opened Options

  const SPAN: nat := 0x1_0000_0000_0000_0000

  type Word = x: nat | x < 0x1_0000_0000_0000_0000

  function WrappingAdd(a: Word, b: Word): Word {
    if a + b < SPAN then a + b else a + b - SPAN
  }

  function WrappingSub(a: Word, b: Word): Word {
    if a >= b then a - b else a - b + SPAN
  }

  lemma WrappingIsModular(a: Word, b: Word)
    ensures WrappingAdd(a, b) == (a + b) % SPAN && WrappingSub(a, b) == (a - b) % SPAN
  {
  }

  function CheckedAdd(a: Word, b: Word): Option<Word> {
    if a + b < SPAN then Some(a + b) else None
  }

  datatype Area = Area(addr: Word, size: Word)
  {
    // What an area is: the size addresses that follow addr, modulo 2^64.
    ghost predicate Covers(x: Word) {
      WrappingSub(x, addr) < size
    }

    ghost predicate Wraps() {
      addr + size > SPAN
    }

    ghost predicate Meets(page: nat) {
      exists x: Word :: x / PAGE_SIZE == page && Covers(x)
    }

    function Offset(offset: Word): Area {
      Area(WrappingAdd(addr, offset), size)
    }

    predicate Contains(x: Word)
      ensures Contains(x) <==> Covers(x)
      decreases addr
    {
      match CheckedAdd(addr, size)
      case Some(end) => size > 0 && x >= addr && x < end
      case None =>
        var offset := size - WrappingAdd(addr, size);
        Offset(offset).Contains(WrappingAdd(x, offset))
    }

    function LastAddr(): (r: Option<Word>)
      requires size > 0
      ensures r.None? <==> Wraps()
    {
      CheckedAdd(addr, size - 1)
    }

    function EndAddr(): Word
      requires size > 0
    {
      WrappingAdd(addr, size - 1)
    }

    function CrossesPageBounds(): Option<bool> {
      if size == 0 then None else Some(addr / PAGE_SIZE != EndAddr() / PAGE_SIZE)
    }

    function OverlapsWith(other: Area): Option<bool> {
      if size == 0 || other.size == 0 then
        None
      else
        match (LastAddr(), other.LastAddr())
        case (Some(end), Some(otherEnd)) => Some(otherEnd >= addr && other.addr <= end)
        case (None, None) => Some(true)
        case _ =>
          var offsetSelfTo0 := WrappingSub(0, addr);
          var offset :=
            if other.Offset(offsetSelfTo0).LastAddr().Some? then offsetSelfTo0 else WrappingSub(0, other.addr);
          var newSelf, newOther := Offset(offset), other.Offset(offset);
          match (newSelf.LastAddr(), newOther.LastAddr())
          case (Some(end), Some(otherEnd)) => Some(otherEnd >= newSelf.addr && newOther.addr <= end)
          case _ => None
    }

    function ExpandToPage(): (r: Option<Area>)
      ensures r.None? <==> size + addr % PAGE_SIZE + (PAGE_SIZE - 1) >= SPAN
    {
      var start := addr / PAGE_SIZE * PAGE_SIZE;
      var newSize := size + (addr - start);
      if newSize + (PAGE_SIZE - 1) >= SPAN then
        None
      else
        Some(Area(start, (newSize + (PAGE_SIZE - 1)) / PAGE_SIZE * PAGE_SIZE))
    }

    function SharesPageWith(other: Area): Option<bool> {
      match (ExpandToPage(), other.ExpandToPage())
      case (Some(a), Some(b)) => a.OverlapsWith(b)
      case _ => None
    }
  }

  ghost predicate Overlap(a: Area, b: Area) {
    exists x: Word :: a.Covers(x) && b.Covers(x)
  }

  ghost predicate SharePage(a: Area, b: Area) {
    exists page: nat :: a.Meets(page) && b.Meets(page)
  }

  // Two areas overlap exactly when one of them covers the other's start.
  lemma OverlapAtStart(a: Area, b: Area)
    requires a.size > 0 && b.size > 0
    ensures Overlap(a, b) <==> a.Covers(b.addr) || b.Covers(a.addr)
  {
  }

  // The areas are too far apart for the shift that overlaps_with tries: exactly one of them wraps around, and from
  // different starts each reaches the start of the other.
  ghost predicate TooFarApart(a: Area, b: Area) {
    a.Wraps() != b.Wraps() && a.addr != b.addr && a.Covers(b.addr) && b.Covers(a.addr)
  }

  lemma OverlapsExactly(a: Area, b: Area)
    ensures a.OverlapsWith(b).None? <==> a.size == 0 || b.size == 0 || TooFarApart(a, b)
    ensures a.OverlapsWith(b).Some? ==> (a.OverlapsWith(b).value <==> Overlap(a, b))
  {
    if a.size > 0 && b.size > 0 {
      OverlapAtStart(a, b);
    }
  }

  // Areas of the documented size never fail.
  lemma OverlapsWhenSmall(a: Area, b: Area)
    requires 0 < a.size < SPAN / 2 && 0 < b.size < SPAN / 2
    ensures a.OverlapsWith(b) == Some(Overlap(a, b))
  {
    OverlapsExactly(a, b);
  }

  // The bound is needed: these two areas overlap, but the comparison fails.
  lemma OverlapsFailsWhenLarge()
    ensures Area(0, SPAN / 2 + 1).OverlapsWith(Area(SPAN / 2, SPAN / 2 + 1)) == None
    ensures Overlap(Area(0, SPAN / 2 + 1), Area(SPAN / 2, SPAN / 2 + 1))
  {
    OverlapAtStart(Area(0, SPAN / 2 + 1), Area(SPAN / 2, SPAN / 2 + 1));
  }

  // From the start of a page on, offsets of the same page lead to the same page, also past the last address.
  lemma SamePage(start: Word, k: Word, j: Word)
    requires start % PAGE_SIZE == 0 && k / PAGE_SIZE == j / PAGE_SIZE
    ensures WrappingAdd(start, k) / PAGE_SIZE == WrappingAdd(start, j) / PAGE_SIZE
  {
    var first, q := start / PAGE_SIZE, k / PAGE_SIZE;
    assert start == first * PAGE_SIZE && k == q * PAGE_SIZE + k % PAGE_SIZE && j == q * PAGE_SIZE + j % PAGE_SIZE;
    assert SPAN == SPAN / PAGE_SIZE * PAGE_SIZE;
    if (first + q) * PAGE_SIZE < SPAN {
      PageAt(first + q, k % PAGE_SIZE);
      PageAt(first + q, j % PAGE_SIZE);
    } else {
      PageAt(first + q - SPAN / PAGE_SIZE, k % PAGE_SIZE);
      PageAt(first + q - SPAN / PAGE_SIZE, j % PAGE_SIZE);
    }
  }

  lemma PageAt(page: nat, offset: nat)
    requires offset < PAGE_SIZE
    ensures (page * PAGE_SIZE + offset) / PAGE_SIZE == page
  {
  }

  // Seen from the start of a's first page, r bytes before a: page q of the expanded area holds some address of a.
  lemma PageOfExpanded(a: Area, e: Area, x: Word)
    requires a.size > 0 && a.ExpandToPage() == Some(e) && e.Covers(x)
    ensures a.Meets(x / PAGE_SIZE)
  {
    var r, k := a.addr - e.addr, WrappingSub(x, e.addr);
    var q := k / PAGE_SIZE;
    var j := if q == 0 then r else q * PAGE_SIZE;
    var y := WrappingAdd(e.addr, j);
    assert x == WrappingAdd(e.addr, k);
    assert j / PAGE_SIZE == q by {
      PageAt(q, 0);
      PageAt(0, r);
    }
    SamePage(e.addr, k, j);
    ReachedInExpanded(a, e, k, j);
    assert WrappingSub(y, a.addr) == j - r;
    assert a.Covers(y);
  }

  lemma ReachedInExpanded(a: Area, e: Area, k: nat, j: nat)
    requires a.size > 0 && a.ExpandToPage() == Some(e) && k < e.size
    requires j == if k / PAGE_SIZE == 0 then a.addr - e.addr else k / PAGE_SIZE * PAGE_SIZE
    ensures a.addr - e.addr <= j < a.size + (a.addr - e.addr)
  {
  }

  // Rounded to pages, an area covers the pages that it meets.
  lemma ExpandedCovers(a: Area, x: Word)
    requires a.size > 0 && a.ExpandToPage().Some?
    ensures a.ExpandToPage().value.Covers(x) <==> a.Meets(x / PAGE_SIZE)
  {
    var e := a.ExpandToPage().value;
    if e.Covers(x) {
      PageOfExpanded(a, e, x);
    }
    if y: Word :| y / PAGE_SIZE == x / PAGE_SIZE && a.Covers(y) {
      assert WrappingSub(y, e.addr) == WrappingSub(y, a.addr) + (a.addr - e.addr);
    }
  }

  // Rounding fails exactly if the area meets every page.
  lemma ExpandFailsExactly(a: Area)
    requires a.size > 0
    ensures a.ExpandToPage().None? <==> forall page: nat :: page < SPAN / PAGE_SIZE ==> a.Meets(page)
  {
    if a.ExpandToPage().None? {
      forall page: nat | page < SPAN / PAGE_SIZE ensures a.Meets(page) {
        MeetsWhenHuge(a, page);
      }
    } else {
      var e := a.ExpandToPage().value;
      var x := WrappingSub(e.addr, 1);
      assert WrappingSub(x, e.addr) == SPAN - 1;
      ExpandedCovers(a, x);
      assert x / PAGE_SIZE < SPAN / PAGE_SIZE;
    }
  }

  lemma MeetsWhenHuge(a: Area, page: nat)
    requires a.size > 0 && page < SPAN / PAGE_SIZE && a.size + a.addr % PAGE_SIZE + (PAGE_SIZE - 1) >= SPAN
    ensures a.Meets(page)
  {
    var start, r := a.addr / PAGE_SIZE * PAGE_SIZE, a.addr % PAGE_SIZE;
    var k := WrappingSub(page * PAGE_SIZE, start);
    var j := if k == 0 then r else k;
    var y := WrappingAdd(start, j);
    assert WrappingAdd(start, k) == page * PAGE_SIZE;
    assert k % PAGE_SIZE == 0 by { DifferenceOfPages(page, a.addr / PAGE_SIZE); }
    SamePage(start, k, j);
    PageAt(page, 0);
    assert a.Covers(y);
  }

  lemma DifferenceOfPages(page: nat, first: nat)
    requires page < SPAN / PAGE_SIZE && first < SPAN / PAGE_SIZE
    ensures WrappingSub(page * PAGE_SIZE, first * PAGE_SIZE) % PAGE_SIZE == 0
  {
    assert SPAN == SPAN / PAGE_SIZE * PAGE_SIZE;
    var d := if page >= first then page - first else page - first + SPAN / PAGE_SIZE;
    assert WrappingSub(page * PAGE_SIZE, first * PAGE_SIZE) == d * PAGE_SIZE;
    PageAt(d, 0);
  }

  lemma SharesPageExactly(a: Area, b: Area)
    requires a.size > 0 && b.size > 0
    ensures a.SharesPageWith(b).None? <==>
              || a.ExpandToPage().None? || b.ExpandToPage().None?
              || TooFarApart(a.ExpandToPage().value, b.ExpandToPage().value)
    ensures a.SharesPageWith(b).Some? ==> (a.SharesPageWith(b).value <==> SharePage(a, b))
  {
    if a.ExpandToPage().Some? && b.ExpandToPage().Some? {
      var e, f := a.ExpandToPage().value, b.ExpandToPage().value;
      OverlapsExactly(e, f);
      if x: Word :| e.Covers(x) && f.Covers(x) {
        ExpandedCovers(a, x);
        ExpandedCovers(b, x);
        assert a.Meets(x / PAGE_SIZE) && b.Meets(x / PAGE_SIZE);
      }
      if page: nat :| a.Meets(page) && b.Meets(page) {
        var x: Word :| x / PAGE_SIZE == page && a.Covers(x);
        ExpandedCovers(a, x);
        ExpandedCovers(b, x);
      }
    }
  }

  lemma SharesPageWhenSmall(a: Area, b: Area)
    requires a.size > 0 && b.size > 0
    requires a.ExpandToPage().Some? && a.ExpandToPage().value.size < SPAN / 2
    requires b.ExpandToPage().Some? && b.ExpandToPage().value.size < SPAN / 2
    ensures a.SharesPageWith(b) == Some(SharePage(a, b))
  {
    SharesPageExactly(a, b);
  }

  ghost predicate MeetsTwoPages(a: Area) {
    exists p, q :: p != q && a.Meets(p) && a.Meets(q)
  }

  // Whether the ends lie on different pages says whether the area meets two exactly if it is no larger than a page or
  // they do. Otherwise it goes round the address space, back to the page it began on.
  lemma CrossesExactly(a: Area)
    requires 0 < a.size
    ensures a.CrossesPageBounds() == Some(MeetsTwoPages(a)) <==>
              a.size <= PAGE_SIZE || a.addr / PAGE_SIZE != a.EndAddr() / PAGE_SIZE
  {
    assert a.Covers(a.addr) && a.Covers(a.EndAddr());
    assert a.Meets(a.addr / PAGE_SIZE) && a.Meets(a.EndAddr() / PAGE_SIZE);
    if a.addr / PAGE_SIZE == a.EndAddr() / PAGE_SIZE {
      if a.size <= PAGE_SIZE {
        forall p | a.Meets(p) ensures p == a.addr / PAGE_SIZE {
          var x: Word :| x / PAGE_SIZE == p && a.Covers(x);
        }
      } else {
        var x := WrappingAdd(a.addr, PAGE_SIZE);
        assert a.Covers(x) && x / PAGE_SIZE != a.addr / PAGE_SIZE;
        assert a.Meets(x / PAGE_SIZE);
      }
    }
  }

  // Up to half the address space, as its comment asks, the answer is right.
  lemma CrossesWhenSmall(a: Area)
    requires 0 < a.size <= SPAN / 2
    ensures a.CrossesPageBounds() == Some(MeetsTwoPages(a))
  {
    CrossesExactly(a);
  }

  lemma CrossesFailsWhenHuge()
    ensures var a := Area(0x10, 0xffff_ffff_ffff_ffff); a.CrossesPageBounds() == Some(false) && MeetsTwoPages(a)
  {
    var a := Area(0x10, 0xffff_ffff_ffff_ffff);
    assert a.Covers(0x10) && a.Covers(0x1010);
    assert a.Meets(0) && a.Meets(1);
  }
}
