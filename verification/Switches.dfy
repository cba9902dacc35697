/**
 Switching paging, write protection or the page size extension invalidates no page. Exactly when the mappings in use
 then still agree with translation, and memories in which they do not.
 */
module Switches {
  import opened Accesses
  import opened Agreement
  import opened Bytes
  import opened Histories
  import opened Memory
  import opened Metadata
  import opened Options
  import opened PageTables

  predicate InUse(m: Machine, p: nat)
    requires |m.meta| == NUM_PAGES && p < NUM_PAGES
  {
    m.meta[p] & TRAP_ACCESS == 0
  }

  predicate OpenToWrites(m: Machine, p: nat)
    requires |m.meta| == NUM_PAGES && p < NUM_PAGES
  {
    InUse(m, p) && m.meta[p] & TRAP_WRITE == 0
  }

  // A state in which mappings are current is strict exactly if no page open to writes by user code is read-only for it.
  lemma StrictUnlessReadOnly(m: Machine)
    requires |m.meta| == NUM_PAGES && Current(m)
    ensures Strict(m) <==> forall p: nat :: p < NUM_PAGES && !Traps(m, p, true, true) ==>
                             !ReadOnlyForUser(m.control, m.ram, p * PAGE_SIZE)
  {
    hide Translate, ShouldTrap;
    forall p: nat | p < NUM_PAGES && !Traps(m, p, true, true)
      ensures Denies(m.control, m.ram, p * PAGE_SIZE, true, true) <==> ReadOnlyForUser(m.control, m.ram, p * PAGE_SIZE)
    {
      TrapsWhenRequired(m.meta[p], true, true);
      assert PageInstalled(m, m.ram, m, p, false);
    }
  }

  // ----- Write protection

  ghost predicate WritesGranted(m: Machine)
    requires |m.meta| == NUM_PAGES
  {
    m.control.enabled ==> forall p: nat :: p < NUM_PAGES && OpenToWrites(m, p) ==>
      var w := Translate(m.ram, m.control.paging, p * PAGE_SIZE); w.Mapped? && w.writable
  }

  // Mappings stay current exactly if protection goes off, or every page open to writes has entries that grant them.
  lemma WriteProtectExactly(m: Machine, protect: bool)
    requires |m.meta| == NUM_PAGES
    ensures var t := m.(control := m.control.(writeProtect := protect));
            && (Current(m) ==> (Current(t) <==> !protect || WritesGranted(m)))
            && (Strict(t) <==> Strict(m))
  {
    hide Translate, ShouldTrap;
    var t := m.(control := m.control.(writeProtect := protect));
    assert forall p: nat :: p < NUM_PAGES ==> (Traps(m, p, true, true) <==> Traps(t, p, true, true));
    if Current(m) {
      forall p: nat | p < NUM_PAGES && InUse(m, p)
        ensures PageInstalled(t, t.ram, t, p, false) <==>
                  (protect && m.control.enabled && OpenToWrites(m, p) ==>
                     var w := Translate(m.ram, m.control.paging, p * PAGE_SIZE); w.Mapped? && w.writable)
      {
        assert PageInstalled(m, m.ram, m, p, false);
      }
    }
  }

  // ----- Paging

  // The tables map page p to itself, for user code, and grant the writes it is open to.
  predicate MappedToItself(m: Machine, p: nat)
    requires |m.meta| == NUM_PAGES && p < NUM_PAGES
  {
    var w := Translate(m.ram, m.control.paging, p * PAGE_SIZE);
    && w.Mapped? && w.addr == p * PAGE_SIZE && w.user
    && (OpenToWrites(m, p) ==> (w.writable || !m.control.writeProtect) && w.dirty)
  }

  ghost predicate PagingCanSwitch(m: Machine, enable: bool)
    requires |m.meta| == NUM_PAGES
  {
    enable == m.control.enabled || forall p: nat :: p < NUM_PAGES && InUse(m, p) ==> MappedToItself(m, p)
  }

  // Whether paging is switched on or off, mappings stay current exactly if the tables map every page in use to itself.
  lemma PagingExactly(m: Machine, enable: bool)
    requires |m.meta| == NUM_PAGES && Current(m)
    ensures Current(m.(control := m.control.(enabled := enable))) <==> PagingCanSwitch(m, enable)
  {
    hide Translate;
    var t := m.(control := m.control.(enabled := enable));
    forall p: nat | p < NUM_PAGES && InUse(m, p)
      ensures PageInstalled(t, t.ram, t, p, false) <==> enable == m.control.enabled || MappedToItself(m, p)
    {
      assert PageInstalled(m, m.ram, m, p, false);
    }
  }

  // ----- Page size extension

  // The directory entry for page p has the big-page bit, which the extension gives its meaning.
  predicate ThroughBigEntry(m: Machine, p: nat) {
    var c := m.control.paging;
    var pde := c.base + PdeIndex(c, p * PAGE_SIZE) * 4;
    InRam(m.ram, c, pde) && Present(m.ram, pde) && BigPage(m.ram, pde)
  }

  // With the extension the other way round page p is found at the same place, and what it is open to is still granted.
  predicate FoundAlike(m: Machine, p: nat)
    requires |m.meta| == NUM_PAGES && p < NUM_PAGES
  {
    var c := m.control.paging;
    var w, w' := Translate(m.ram, c, p * PAGE_SIZE), Translate(m.ram, c.(pse := !c.pse), p * PAGE_SIZE);
    && w.Mapped? && w'.Mapped? && w'.addr == w.addr && w'.user == w.user
    && (OpenToWrites(m, p) ==> (w'.writable || !m.control.writeProtect) && w'.dirty)
  }

  lemma ExtensionMatters(m: Machine, p: nat, enable: bool)
    requires m.control.paging.pae || !ThroughBigEntry(m, p)
    ensures var c := m.control.paging;
            Translate(m.ram, c.(pse := enable), p * PAGE_SIZE) == Translate(m.ram, c, p * PAGE_SIZE)
  {
    hide TranslatePde, TableBase;
    var c, x := m.control.paging, p * PAGE_SIZE;
    if c.pae {
      var pdpe := c.base + x / 0x4000_0000 % 4 * 8;
      if InRam(m.ram, c, pdpe) {
        SameLayout(m.ram, c, enable, pdpe);
        ExtensionAtPde(m.ram, c, enable, x, TableBase(m.ram, c, pdpe) + PdeIndex(c, x) * 8);
      }
    } else {
      ExtensionAtPde(m.ram, c, enable, x, c.base + PdeIndex(c, x) * 4);
    }
  }

  lemma SameLayout(ram: seq<Byte>, c: Paging, enable: bool, a: nat)
    requires InRam(ram, c, a)
    ensures TableBase(ram, c.(pse := enable), a) == TableBase(ram, c, a)
    ensures c.pae ==> BigBase(ram, c.(pse := enable), a) == BigBase(ram, c, a)
  {
  }

  lemma ExtensionAtPde(ram: seq<Byte>, c: Paging, enable: bool, x: nat, pde: nat)
    requires c.pae || !(InRam(ram, c, pde) && Present(ram, pde) && BigPage(ram, pde))
    ensures TranslatePde(ram, c.(pse := enable), x, pde) == TranslatePde(ram, c, x, pde)
  {
    hide TableBase, BigBase;
    if InRam(ram, c, pde) {
      SameLayout(ram, c, enable, pde);
      var pte := TableBase(ram, c, pde) + PteIndex(c, x) * Width(c);
      if InRam(ram, c, pte) { SameLayout(ram, c, enable, pte); }
    }
  }

  ghost predicate ExtensionCanSwitch(m: Machine, enable: bool)
    requires |m.meta| == NUM_PAGES
  {
    || !m.control.enabled || m.control.paging.pae || enable == m.control.paging.pse
    || forall p: nat :: p < NUM_PAGES && InUse(m, p) && ThroughBigEntry(m, p) ==> FoundAlike(m, p)
  }

  // Mappings stay current exactly if every page in use that goes through such an entry is found alike. In PAE mode, or
  // with paging off, nothing is asked of them.
  lemma ExtensionExactly(m: Machine, enable: bool)
    requires |m.meta| == NUM_PAGES && Current(m)
    ensures Current(m.(control := m.control.(paging := m.control.paging.(pse := enable)))) <==>
              ExtensionCanSwitch(m, enable)
  {
    hide Translate, ThroughBigEntry;
    var c := m.control.paging;
    var t := m.(control := m.control.(paging := c.(pse := enable)));
    assert c.(pse := c.pse) == c;
    forall p: nat | p < NUM_PAGES && InUse(m, p)
      ensures PageInstalled(t, t.ram, t, p, false) <==>
                || !m.control.enabled || c.pae || enable == c.pse
                || (ThroughBigEntry(m, p) ==> FoundAlike(m, p))
    {
      assert PageInstalled(m, m.ram, m, p, false);
      if c.pae || !ThroughBigEntry(m, p) { ExtensionMatters(m, p, enable); }
    }
  }

  // ----- Memories in which mappings go stale

  // The state after access a, resolved in m for a read by user code, has been mapped.
  lemma ReadInstalls(m: Machine, x: nat)
    requires Inv(m) && Current(m) && x < |m.ram| && Aligned(m.control.paging)
    requires Physical(m.control, m.ram, x).Some? && Physical(m.control, m.ram, x).value < |m.ram|
    requires !Denies(m.control, m.ram, x, false, true)
    ensures var (r, ram') := Resolve(m.ram, m.clean, m.control, x, false, true);
            && r.Resolved? && r.access.Page() == x / PAGE_SIZE < |m.meta|
            && var t := Install(m.(ram := ram'), r.access);
               && Inv(t) && Current(t) && SameButMarks(m.control.paging, m.ram, t.ram) && !TrapsAt(t, x, false, true)
               && Physical(m.control, m.ram, x) == Some(Target(t.host, x))
  {
    SizesOf(m);
    hide Inv, Current, Denies, SameButMarks, Resolve, Physical, MetadataBits, UserAllowed, ShouldTrap, Target;
    hide LeafDirty;
    ResolveIsProper(m.ram, m.clean, m.control, x, false, true);
    ResolveFollowsTranslation(m.ram, m.clean, m.control, x, false, true);
    ResolvesIfInRam(m, x);
    var (r, ram') := Resolve(m.ram, m.clean, m.control, x, false, true);
    var s := m.(ram := ram');
    RamKeepsInv(m, ram');
    InstallKeepsInv(s, r.access);
    MappingStaysCurrent(m, Install(s, r.access), x, false, true);
    InstalledTarget(s, r.access, x);
  }

  lemma InstalledTarget(m: Machine, a: ResolvedAccess, x: nat)
    requires |m.meta| == NUM_PAGES && a.emuAddr == x && a.Page() < NUM_PAGES && a.physAddr % PAGE_SIZE == x % PAGE_SIZE
    ensures Target(Install(m, a).host, x) == a.physAddr
  {
    hide MetadataBits;
  }

  lemma ResolvesIfInRam(m: Machine, x: nat)
    requires Sizes(m) && x < MAX_RAM && Aligned(m.control.paging) && !Denies(m.control, m.ram, x, false, true)
    requires Physical(m.control, m.ram, x).Some? && Physical(m.control, m.ram, x).value < |m.ram|
    ensures Resolve(m.ram, m.clean, m.control, x, false, true).0.Resolved?
  {
    if m.control.enabled { WalkIsTranslation(m.control.paging, m.ram, x, true); }
    hide Translate, WalkTables;
  }

  // User code reads page 2 with paging off. When paging is switched on, over tables that map nothing, it still can.
  lemma PageOutlivesPaging()
    ensures var m := Fresh(seq(0x3000, _ => 0), Control(false, false, Paging(0, false, false)));
            var (r, ram') := Resolve(m.ram, m.clean, m.control, 0x2000, false, true);
            && Inv(m) && Current(m) && Strict(m) && r.Resolved? && r.access.Page() < |m.meta|
            && var t := Install(m.(ram := ram'), r.access);
               var on := t.(control := Control(true, false, Paging(0, false, false)));
               && Inv(t) && Current(t)
               && !TrapsAt(on, 0x2000, false, true) && Denies(on.control, on.ram, 0x2000, false, true)
  {
    var c := Paging(0, false, false);
    var m := Fresh(seq(0x3000, _ => 0), Control(false, false, c));
    FreshIsStrict(m.ram, m.control);
    ReadInstalls(m, 0x2000);
    assert Resolve(m.ram, m.clean, m.control, 0x2000, false, true).1 == m.ram;
    assert PdeIndex(c, 0x2000) == 0 && InRam(m.ram, c, 0) && m.ram[0] == 0;
    assert Translate(m.ram, c, 0x2000) == Unmapped(Pde, 0);
  }

  // The system writes to a read-only page with write protection off. When it is switched on, it still can.
  lemma PageOutlivesProtection(v: Byte, advise: (nat, nat) -> Advice)
    requires advise(0x2000, 1) == DirtyOk
    ensures var m := Fresh(ReadOnlyPage(), Control(true, false, Paging(0, false, false)));
            var (r, ram') := Resolve(m.ram, m.clean, m.control, 0, true, false);
            && Inv(m) && Current(m) && Strict(m)
            && r.Resolved? && r.access.Page() < |m.meta| && r.access.Frame() < |m.clean|
            && var t := TrappedWrite(m.(ram := ram'), r.access, [v], advise).1;
               var on := t.(control := t.control.(writeProtect := true));
               && Inv(t) && Current(t)
               && !TrapsAt(on, 0, true, false) && Denies(on.control, on.ram, 0, true, false)
  {
    SystemWriteOpensPage(v, advise);
    var m := Fresh(ReadOnlyPage(), Control(true, false, Paging(0, false, false)));
    var (r, ram') := Resolve(m.ram, m.clean, m.control, 0, true, false);
    hide Fresh, ReadOnlyPage, Resolve, TrappedWrite, Current, Translate;
    var t := TrappedWrite(m.(ram := ram'), r.access, [v], advise).1;
    CurrentWritesAgree(t, 0, true);
    TrapsWhenRequired(t.meta[0], true, true);
    TrapsWhenRequired(t.meta[0], true, false);
  }

  // A directory entry at 0 with the big-page bit, which leads to a table at 0x1000 that maps page 0 to frame 2. As a
  // big page it maps page 0 to frame 0.
  function TwofoldPage(): seq<Byte> {
    seq(0x3000, i =>
      if i == 0 then 0x87 else if i == 1 then 0x10 else if i == 0x1000 then 7 else if i == 0x1001 then 0x20 else 0)
  }

  lemma TwofoldPageTranslates(pse: bool)
    ensures var w := Translate(TwofoldPage(), Paging(0, pse, false), 0);
            w.Mapped? && w.user && w.addr == if pse then 0 else 0x2000
  {
    var ram, c := TwofoldPage(), Paging(0, pse, false);
    assert At(ram, 0) == 0x87 && At(ram, 1) == 0x10 && At(ram, 2) == 0 && At(ram, 3) == 0;
    assert At(ram, 0x1000) == 7 && At(ram, 0x1001) == 0x20 && At(ram, 0x1002) == 0 && At(ram, 0x1003) == 0;
    hide TwofoldPage;
    TwofoldEntries(ram, c);
    hide TableBase, BigBase, TranslatePde, PdeIndex;
    assert c.base + PdeIndex(c, 0) * 4 == 0 by { FirstIndices(c); }
  }

  lemma FirstIndices(c: Paging)
    ensures PdeIndex(c, 0) == 0 && PteIndex(c, 0) == 0 && BigOffset(c, 0) == 0
  {
  }

  lemma TwofoldEntries(ram: seq<Byte>, c: Paging)
    requires |ram| == 0x3000 && !c.pae
    requires At(ram, 0) == 0x87 && At(ram, 1) == 0x10 && At(ram, 2) == 0 && At(ram, 3) == 0
    requires At(ram, 0x1000) == 7 && At(ram, 0x1001) == 0x20 && At(ram, 0x1002) == 0 && At(ram, 0x1003) == 0
    ensures var w := TranslatePde(ram, c, 0, 0);
            w.Mapped? && w.user && w.addr == if c.pse then 0 else 0x2000
  {
    assert TableBase(ram, c, 0) == 0x1000 && TableBase(ram, c, 0x1000) == 0x2000 && BigBase(ram, c, 0) == 0;
    hide TableBase, BigBase, PteIndex, BigOffset;
    FirstIndices(c);
    assert BigPage(ram, 0) && Present(ram, 0) && User(ram, 0) && Present(ram, 0x1000) && User(ram, 0x1000);
    hide BigPage, Present, User, Writable, Dirty;
  }

  // User code reads that page with the extension off. When it is switched on, it goes on reading frame 2.
  lemma PageOutlivesExtension()
    ensures var m := Fresh(TwofoldPage(), Control(true, false, Paging(0, false, false)));
            var (r, ram') := Resolve(m.ram, m.clean, m.control, 0, false, true);
            && Inv(m) && Current(m) && Strict(m) && r.Resolved? && r.access.Page() < |m.meta|
            && var t := Install(m.(ram := ram'), r.access);
               var on := t.(control := Control(true, false, Paging(0, true, false)));
               && Inv(t) && Current(t) && !TrapsAt(on, 0, false, true)
               && Target(on.host, 0) == 0x2000 && Physical(on.control, on.ram, 0) == Some(0)
  {
    var c, c' := Paging(0, false, false), Paging(0, true, false);
    var m := Fresh(TwofoldPage(), Control(true, false, c));
    FreshIsStrict(m.ram, m.control);
    TwofoldPageTranslates(false);
    TwofoldPageTranslates(true);
    hide TwofoldPage, Translate, Resolve, SameButMarks;
    ReadInstalls(m, 0);
    var ram' := Resolve(m.ram, m.clean, m.control, 0, false, true).1;
    assert SameButMarks(c', m.ram, ram') by { SameMarks(c, c', m.ram, ram'); }
    MarksAreTransparent(c', m.ram, ram', 0);
  }

  lemma SameMarks(c: Paging, c': Paging, ram: seq<Byte>, ram': seq<Byte>)
    requires c.pae == c'.pae && SameButMarks(c, ram, ram')
    ensures SameButMarks(c', ram, ram')
  {
    hide SameFlags;
    forall a: nat | a < |ram| ensures SameByte(c', a, ram[a], ram'[a]) {
      assert SameByte(c, a, ram[a], ram'[a]);
    }
  }
}
