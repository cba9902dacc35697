/** Where accesses go, what pages they map, and what an access that walks resolved has to do with translation. */
module Accesses {
  import opened Bytes
  import opened Memory
  import opened Metadata
  import opened Options
  import opened PageTables

  // ----- Where an access goes, judged before it is made

  predicate IsWidth(n: nat) { n == 1 || n == 2 || n == 4 || n == 8 }

  predicate Crosses(x: nat, n: nat) { x % PAGE_SIZE + n > PAGE_SIZE }

  ghost predicate DeniedAt(m: Machine, x: nat, isWrite: bool, isUser: bool)
    requires |m.meta| == NUM_PAGES && x < MAX_RAM
  {
    TrapsAt(m, x, isWrite, isUser) && Denies(m.control, m.ram, x, isWrite, isUser)
  }

  // The fault reported at x is the one translation calls for.
  ghost predicate FaultFits(m: Machine, code: FaultCode, x: nat, isWrite: bool, isUser: bool)
    requires |m.meta| == NUM_PAGES && x < MAX_RAM
  {
    DeniedAt(m, x, isWrite, isUser) && code == FaultCode(Physical(m.control, m.ram, x).Some?, isWrite, isUser)
  }

  ghost predicate FailsAt(m: Machine, x: nat, isWrite: bool, isUser: bool)
    requires |m.meta| == NUM_PAGES && x < MAX_RAM
  {
    TrapsAt(m, x, isWrite, isUser) && Fails(m.control, m.ram, x, isWrite, isUser)
  }

  // The access does not get past x.
  ghost predicate StopsAt(m: Machine, x: nat, isWrite: bool, isUser: bool)
    requires |m.meta| == NUM_PAGES && x < MAX_RAM
  {
    DeniedAt(m, x, isWrite, isUser) || FailsAt(m, x, isWrite, isUser)
  }

  lemma DeniedOrFails(m: Machine, x: nat, isWrite: bool, isUser: bool)
    requires |m.meta| == NUM_PAGES && x < MAX_RAM
    ensures !(DeniedAt(m, x, isWrite, isUser) && FailsAt(m, x, isWrite, isUser))
  {
    hide Translate;
  }

  // The physical address an access to x reaches: through the host mapping, or by translation if it is trapped.
  ghost function Destination(m: Machine, x: nat, isWrite: bool, isUser: bool): Option<nat>
    requires |m.meta| == NUM_PAGES && x < MAX_RAM
  {
    if TrapsAt(m, x, isWrite, isUser) then Physical(m.control, m.ram, x) else Some(Target(m.host, x))
  }

  ghost predicate Backed(m: Machine, x: nat, isWrite: bool, isUser: bool)
    requires |m.meta| == NUM_PAGES && x < MAX_RAM
  {
    TrapsAt(m, x, isWrite, isUser) ==>
      var p := Physical(m.control, m.ram, x); p.Some? ==> p.value / PAGE_SIZE !in m.devices && p.value < |m.ram|
  }

  lemma MarksKeepPhysical(control: Control, ram: seq<Byte>, ram': seq<Byte>, x: nat, isWrite: bool, isUser: bool)
    requires |ram| <= MAX_RAM && Aligned(control.paging) && SameButMarks(control.paging, ram, ram')
    ensures Physical(control, ram', x) == Physical(control, ram, x)
    ensures UserAllowed(control, ram', x) == UserAllowed(control, ram, x)
    ensures Denies(control, ram', x, isWrite, isUser) == Denies(control, ram, x, isWrite, isUser)
    ensures Fails(control, ram', x, isWrite, isUser) == Fails(control, ram, x, isWrite, isUser)
  {
    hide Translate, SameButMarks;
    MarksAreTransparent(control.paging, ram, ram', x);
  }

  lemma PhysicalIsPagewise(control: Control, ram: seq<Byte>, x: nat, y: nat)
    requires x / PAGE_SIZE == y / PAGE_SIZE
    ensures Physical(control, ram, x).Some? <==> Physical(control, ram, y).Some?
    ensures UserAllowed(control, ram, x) == UserAllowed(control, ram, y)
    ensures Physical(control, ram, x).Some? ==>
              Physical(control, ram, y).value - y % PAGE_SIZE == Physical(control, ram, x).value - x % PAGE_SIZE
  {
    hide Translate;
    TranslationIsPagewise(control.paging, ram, x);
    TranslationIsPagewise(control.paging, ram, y);
  }

  lemma PagewiseDenial(control: Control, ram: seq<Byte>, x: nat, isWrite: bool, isUser: bool)
    ensures Denies(control, ram, x / PAGE_SIZE * PAGE_SIZE, isWrite, isUser) == Denies(control, ram, x, isWrite, isUser)
  {
    hide Translate;
    TranslationIsPagewise(control.paging, ram, x);
  }

  lemma PagewiseFailure(control: Control, ram: seq<Byte>, x: nat, y: nat, isWrite: bool, isUser: bool)
    requires x / PAGE_SIZE == y / PAGE_SIZE
    ensures Fails(control, ram, x, isWrite, isUser) == Fails(control, ram, y, isWrite, isUser)
  {
    hide Translate;
    TranslationIsPagewise(control.paging, ram, x);
    TranslationIsPagewise(control.paging, ram, y);
    TranslationOffset(control.paging, ram, x);
    TranslationOffset(control.paging, ram, y);
  }

  lemma PagewiseDirt(control: Control, ram: seq<Byte>, x: nat)
    ensures LeafDirty(control, ram, x / PAGE_SIZE * PAGE_SIZE) == LeafDirty(control, ram, x)
  {
    hide Translate;
    TranslationIsPagewise(control.paging, ram, x);
  }

  lemma DirtStays(control: Control, ram: seq<Byte>, ram': seq<Byte>, x: nat)
    requires |ram| <= MAX_RAM && Aligned(control.paging) && SameButMarks(control.paging, ram, ram')
    ensures LeafDirty(control, ram, x) ==> LeafDirty(control, ram', x)
  {
    hide Translate, SameButMarks;
    if control.enabled && LeafDirty(control, ram, x) {
      DirtyStays(control.paging, ram, ram', x);
    }
  }

  // Moving within the page of an access changes neither its frame nor whether RAM backs it.
  lemma OffsetStaysInFrame(m: Machine, a: ResolvedAccess, k: nat)
    requires a.physAddr % PAGE_SIZE + k < PAGE_SIZE
    ensures a.WithOffset(k).Frame() == a.Frame()
    ensures |m.ram| % PAGE_SIZE == 0 ==> (RamBacked(m, Some(a.WithOffset(k))) <==> RamBacked(m, Some(a)))
  {
  }

  // ----- Bytes and pages

  lemma PageOfByte(x: nat, n: nat)
    requires n <= 8
    ensures (x + n) / PAGE_SIZE == if x % PAGE_SIZE + n < PAGE_SIZE then x / PAGE_SIZE else x / PAGE_SIZE + 1
    ensures Crosses(x, n) ==>
              NextPage(x) / PAGE_SIZE == x / PAGE_SIZE + 1 && NextPage(x) % PAGE_SIZE == 0 && NextPage(x) <= x + n
  {
  }

  // Every byte of a span within one page traps as its first byte does.
  lemma OnePageUntrapped(m: Machine, x: nat, n: nat, isWrite: bool, isUser: bool)
    requires |m.meta| == NUM_PAGES && x + n <= MAX_RAM && x % PAGE_SIZE + n <= PAGE_SIZE && 1 <= n
    requires !TrapsAt(m, x, isWrite, isUser)
    ensures Untrapped(m, x, n, isWrite, isUser)
  {
  }

  lemma SameTrap(m: Machine, x: nat, y: nat, isWrite: bool, isUser: bool)
    requires |m.meta| == NUM_PAGES && x < MAX_RAM && y < MAX_RAM && x / PAGE_SIZE == y / PAGE_SIZE
    ensures TrapsAt(m, x, isWrite, isUser) == TrapsAt(m, y, isWrite, isUser)
  {
  }

  // Aligned accesses of these widths stay within a page; others end on the page of their last byte.
  lemma EndsUntrapped(m: Machine, x: nat, n: nat, isWrite: bool, isUser: bool)
    requires |m.meta| == NUM_PAGES && IsWidth(n) && x + n <= MAX_RAM
    requires !TrapsAt(m, x, isWrite, isUser) && (x % n == 0 || !TrapsAt(m, x + n - 1, isWrite, isUser))
    ensures Untrapped(m, x, n, isWrite, isUser)
  {
    hide ShouldTrap;
    forall y: nat | x <= y < x + n
      ensures y / PAGE_SIZE == x / PAGE_SIZE || (x % n != 0 && y / PAGE_SIZE == (x + n - 1) / PAGE_SIZE)
    {
      PageOfByte(x, y - x);
      PageOfByte(x, n - 1);
      if x % n == 0 { AlignedStaysInPage(x, n); }
    }
  }

  lemma AlignedStaysInPage(x: nat, n: nat)
    requires IsWidth(n) && x % n == 0
    ensures !Crosses(x, n)
  {
    var page, r := x / PAGE_SIZE, x % PAGE_SIZE;
    assert x == page * 4096 + r;
    if n == 2 { assert r == 2 * (x / 2 - page * 2048); }
    if n == 4 { assert r == 4 * (x / 4 - page * 1024); }
    if n == 8 { assert r == 8 * (x / 8 - page * 512); }
  }

  predicate SameAt<V(==)>(pages: map<nat, V>, pages': map<nat, V>, p: nat) {
    (p in pages <==> p in pages') && (p in pages ==> pages[p] == pages'[p])
  }

  // Page p is mapped as before, and traps as before.
  predicate PageKept(m: Machine, t: Machine, p: nat)
    requires |m.meta| == |t.meta| == NUM_PAGES
  {
    && SameAt(t.host, m.host, p) && SameAt(t.mappings, m.mappings, p) && SameAt(t.tlb, m.tlb, p)
    && (p < NUM_PAGES ==> t.meta[p] == m.meta[p])
  }

  predicate SamePages(m: Machine, t: Machine) {
    t.meta == m.meta && t.host == m.host && t.mappings == m.mappings && t.tlb == m.tlb
  }

  lemma SamePagesAreKept(m: Machine, t: Machine)
    requires |m.meta| == NUM_PAGES && SamePages(m, t)
    ensures forall p: nat :: PageKept(m, t, p)
  {
  }

  // The page is mapped to the frame of access a, with its permissions, and that is what is recorded for it.
  ghost predicate InstalledAt(t: Machine, a: ResolvedAccess, page: nat)
    requires |t.meta| == NUM_PAGES
  {
    && page in t.host && t.host[page] == a.Frame() && page in t.mappings && t.mappings[page] == a.Frame()
    && page in t.tlb && t.tlb[page] == TlbEntry(a.Frame(), a.writable, a.user)
    && page < NUM_PAGES && t.meta[page] == MetadataBits(!a.user, !a.writable)
  }

  lemma InstallMaps(m: Machine, t: Machine, a: ResolvedAccess)
    requires |m.meta| == NUM_PAGES && a.Page() < NUM_PAGES && SamePages(Install(m, a), t)
    ensures InstalledAt(t, a, a.Page()) && forall p: nat :: p != a.Page() ==> PageKept(m, t, p)
  {
    hide MetadataBits;
  }

  // Access r, if there is one, goes to RAM and is what the page is mapped for.
  ghost predicate Maps(m: Machine, t: Machine, r: Option<ResolvedAccess>, page: nat)
    requires |t.meta| == NUM_PAGES
  {
    r.Some? && InstalledAt(t, r.value, page) && RamBacked(m, r)
  }

  // ----- What the walks of an access resolved

  // a is what resolving x finds, at one point of the walks of access k: ram is what they left before it, and fin is
  // what they leave in the end.
  ghost predicate ResolvedIn(m: Machine, ram: seq<Byte>, fin: seq<Byte>, a: ResolvedAccess, x: nat, k: Access)
    requires |m.clean| == NUM_PAGES
  {
    && k.Covers(x) && Walked(m, k, ram)
    && var (r, ram') := Resolve(ram, m.clean, m.control, x, k.isWrite, k.isUser);
       r == Resolved(a) && Walked(m.(ram := ram'), k, fin)
  }

  ghost predicate AccessFrom(m: Machine, fin: seq<Byte>, a: ResolvedAccess, x: nat, k: Access)
    requires |m.clean| == NUM_PAGES
  {
    exists ram: seq<Byte> :: ResolvedIn(m, ram, fin, a, x, k)
  }

  lemma ResolvedFirst(m: Machine, fin: seq<Byte>, a: ResolvedAccess, x: nat, k: Access)
    requires |m.clean| == NUM_PAGES && k.Covers(x)
    requires Resolve(m.ram, m.clean, m.control, x, k.isWrite, k.isUser) == (Resolved(a), fin)
    ensures AccessFrom(m, fin, a, x, k)
  {
    hide Resolve, Walked;
    WalkedRefl(m, k);
    WalkedRefl(m.(ram := fin), k);
    assert ResolvedIn(m, m.ram, fin, a, x, k);
  }

  lemma ResolvedLater(m: Machine, fin: seq<Byte>, fin': seq<Byte>, a: ResolvedAccess, x: nat, k: Access)
    requires |m.clean| == NUM_PAGES
    ensures AccessFrom(m, fin, a, x, k) && Walked(m.(ram := fin), k, fin') ==> AccessFrom(m, fin', a, x, k)
  {
    hide Resolve, Walked;
    if ram: seq<Byte> :| ResolvedIn(m, ram, fin, a, x, k) && Walked(m.(ram := fin), k, fin') {
      WalkedTrans(m.(ram := Resolve(ram, m.clean, m.control, x, k.isWrite, k.isUser).1), m.(ram := fin), k, fin');
      assert ResolvedIn(m, ram, fin', a, x, k);
    }
  }

  lemma ResolvedBefore(m0: Machine, m: Machine, fin: seq<Byte>, a: ResolvedAccess, x: nat, k: Access)
    requires |m0.clean| == NUM_PAGES && m.clean == m0.clean && m.control == m0.control
    ensures Walked(m0, k, m.ram) && AccessFrom(m, fin, a, x, k) ==> AccessFrom(m0, fin, a, x, k)
  {
    hide Resolve, Walked;
    if ram: seq<Byte> :| Walked(m0, k, m.ram) && ResolvedIn(m, ram, fin, a, x, k) {
      var ram' := Resolve(ram, m.clean, m.control, x, k.isWrite, k.isUser).1;
      WalkedTrans(m0, m, k, ram);
      WalkedElsewhere(m.(ram := ram'), m0.(ram := ram'), k, fin);
      assert ResolvedIn(m0, ram, fin, a, x, k);
    }
  }

  // Walks depend on RAM, clean frames and control state only.
  lemma WalkedElsewhere(m: Machine, m': Machine, k: Access, fin: seq<Byte>)
    requires |m.clean| == NUM_PAGES && m'.ram == m.ram && m'.clean == m.clean && m'.control == m.control
    requires Walked(m, k, fin)
    ensures Walked(m', k, fin)
  {
    hide Walked;
    WalkedRefl(m', k);
    WalkedTrans(m', m, k, fin);
  }

  lemma ResolvedWider(m: Machine, fin: seq<Byte>, a: ResolvedAccess, x: nat, k: Access, wide: Access)
    requires |m.clean| == NUM_PAGES && k.Within(wide)
    ensures AccessFrom(m, fin, a, x, k) ==> AccessFrom(m, fin, a, x, wide)
  {
    hide Resolve, Walked;
    if ram: seq<Byte> :| ResolvedIn(m, ram, fin, a, x, k) {
      WalkedWider(m, k, wide, ram);
      WalkedWider(m.(ram := Resolve(ram, m.clean, m.control, x, k.isWrite, k.isUser).1), k, wide, fin);
      assert ResolvedIn(m, ram, fin, a, x, wide);
    }
  }

  lemma AccessIsProper(m: Machine, fin: seq<Byte>, a: ResolvedAccess, x: nat, k: Access)
    requires |m.clean| == NUM_PAGES && AccessFrom(m, fin, a, x, k)
    ensures x < MAX_RAM && k.Covers(x) && Proper(m.clean, a, x, k.isWrite, k.isUser)
  {
    hide Resolve, Walked;
    var ram: seq<Byte> :| ResolvedIn(m, ram, fin, a, x, k);
    ResolveIsProper(ram, m.clean, m.control, x, k.isWrite, k.isUser);
  }

  // The access resolved for x is the one that translation calls for, and may be written only if a write is granted.
  predicate Follows(m: Machine, a: ResolvedAccess, x: nat, isUser: bool) {
    && Physical(m.control, m.ram, x) == Some(a.physAddr) && a.user == UserAllowed(m.control, m.ram, x)
    && (a.writable ==> !Denies(m.control, m.ram, x, true, isUser))
  }

  // With an aligned base the walks around it do not matter: it is the one that translation in m calls for.
  lemma AccessFollows(m: Machine, fin: seq<Byte>, a: ResolvedAccess, x: nat, k: Access)
    requires |m.clean| == NUM_PAGES && |m.ram| <= MAX_RAM && Aligned(m.control.paging) && AccessFrom(m, fin, a, x, k)
    ensures Follows(m, a, x, k.isUser) && !Denies(m.control, m.ram, x, k.isWrite, k.isUser)
    ensures !Fails(m.control, m.ram, x, k.isWrite, k.isUser)
    ensures a.writable ==> LeafDirty(m.control, fin, x)
  {
    hide Resolve, SameButMarks, OnlyMarks, Denies, Fails, OutOfRange, LeafDirty, Physical, UserAllowed, Walked;
    var c := m.control;
    var ram: seq<Byte> :| ResolvedIn(m, ram, fin, a, x, k);
    var ram' := Resolve(ram, m.clean, c, x, k.isWrite, k.isUser).1;
    WalkedMarks(m, k, ram);
    WalkedLength(m, k, ram);
    MarksKeepPhysical(c, m.ram, ram, x, k.isWrite, k.isUser);
    MarksKeepPhysical(c, m.ram, ram, x, true, k.isUser);
    ResolveFollowsTranslation(ram, m.clean, c, x, k.isWrite, k.isUser);
    ResolveGrantsWrites(ram, m.clean, c, x, k.isWrite, k.isUser);
    ResolveFailsExactly(ram, m.clean, c, x, k.isWrite, k.isUser);
    ResolveIsProper(ram, m.clean, c, x, k.isWrite, k.isUser);
    WalkedMarks(m.(ram := ram'), k, fin);
    DirtStays(c, ram', fin, x);
  }

  // One of the walks of access k, of an address whose page traps it, comes to r.
  ghost predicate ComesTo(m: Machine, ram: seq<Byte>, y: nat, k: Access, r: Resolution)
    requires |m.meta| == |m.clean| == NUM_PAGES
  {
    && k.Covers(y) && TrapsAt(m, y, k.isWrite, k.isUser) && Walked(m, k, ram)
    && Resolve(ram, m.clean, m.control, y, k.isWrite, k.isUser).0 == r
  }

  ghost predicate EndsIn(m: Machine, k: Access, r: Resolution)
    requires |m.meta| == |m.clean| == NUM_PAGES
  {
    exists ram: seq<Byte>, y: nat :: ComesTo(m, ram, y, k, r)
  }

  // A failure so found is a walk out of range.
  lemma FailureIsOutOfRange(m: Machine, k: Access)
    requires |m.meta| == |m.clean| == NUM_PAGES && EndsIn(m, k, HostFailure)
    ensures m.control.enabled
    ensures exists ram: seq<Byte>, y: nat ::
              && k.Covers(y) && TrapsAt(m, y, k.isWrite, k.isUser) && Walked(m, k, ram)
              && OutOfRange(m.control, WalkTables(ram, m.control.paging, y, true).0, k.isWrite, k.isUser)
  {
    hide Resolve, Walked, OutOfRange, ShouldTrap, WalkTables;
    var ram: seq<Byte>, y: nat :| ComesTo(m, ram, y, k, HostFailure);
    ResolveFailsExactly(ram, m.clean, m.control, y, k.isWrite, k.isUser);
  }

  lemma EndsAtOnce(m: Machine, y: nat, k: Access)
    requires |m.meta| == |m.clean| == NUM_PAGES && k.Covers(y) && TrapsAt(m, y, k.isWrite, k.isUser)
    ensures EndsIn(m, k, Resolve(m.ram, m.clean, m.control, y, k.isWrite, k.isUser).0)
  {
    hide Resolve, Walked, ShouldTrap;
    WalkedRefl(m, k);
    assert ComesTo(m, m.ram, y, k, Resolve(m.ram, m.clean, m.control, y, k.isWrite, k.isUser).0);
  }

  // What the walks of part of an access come to after others of its walks, so does one of its own.
  lemma EndsLater(m0: Machine, m: Machine, k: Access, wide: Access, r: Resolution)
    requires |m0.meta| == |m.meta| == |m0.clean| == NUM_PAGES && m.clean == m0.clean && m.control == m0.control
    requires k.Within(wide) && Walked(m0, wide, m.ram) && EndsIn(m, k, r)
    requires forall y: nat :: k.Covers(y) && TrapsAt(m, y, k.isWrite, k.isUser) ==> TrapsAt(m0, y, k.isWrite, k.isUser)
    ensures EndsIn(m0, wide, r)
  {
    hide Resolve, Walked, ShouldTrap;
    var ram: seq<Byte>, y: nat :| ComesTo(m, ram, y, k, r);
    WalkedWider(m, k, wide, ram);
    WalkedTrans(m0, m, wide, ram);
    assert ComesTo(m0, ram, y, wide, r);
  }

  lemma EndsWider(m: Machine, k: Access, wide: Access, r: Resolution)
    requires |m.meta| == |m.clean| == NUM_PAGES && k.Within(wide) && EndsIn(m, k, r)
    ensures EndsIn(m, wide, r)
  {
    hide Walked, EndsIn, ShouldTrap;
    WalkedRefl(m, wide);
    EndsLater(m, m, k, wide, r);
  }

  // Page p is mapped by an access that was resolved in this way and that RAM backs.
  ghost predicate MappedBy(m: Machine, fin: seq<Byte>, t: Machine, a: ResolvedAccess, p: nat, k: Access)
    requires |m.clean| == |t.meta| == NUM_PAGES
  {
    a.Page() == p && AccessFrom(m, fin, a, a.emuAddr, k) && Maps(m, t, Some(a), p)
  }

  ghost predicate PageMapped(m: Machine, fin: seq<Byte>, t: Machine, p: nat, k: Access)
    requires |m.clean| == |t.meta| == NUM_PAGES
  {
    exists a: ResolvedAccess :: MappedBy(m, fin, t, a, p, k)
  }

  // Whatever the base of the tables, and whatever device or advice the bytes of access k met: every page is as before,
  // or trapped the access and is mapped by what was resolved for an address of the access in it.
  ghost predicate PagesAgree(m: Machine, fin: seq<Byte>, t: Machine, k: Access)
    requires |m.meta| == |m.clean| == |t.meta| == NUM_PAGES
  {
    forall p: nat :: p < NUM_PAGES && !PageKept(m, t, p) ==>
      Traps(m, p, k.isWrite, k.isUser) && PageMapped(m, fin, t, p, k)
  }

  // So a page that the access does not touch is kept.
  lemma UntouchedPageKept(m: Machine, fin: seq<Byte>, t: Machine, k: Access, p: nat)
    requires |m.meta| == |m.clean| == |t.meta| == NUM_PAGES && p < NUM_PAGES && PagesAgree(m, fin, t, k)
    requires forall y: nat :: k.Covers(y) ==> y / PAGE_SIZE != p
    ensures PageKept(m, t, p)
  {
    hide AccessFrom, PageKept, Maps;
    if a: ResolvedAccess :| MappedBy(m, fin, t, a, p, k) {
      AccessIsProper(m, fin, a, a.emuAddr, k);
    }
  }

  // Page p is mapped where translation in m says, for user code if translation grants it, and for writing only if
  // translation grants an access of this privilege to write and the entry, in ram, is marked dirty.
  predicate PageInstalled(m: Machine, ram: seq<Byte>, t: Machine, p: nat, isUser: bool)
    requires |m.meta| == |t.meta| == NUM_PAGES && p < NUM_PAGES
  {
    && p in t.host && Physical(m.control, m.ram, p * PAGE_SIZE) == Some(t.host[p] * PAGE_SIZE)
    && (t.meta[p] & TRAP_USER == 0 <==> UserAllowed(m.control, m.ram, p * PAGE_SIZE))
    && (t.meta[p] & TRAP_WRITE == 0 ==>
          !Denies(m.control, m.ram, p * PAGE_SIZE, true, isUser) && LeafDirty(m.control, ram, p * PAGE_SIZE))
  }

  // With an aligned base such a page is mapped where translation says, and translation grants the access.
  lemma MappedIsInstalled(m: Machine, fin: seq<Byte>, t: Machine, p: nat, k: Access)
    requires Sizes(m) && |t.meta| == NUM_PAGES && p < NUM_PAGES && Aligned(m.control.paging)
    requires PageMapped(m, fin, t, p, k)
    ensures PageInstalled(m, fin, t, p, k.isUser) && !Denies(m.control, m.ram, p * PAGE_SIZE, k.isWrite, k.isUser)
    ensures !Fails(m.control, m.ram, p * PAGE_SIZE, k.isWrite, k.isUser)
    ensures Backed(m, p * PAGE_SIZE, k.isWrite, k.isUser)
  {
    hide AccessFrom, Denies, Fails, LeafDirty, Physical, UserAllowed, MetadataBits, ShouldTrap;
    var a: ResolvedAccess :| MappedBy(m, fin, t, a, p, k);
    var x := a.emuAddr;
    AccessFollows(m, fin, a, x, k);
    AccessIsProper(m, fin, a, x, k);
    MetadataBitsMeaning(!a.user, !a.writable);
    PhysicalIsPagewise(m.control, m.ram, x, p * PAGE_SIZE);
    PagewiseDenial(m.control, m.ram, x, k.isWrite, k.isUser);
    PagewiseDenial(m.control, m.ram, x, true, k.isUser);
    PagewiseFailure(m.control, m.ram, x, p * PAGE_SIZE, k.isWrite, k.isUser);
    PagewiseDirt(m.control, fin, x);
  }
}
