/**
 The software MMU: linear accesses go straight to host-mapped RAM when the page's trap bits allow it, and through
 a page walk otherwise. This module holds its state as a value, the resolution of an access, and the invariant
 of every run; class Mem32 carries them out.
 */
module Memory {
  import opened Bytes
  import opened Histories
  import opened Options
  import opened PageTables
  import opened Metadata

  // What the last resolution that installed a mapping for a page found.
  datatype TlbEntry = TlbEntry(frame: nat, writable: bool, user: bool)

  // CR0.PG, CR0.WP and what the walk depends on.
  datatype Control = Control(enabled: bool, writeProtect: bool, paging: Paging)

  datatype Machine = Machine(
    control: Control,
    ram: seq<Byte>,
    meta: seq<bv8>,
    clean: seq<bool>,
    devices: map<nat, nat>,
    mappings: map<nat, nat>,
    host: map<nat, nat>,
    tlb: map<nat, TlbEntry>,
    log: seq<Event>)

  datatype FaultCode = FaultCode(present: bool, isWrite: bool, isUser: bool)

  datatype ResolvedAccess = ResolvedAccess(
    emuAddr: nat, physAddr: nat, writable: bool, needsDirtyMark: bool, user: bool)
  {
    function Page(): nat { emuAddr / PAGE_SIZE }
    function Frame(): nat { physAddr / PAGE_SIZE }
    function WithOffset(n: nat): ResolvedAccess { this.(emuAddr := emuAddr + n, physAddr := physAddr + n) }
  }

  // HostFailure: the walk or the clean bitmap was indexed out of range, which ends the emulator.
  datatype Resolution = Resolved(access: ResolvedAccess) | PageFault(code: FaultCode, addr: nat) | HostFailure

  // ----- Resolving an access

  predicate WriteAllowed(control: Control, w: Walk, isUser: bool)
    requires w.Mapped?
  {
    w.writable || (!isUser && !control.writeProtect)
  }

  function ResolveMapped(ram: seq<Byte>, clean: seq<bool>, control: Control, x: nat, w: Walk, isWrite: bool,
                         isUser: bool)
    : (Resolution, seq<Byte>)
    requires w.Mapped? && w.leaf < |ram| && |clean| == NUM_PAGES
  {
    if !WriteAllowed(control, w, isUser) && isWrite then (PageFault(FaultCode(true, isWrite, isUser), x), ram)
    else if !w.user && isUser then (PageFault(FaultCode(true, isWrite, isUser), x), ram)
    else
      var ram' := if isWrite && !w.dirty then MarkDirty(ram, w.leaf) else ram;
      var frame := w.addr / PAGE_SIZE;
      if frame >= NUM_PAGES then (HostFailure, ram')
      else
        var dirty := !clean[frame];
        var writable := isWrite || (WriteAllowed(control, w, isUser) && w.dirty && dirty);
        (Resolved(ResolvedAccess(x, w.addr, writable, isWrite && !dirty, w.user)), ram')
  }

  function Resolve(ram: seq<Byte>, clean: seq<bool>, control: Control, x: nat, isWrite: bool,
                   isUser: bool): (Resolution, seq<Byte>)
    requires x < MAX_RAM && |clean| == NUM_PAGES
  {
    if !control.enabled then
      var dirty := !clean[x / PAGE_SIZE];
      (Resolved(ResolvedAccess(x, x, isWrite || dirty, isWrite && !dirty, true)), ram)
    else
      var (w, ram') := WalkTables(ram, control.paging, x, true);
      match w
      case Outside => (HostFailure, ram')
      case Unmapped(_, _) => (PageFault(FaultCode(false, isWrite, isUser), x), ram')
      case Mapped(_, _, _, _, _, _, _) => ResolveMapped(ram', clean, control, x, w, isWrite, isUser)
  }

  // The walk finds no translation, or one that does not permit the access.
  predicate Denies(control: Control, ram: seq<Byte>, x: nat, isWrite: bool, isUser: bool) {
    && control.enabled
    && var w := Translate(ram, control.paging, x);
       || w.Unmapped?
       || (w.Mapped? && ((isWrite && !WriteAllowed(control, w, isUser)) || (isUser && !w.user)))
  }

  // What a walk found is out of range: an entry beyond RAM, or a frame beyond the clean bitmap that the access may use.
  predicate OutOfRange(control: Control, w: Walk, isWrite: bool, isUser: bool) {
    || w.Outside?
    || (&& w.Mapped? && (isWrite ==> WriteAllowed(control, w, isUser)) && (isUser ==> w.user)
        && w.addr / PAGE_SIZE >= NUM_PAGES)
  }

  predicate Fails(control: Control, ram: seq<Byte>, x: nat, isWrite: bool, isUser: bool) {
    control.enabled && OutOfRange(control, Translate(ram, control.paging, x), isWrite, isUser)
  }

  // The physical address of x, if it has one.
  function Physical(control: Control, ram: seq<Byte>, x: nat): Option<nat> {
    if !control.enabled then Some(x)
    else
      var w := Translate(ram, control.paging, x);
      if w.Mapped? then Some(w.addr) else None
  }

  // Whether translation lets user code access x.
  predicate UserAllowed(control: Control, ram: seq<Byte>, x: nat) {
    !control.enabled || (var w := Translate(ram, control.paging, x); w.Mapped? && w.user)
  }

  // The entry that maps x is marked dirty.
  predicate LeafDirty(control: Control, ram: seq<Byte>, x: nat) {
    !control.enabled || (var w := Translate(ram, control.paging, x); w.Mapped? && w.dirty)
  }

  // What every resolved access satisfies, whatever the page tables hold.
  ghost predicate Proper(clean: seq<bool>, a: ResolvedAccess, x: nat, isWrite: bool, isUser: bool)
    requires |clean| == NUM_PAGES
  {
    && a.emuAddr == x && a.Frame() < NUM_PAGES && a.physAddr % PAGE_SIZE == x % PAGE_SIZE
    && (a.writable ==> isWrite || !clean[a.Frame()])
    && (isWrite ==> a.writable)
    && (a.needsDirtyMark <==> isWrite && clean[a.Frame()])
    && (isUser ==> a.user)
  }

  lemma ResolveIsProper(ram: seq<Byte>, clean: seq<bool>, control: Control, x: nat, isWrite: bool, isUser: bool)
    requires x < MAX_RAM && |clean| == NUM_PAGES
    ensures var (r, ram') := Resolve(ram, clean, control, x, isWrite, isUser);
            |ram'| == |ram| && (r.Resolved? ==> Proper(clean, r.access, x, isWrite, isUser))
  {
    WalkOffset(ram, control.paging, x, true);
    hide WalkTables;
  }

  // The emulator ends exactly if the walk of the access is out of range; with an aligned base, if its translation is.
  lemma ResolveFailsExactly(ram: seq<Byte>, clean: seq<bool>, control: Control, x: nat, isWrite: bool, isUser: bool)
    requires x < MAX_RAM && |clean| == NUM_PAGES
    ensures var failed := Resolve(ram, clean, control, x, isWrite, isUser).0.HostFailure?;
            && (failed <==>
                  control.enabled && OutOfRange(control, WalkTables(ram, control.paging, x, true).0, isWrite, isUser))
            && (Aligned(control.paging) ==> (failed <==> Fails(control, ram, x, isWrite, isUser)))
  {
    hide WalkTables, Translate;
    if Aligned(control.paging) { WalkIsTranslation(control.paging, ram, x, true); }
  }

  // Beside what its walk marks, resolving an access sets the dirty bit of the entry that maps x, exactly if it is a
  // write that is granted and the walk found that bit clear.
  lemma ResolveMarksDirty(ram: seq<Byte>, clean: seq<bool>, control: Control, x: nat, isWrite: bool, isUser: bool)
    requires x < MAX_RAM && |clean| == NUM_PAGES && control.enabled
    ensures var (w, walked) := WalkTables(ram, control.paging, x, true);
            var (r, ram') := Resolve(ram, clean, control, x, isWrite, isUser);
            && |ram'| == |walked| == |ram|
            && (isWrite && r.Resolved? ==> w.Mapped? && ram'[w.leaf] / 64 % 2 == 1)
            && (!isWrite || r.PageFault? || !w.Mapped? ==> ram' == walked)
            && forall i: nat :: i < |ram| && ram'[i] != walked[i] ==>
                 w.Mapped? && !w.dirty && i == w.leaf && ram'[i] == walked[i] + 64
  {
    WalkKeepsDirty(control.paging, ram, x);
    hide WalkTables;
    var (w, walked) := WalkTables(ram, control.paging, x, true);
    if w.Mapped? { SettersKeepFlags(walked[w.leaf]); }
  }

  // Whatever the base, resolving an access sets accessed and dirty bits only.
  lemma ResolveOnlyMarks(ram: seq<Byte>, clean: seq<bool>, control: Control, x: nat, isWrite: bool, isUser: bool)
    requires x < MAX_RAM && |clean| == NUM_PAGES
    ensures OnlyMarks(ram, Resolve(ram, clean, control, x, isWrite, isUser).1)
  {
    hide OnlyMarks, WalkTables, Translate;
    OnlyMarksRefl(ram);
    if control.enabled {
      WalkOnlyMarks(control.paging, ram, x);
      var (w, ram1) := WalkTables(ram, control.paging, x, true);
      if w.Mapped? {
        AnyMark(ram1, w.leaf);
        OnlyMarksTrans(ram, ram1, MarkDirty(ram1, w.leaf));
      }
    }
  }

  // With an aligned base, resolving an access faults exactly when translation denies it, finds the translated address,
  // and writes only marks. The page may be written without a trap if the access is a write, or if a write would be
  // granted as well, needs no dirty mark in the page tables and goes to a dirty frame.
  lemma ResolveFollowsTranslation(ram: seq<Byte>, clean: seq<bool>, control: Control, x: nat, isWrite: bool,
                                  isUser: bool)
    requires x < MAX_RAM && |clean| == NUM_PAGES && |ram| <= MAX_RAM && Aligned(control.paging)
    ensures var (r, ram') := Resolve(ram, clean, control, x, isWrite, isUser);
            && SameButMarks(control.paging, ram, ram')
            && (r.PageFault? <==> Denies(control, ram, x, isWrite, isUser))
            && (r.PageFault? ==> r.addr == x && r.code == FaultCode(Physical(control, ram, x).Some?, isWrite, isUser))
            && (r.Resolved? ==> Physical(control, ram, x) == Some(r.access.physAddr))
            && (r.Resolved? ==> r.access.user == UserAllowed(control, ram, x))
  {
    hide WalkTables, Translate, SameButMarks;
    var c := control.paging;
    SameButMarksRefl(c, ram);
    if control.enabled {
      WalkIsTranslation(c, ram, x, true);
      WalkKeepsDirty(c, ram, x);
      var (w, ram1) := WalkTables(ram, c, x, true);
      MarksAreTransparent(c, ram, ram1, x);
      if w.Mapped? {
        LeafOnGrid(c, ram1, x);
        OneMark(c, ram1, w.leaf);
        SameButMarksTrans(c, ram, ram1, MarkDirty(ram1, w.leaf));
      }
    }
  }

  lemma ResolveGrantsWrites(ram: seq<Byte>, clean: seq<bool>, control: Control, x: nat, isWrite: bool, isUser: bool)
    requires x < MAX_RAM && |clean| == NUM_PAGES && |ram| <= MAX_RAM && Aligned(control.paging)
    requires Resolve(ram, clean, control, x, isWrite, isUser).0.Resolved?
    ensures var (r, ram') := Resolve(ram, clean, control, x, isWrite, isUser);
            var a := r.access;
            && (a.writable <==>
                  || isWrite
                  || (!Denies(control, ram, x, true, isUser) && LeafDirty(control, ram, x) && !clean[a.Frame()]))
            && (a.writable ==> !Denies(control, ram, x, true, isUser) && LeafDirty(control, ram', x))
  {
    hide WalkTables, Translate, SameButMarks;
    var c := control.paging;
    if control.enabled {
      WalkIsTranslation(c, ram, x, true);
      WalkKeepsDirty(c, ram, x);
      var (w, ram1) := WalkTables(ram, c, x, true);
      MarksAreTransparent(c, ram, ram1, x);
      LeafOnGrid(c, ram1, x);
      OneMark(c, ram1, w.leaf);
      SettersKeepFlags(ram1[w.leaf]);
      MarksAreTransparent(c, ram1, MarkDirty(ram1, w.leaf), x);
    }
  }

  // ----- The walks of an access

  // An access to len bytes from addr on.
  datatype Access = Access(addr: nat, len: nat, isWrite: bool, isUser: bool)
  {
    predicate Covers(y: nat) { addr <= y < addr + len && y < MAX_RAM }
    predicate CoversAll(ys: seq<nat>) { forall i: nat :: i < |ys| ==> Covers(ys[i]) }
    // A longer access of the same kind that covers this one.
    predicate Within(k: Access) {
      k.isWrite == isWrite && k.isUser == isUser && k.addr <= addr && addr + len <= k.addr + k.len
    }
  }

  // What is left in RAM by resolving addresses that access k covers, in this order.
  function ResolveEach(m: Machine, k: Access, ys: seq<nat>): (fin: seq<Byte>)
    requires |m.clean| == NUM_PAGES && k.CoversAll(ys)
  {
    if ys == [] then m.ram
    else
      Resolve(ResolveEach(m, k, ys[..|ys| - 1]), m.clean, m.control, ys[|ys| - 1], k.isWrite, k.isUser).1
  }

  ghost predicate WalkedBy(m: Machine, k: Access, ys: seq<nat>, fin: seq<Byte>)
    requires |m.clean| == NUM_PAGES
  {
    k.CoversAll(ys) && ResolveEach(m, k, ys) == fin
  }

  // The walks of access k may leave m's RAM as fin.
  ghost predicate Walked(m: Machine, k: Access, fin: seq<Byte>)
    requires |m.clean| == NUM_PAGES
  {
    exists ys: seq<nat> :: WalkedBy(m, k, ys, fin)
  }

  lemma WalkedRefl(m: Machine, k: Access)
    requires |m.clean| == NUM_PAGES
    ensures Walked(m, k, m.ram)
  {
    assert WalkedBy(m, k, [], m.ram);
  }

  lemma WalkedOnce(m: Machine, k: Access, y: nat)
    requires |m.clean| == NUM_PAGES && k.Covers(y)
    ensures Walked(m, k, Resolve(m.ram, m.clean, m.control, y, k.isWrite, k.isUser).1)
  {
    hide Resolve;
    assert [y][..0] == [] && ResolveEach(m, k, [y][..0]) == m.ram;
    assert WalkedBy(m, k, [y], Resolve(m.ram, m.clean, m.control, y, k.isWrite, k.isUser).1);
  }

  lemma {:induction false} ResolveEachConcat(m0: Machine, m: Machine, k: Access, xs: seq<nat>, ys: seq<nat>)
    requires |m0.clean| == NUM_PAGES && m.clean == m0.clean && m.control == m0.control
    requires k.CoversAll(xs) && k.CoversAll(ys)
    requires ResolveEach(m0, k, xs) == m.ram
    ensures ResolveEach(m0, k, xs + ys) == ResolveEach(m, k, ys)
  {
    hide Resolve;
    if ys == [] {
      assert xs + ys == xs;
    } else {
      assert (xs + ys)[..|xs + ys| - 1] == xs + ys[..|ys| - 1];
      ResolveEachConcat(m0, m, k, xs, ys[..|ys| - 1]);
    }
  }

  lemma WalkedTrans(m0: Machine, m: Machine, k: Access, fin: seq<Byte>)
    requires |m0.clean| == NUM_PAGES && m.clean == m0.clean && m.control == m0.control
    requires Walked(m0, k, m.ram) && Walked(m, k, fin)
    ensures Walked(m0, k, fin)
  {
    hide ResolveEach;
    var xs: seq<nat> :| WalkedBy(m0, k, xs, m.ram);
    var ys: seq<nat> :| WalkedBy(m, k, ys, fin);
    ResolveEachConcat(m0, m, k, xs, ys);
    assert WalkedBy(m0, k, xs + ys, fin);
  }

  // The walks of part of an access are among its own.
  lemma WalkedWider(m: Machine, k: Access, wide: Access, fin: seq<Byte>)
    requires |m.clean| == NUM_PAGES && Walked(m, k, fin) && k.Within(wide)
    ensures Walked(m, wide, fin)
  {
    var ys: seq<nat> :| WalkedBy(m, k, ys, fin);
    ResolveEachWider(m, k, wide, ys);
    assert WalkedBy(m, wide, ys, fin);
  }

  lemma {:induction false} ResolveEachWider(m: Machine, k: Access, wide: Access, ys: seq<nat>)
    requires |m.clean| == NUM_PAGES && k.Within(wide) && k.CoversAll(ys) && wide.CoversAll(ys)
    ensures ResolveEach(m, wide, ys) == ResolveEach(m, k, ys)
  {
    if ys != [] { ResolveEachWider(m, k, wide, ys[..|ys| - 1]); }
  }

  // They set accessed and dirty bits only; and with an aligned base, only in entries.
  lemma WalkedMarks(m: Machine, k: Access, fin: seq<Byte>)
    requires |m.clean| == NUM_PAGES && Walked(m, k, fin)
    ensures OnlyMarks(m.ram, fin)
    ensures Aligned(m.control.paging) && |m.ram| <= MAX_RAM ==> SameButMarks(m.control.paging, m.ram, fin)
  {
    hide ResolveEach, OnlyMarks, SameButMarks;
    var ys: seq<nat> :| WalkedBy(m, k, ys, fin);
    ResolveEachMarks(m, k, ys);
  }

  lemma {:induction false} ResolveEachMarks(m: Machine, k: Access, ys: seq<nat>)
    requires |m.clean| == NUM_PAGES && k.CoversAll(ys)
    ensures OnlyMarks(m.ram, ResolveEach(m, k, ys))
    ensures Aligned(m.control.paging) && |m.ram| <= MAX_RAM ==>
              SameButMarks(m.control.paging, m.ram, ResolveEach(m, k, ys))
  {
    hide OnlyMarks, SameButMarks, Resolve;
    var c := m.control.paging;
    OnlyMarksRefl(m.ram);
    SameButMarksRefl(c, m.ram);
    if ys != [] {
      var y, ram := ys[|ys| - 1], ResolveEach(m, k, ys[..|ys| - 1]);
      ResolveEachMarks(m, k, ys[..|ys| - 1]);
      ResolveOnlyMarks(ram, m.clean, m.control, y, k.isWrite, k.isUser);
      OnlyMarksTrans(m.ram, ram, ResolveEach(m, k, ys));
      if Aligned(c) && |m.ram| <= MAX_RAM {
        MarkedLength(m.ram, ram);
        ResolveFollowsTranslation(ram, m.clean, m.control, y, k.isWrite, k.isUser);
        SameButMarksTrans(c, m.ram, ram, ResolveEach(m, k, ys));
      }
    }
  }

  // The walks of a read set no dirty bit.
  lemma ReadWalksSameDirt(m: Machine, k: Access, fin: seq<Byte>)
    requires |m.clean| == NUM_PAGES && Walked(m, k, fin) && !k.isWrite
    ensures SameDirt(m.ram, fin)
  {
    hide ResolveEach, SameDirt;
    var ys: seq<nat> :| WalkedBy(m, k, ys, fin);
    ReadsSameDirt(m, k, ys);
  }

  lemma {:induction false} ReadsSameDirt(m: Machine, k: Access, ys: seq<nat>)
    requires |m.clean| == NUM_PAGES && k.CoversAll(ys) && !k.isWrite
    ensures SameDirt(m.ram, ResolveEach(m, k, ys))
  {
    if ys != [] {
      var y, ram := ys[|ys| - 1], ResolveEach(m, k, ys[..|ys| - 1]);
      ReadsSameDirt(m, k, ys[..|ys| - 1]);
      WalkSameDirt(m.control.paging, ram, y);
      hide WalkTables, SameDirt;
      assert ResolveEach(m, k, ys) == ram || ResolveEach(m, k, ys) == WalkTables(ram, m.control.paging, y, true).1;
      SameDirtTrans(m.ram, ram, ResolveEach(m, k, ys)) by {
        assert SameDirt(ram, ram) by { SameDirtRefl(ram); }
      }
    }
  }

  lemma SameDirtRefl(ram: seq<Byte>)
    ensures SameDirt(ram, ram)
  {
  }

  lemma MarkedLength(ram: seq<Byte>, ram': seq<Byte>)
    requires OnlyMarks(ram, ram')
    ensures |ram'| == |ram|
  {
  }

  lemma WalkedLength(m: Machine, k: Access, fin: seq<Byte>)
    requires |m.clean| == NUM_PAGES && Walked(m, k, fin)
    ensures |fin| == |m.ram|
  {
    hide OnlyMarks, SameButMarks, Walked;
    WalkedMarks(m, k, fin);
    MarkedLength(m.ram, fin);
  }

  // ----- The invariant of every run

  predicate Traps(m: Machine, page: nat, isWrite: bool, isUser: bool)
    requires page < |m.meta|
  {
    ShouldTrap(m.meta[page], MetadataTest(isWrite, isUser))
  }

  // An untrapped page is host-mapped to the RAM frame that its last resolution found, with the permissions it found,
  // and an untrapped write goes to a frame marked dirty.
  ghost predicate Hit(m: Machine, page: nat)
    requires page < |m.meta|
  {
    && page in m.tlb && page in m.host
    && var e := m.tlb[page];
       && m.host[page] == e.frame && (e.frame + 1) * PAGE_SIZE <= |m.ram| && e.frame < |m.clean|
       && (m.meta[page] & TRAP_USER == 0 <==> e.user)
       && (m.meta[page] & TRAP_WRITE == 0 ==> e.writable && !m.clean[e.frame])
  }

  ghost predicate Sizes(m: Machine) {
    && |m.meta| == NUM_PAGES && |m.clean| == NUM_PAGES && 0 < |m.ram| <= MAX_RAM && |m.ram| % PAGE_SIZE == 0
  }

  ghost predicate Coherent(m: Machine)
    requires |m.meta| == NUM_PAGES
  {
    forall page: nat :: page < NUM_PAGES ==> if m.meta[page] & TRAP_ACCESS == 0 then Hit(m, page) else page !in m.tlb
  }

  // The table of mappings made mirrors what the host has mapped.
  ghost predicate Mirrored(m: Machine) {
    forall page :: page in m.mappings ==> page in m.host && m.host[page] == m.mappings[page]
  }

  function AllClean(): (clean: seq<bool>)
    ensures |clean| == NUM_PAGES
  {
    seq(NUM_PAGES, _ => true)
  }

  // The log accounts for every clean bit, everything that touched a clean frame was announced, and the device was
  // notified of every frame that became dirty before anything else happened.
  ghost predicate Recorded(m: Machine) {
    m.clean == CleanAfter(AllClean(), m.log) && Announced(AllClean(), m.log) && Notifies(m.log)
  }

  ghost predicate Inv(m: Machine) {
    Sizes(m) && Coherent(m) && Mirrored(m) && Recorded(m)
  }

  // Event e has happened.
  function Happened(m: Machine, e: Event): Machine {
    m.(ram := RamStep(m.ram, e), clean := CleanStep(m.clean, e), log := m.log + [e])
  }

  // The frame is marked dirty. If it was clean, that is an event, of which the device is notified next.
  function Dirtied(m: Machine, frame: nat): (t: Machine)
    requires frame < |m.clean|
    ensures |t.clean| == |m.clean| && !t.clean[frame]
    ensures forall f :: 0 <= f < |m.clean| && f != frame ==> t.clean[f] == m.clean[f]
  {
    if m.clean[frame] then Happened(Happened(m, MarkedDirty(frame)), Notified(frame)) else m
  }

  lemma NotTouching(clean: seq<bool>, e: Event)
    requires !e.MarkedDirty? && !e.Stored?
    ensures !TouchesClean(clean, e)
  {
  }

  lemma HappenedIsRecorded(m: Machine, e: Event)
    requires Recorded(m) && !e.MarkedDirty?
    requires TouchesClean(m.clean, e) ==> m.log != [] && Announces(m.log[|m.log| - 1], e)
    ensures Recorded(Happened(m, e))
  {
    hide TouchesClean, Announces;
    AnnouncedAppend(AllClean(), m.log, e);
    AfterAppend([], AllClean(), m.log, e);
  }

  lemma DirtiedIsRecorded(m: Machine, frame: nat)
    requires Recorded(m) && frame < |m.clean|
    requires m.clean[frame] ==> m.log != [] && Announces(m.log[|m.log| - 1], MarkedDirty(frame))
    ensures Recorded(Dirtied(m, frame))
  {
    hide Announces, TouchesClean, CleanStep;
    if m.clean[frame] {
      var marked := m.log + [MarkedDirty(frame)];
      AnnouncedAppend(AllClean(), m.log, MarkedDirty(frame));
      AfterAppend([], AllClean(), m.log, MarkedDirty(frame));
      NotTouching(CleanAfter(AllClean(), marked), Notified(frame));
      AnnouncedAppend(AllClean(), marked, Notified(frame));
      AfterAppend([], AllClean(), marked, Notified(frame));
      assert CleanStep(CleanAfter(AllClean(), marked), Notified(frame)) == CleanAfter(AllClean(), marked) by {
        CleanStepKeeps(CleanAfter(AllClean(), marked), Notified(frame));
      }
    }
  }

  lemma CleanStepKeeps(clean: seq<bool>, e: Event)
    requires !e.MarkedDirty? && !e.Cleaned?
    ensures CleanStep(clean, e) == clean
  {
  }

  // Whatever happens but the cleaning of a frame keeps the invariant.
  lemma HappenedKeepsInv(m: Machine, e: Event)
    requires Inv(m) && !e.Cleaned? && !e.MarkedDirty?
    requires TouchesClean(m.clean, e) ==> m.log != [] && Announces(m.log[|m.log| - 1], e)
    ensures Inv(Happened(m, e))
  {
    HappenedIsRecorded(m, e);
    hide Recorded;
    DirtierKeepsHits(m, Happened(m, e));
  }

  lemma DirtiedKeepsInv(m: Machine, frame: nat)
    requires Inv(m) && frame < |m.clean|
    requires m.clean[frame] ==> m.log != [] && Announces(m.log[|m.log| - 1], MarkedDirty(frame))
    ensures Inv(Dirtied(m, frame))
  {
    DirtiedIsRecorded(m, frame);
    hide Recorded, Announces;
    DirtierKeepsHits(m, Dirtied(m, frame));
  }

  lemma DirtierKeepsHits(m: Machine, t: Machine)
    requires |m.meta| == NUM_PAGES && Coherent(m) && t.meta == m.meta && t.host == m.host && t.tlb == m.tlb
    requires |t.ram| == |m.ram| && |t.clean| == |m.clean| && forall f :: 0 <= f < |t.clean| && t.clean[f] ==> m.clean[f]
    ensures Coherent(t)
  {
    forall page: nat | page < NUM_PAGES
      ensures if t.meta[page] & TRAP_ACCESS == 0 then Hit(t, page) else page !in t.tlb
    {
      assert if m.meta[page] & TRAP_ACCESS == 0 then Hit(m, page) else page !in m.tlb;
    }
  }

  // Walks may write to RAM without being recorded.
  lemma RamKeepsInv(m: Machine, ram: seq<Byte>)
    requires Inv(m) && |ram| == |m.ram|
    ensures Inv(m.(ram := ram))
  {
    var t := m.(ram := ram);
    assert Recorded(m) == Recorded(t);
    hide Recorded;
    forall page: nat | page < NUM_PAGES
      ensures if t.meta[page] & TRAP_ACCESS == 0 then Hit(t, page) else page !in t.tlb
    {
      assert if m.meta[page] & TRAP_ACCESS == 0 then Hit(m, page) else page !in m.tlb;
    }
  }

  function Install(m: Machine, a: ResolvedAccess): Machine
    requires a.Page() < |m.meta|
  {
    m.(meta := m.meta[a.Page() := MetadataBits(!a.user, !a.writable)],
       mappings := m.mappings[a.Page() := a.Frame()],
       host := m.host[a.Page() := a.Frame()],
       tlb := m.tlb[a.Page() := TlbEntry(a.Frame(), a.writable, a.user)])
  }

  lemma MetadataBitsMeaning(trapUser: bool, trapWrite: bool)
    ensures var b := MetadataBits(trapUser, trapWrite);
            b & TRAP_ACCESS == 0 && (b & TRAP_USER == 0 <==> !trapUser) && (b & TRAP_WRITE == 0 <==> !trapWrite)
  {
  }

  lemma InstallKeepsInv(m: Machine, a: ResolvedAccess)
    requires Inv(m) && a.emuAddr < MAX_RAM && a.physAddr < |m.ram|
    requires a.writable ==> !m.clean[a.Frame()]
    ensures Inv(Install(m, a))
    ensures forall isWrite, isUser :: (isWrite ==> a.writable) && (isUser ==> a.user) ==>
              !Traps(Install(m, a), a.Page(), isWrite, isUser)
  {
    hide MetadataBits, Announced, CleanAfter;
    MetadataBitsMeaning(!a.user, !a.writable);
    var t := Install(m, a);
    forall page: nat | page < NUM_PAGES
      ensures if t.meta[page] & TRAP_ACCESS == 0 then Hit(t, page) else page !in t.tlb
    {
      if page != a.Page() { assert if m.meta[page] & TRAP_ACCESS == 0 then Hit(m, page) else page !in m.tlb; }
    }
    forall isWrite, isUser | (isWrite ==> a.writable) && (isUser ==> a.user)
      ensures !Traps(t, a.Page(), isWrite, isUser)
    {
      TrapsWhenRequired(t.meta[a.Page()], isWrite, isUser);
    }
  }

  // ----- Invalidation and cleaning

  function Invalidated(m: Machine): Machine {
    m.(meta := seq(NUM_PAGES, _ => 0xff), tlb := map[])
  }

  lemma InvalidatedKeepsInv(m: Machine, control: Control)
    requires Inv(m)
    ensures Inv(Invalidated(m).(control := control))
    ensures forall p: nat :: p < NUM_PAGES ==> Invalidated(m).meta[p] & TRAP_ACCESS != 0
  {
  }

  lemma InvalidatePageKeepsInv(m: Machine, page: nat)
    requires Inv(m) && page < NUM_PAGES
    ensures Inv(m.(meta := m.meta[page := 0xff], tlb := m.tlb - {page}))
  {
  }

  // With every write trapped, frames may become clean.
  lemma CleaningKeepsInv(m: Machine, first: nat, end: nat, meta: seq<bv8>)
    requires Inv(m) && |meta| == NUM_PAGES
    requires forall p :: 0 <= p < NUM_PAGES ==> meta[p] == m.meta[p] | TRAP_WRITE
    ensures Inv(Happened(m, Cleaned(first, end)).(meta := meta))
  {
    HappenedIsRecorded(m, Cleaned(first, end));
    hide Announced, CleanAfter;
    var t := Happened(m, Cleaned(first, end)).(meta := meta);
    forall p: nat | p < NUM_PAGES ensures if t.meta[p] & TRAP_ACCESS == 0 then Hit(t, p) else p !in t.tlb {
      assert if m.meta[p] & TRAP_ACCESS == 0 then Hit(m, p) else p !in m.tlb;
    }
  }

  // ----- Untrapped accesses

  predicate TrapsAt(m: Machine, x: nat, isWrite: bool, isUser: bool)
    requires |m.meta| == NUM_PAGES && x < MAX_RAM
  {
    Traps(m, x / PAGE_SIZE, isWrite, isUser)
  }

  predicate Untrapped(m: Machine, x: nat, n: nat, isWrite: bool, isUser: bool)
    requires |m.meta| == NUM_PAGES && x + n <= MAX_RAM
  {
    forall y: nat :: x <= y < x + n ==> !TrapsAt(m, y, isWrite, isUser)
  }

  // Where the host takes the byte at linear address x.
  function Target(host: map<nat, nat>, x: nat): nat {
    (if x / PAGE_SIZE in host then host[x / PAGE_SIZE] else 0) * PAGE_SIZE + x % PAGE_SIZE
  }

  // An untrapped byte lies in RAM, and in a dirty frame if it may be written.
  lemma UntrappedTarget(m: Machine, x: nat, isWrite: bool, isUser: bool)
    requires Inv(m) && x < MAX_RAM && !TrapsAt(m, x, isWrite, isUser)
    ensures x / PAGE_SIZE in m.host && Target(m.host, x) < |m.ram|
    ensures Target(m.host, x) / PAGE_SIZE == m.host[x / PAGE_SIZE] == m.tlb[x / PAGE_SIZE].frame < NUM_PAGES
    ensures isWrite ==> !m.clean[Target(m.host, x) / PAGE_SIZE]
  {
  }

  // What the host delivers for n bytes at x.
  function HostBytes(m: Machine, x: nat, n: nat): (b: seq<Byte>)
    ensures |b| == n
  {
    seq(n, i requires 0 <= i < n => if Target(m.host, x + i) < |m.ram| then m.ram[Target(m.host, x + i)] else 0xff)
  }

  // The bytes written through the host mapping, by physical address.
  function Spread(host: map<nat, nat>, x: nat, bytes: seq<Byte>): map<nat, Byte> {
    if bytes == [] then map[]
    else Spread(host, x, bytes[..|bytes| - 1])[Target(host, x + |bytes| - 1) := bytes[|bytes| - 1]]
  }

  lemma {:induction false} SpreadKeys(host: map<nat, nat>, x: nat, bytes: seq<Byte>)
    ensures forall a: nat :: a in Spread(host, x, bytes) ==>
              exists y: nat :: x <= y < x + |bytes| && Target(host, y) == a
  {
    if bytes != [] {
      SpreadKeys(host, x, bytes[..|bytes| - 1]);
      assert x <= x + |bytes| - 1 < x + |bytes|;
    }
  }

  // The fast path never reaches a clean frame.
  lemma UntrappedReachesDirty(m: Machine, x: nat, bytes: seq<Byte>, isUser: bool)
    requires Inv(m) && x + |bytes| <= MAX_RAM && Untrapped(m, x, |bytes|, true, isUser)
    ensures !TouchesClean(m.clean, Stored(Spread(m.host, x, bytes)))
  {
    hide Coherent, Mirrored, Recorded, Target;
    var e := Stored(Spread(m.host, x, bytes));
    SpreadKeys(m.host, x, bytes);
    forall f: nat | f < |m.clean| && Touches(e, f) ensures !m.clean[f] {
      var a: nat :| a in e.bytes && a / PAGE_SIZE == f;
      var y: nat :| x <= y < x + |bytes| && Target(m.host, y) == a;
      assert !TrapsAt(m, y, true, isUser);
      UntrappedTarget(m, y, true, isUser);
    }
  }

  // ----- Trapped writes

  datatype PreparedWrite = PreparedWrite(
    split: bool, first: Option<ResolvedAccess>, second: Option<ResolvedAccess>, val: seq<Byte>, addr: nat)

  // A span of bytes stored past the host mapping.
  function Span(addr: nat, bytes: seq<Byte>): map<nat, Byte> {
    map a: nat | addr <= a < addr + |bytes| && InSpan(addr, a, |bytes|) :: bytes[a - addr]
  }

  predicate InSpan(addr: nat, a: nat, n: nat) { addr <= a < addr + n }

  // The resolution is still current: no frame has become clean since.
  ghost predicate WriteReady(m: Machine, a: ResolvedAccess)
    requires |m.clean| == NUM_PAGES
  {
    a.emuAddr < MAX_RAM && a.writable && a.Frame() < NUM_PAGES && (m.clean[a.Frame()] ==> a.needsDirtyMark)
  }

  // A write at x either needs no trap or was resolved.
  ghost predicate Ready(m: Machine, r: Option<ResolvedAccess>, x: nat, isUser: bool)
    requires |m.meta| == NUM_PAGES && |m.clean| == NUM_PAGES && x < MAX_RAM
  {
    match r
    case None => !TrapsAt(m, x, true, isUser)
    case Some(a) => a.emuAddr == x && a.physAddr % PAGE_SIZE == x % PAGE_SIZE && WriteReady(m, a) && (isUser ==> a.user)
  }

  function NextPage(x: nat): nat {
    (x + 0xfff) / PAGE_SIZE * PAGE_SIZE
  }

  ghost predicate Prepared(m: Machine, w: PreparedWrite, isUser: bool)
    requires |m.meta| == NUM_PAGES && |m.clean| == NUM_PAGES
  {
    && 1 <= |w.val| <= 8 && w.addr + |w.val| <= MAX_RAM
    && (w.split <==> w.addr % PAGE_SIZE + |w.val| > PAGE_SIZE)
    && Ready(m, w.first, w.addr, isUser)
    && (w.split ==> Ready(m, w.second, NextPage(w.addr), isUser))
  }

  predicate RamBacked(m: Machine, r: Option<ResolvedAccess>) {
    r.Some? ==> r.value.Frame() !in m.devices && r.value.physAddr < |m.ram|
  }

  // ----- A trapped write, as a step of the machine

  // What a trapped write of bytes by access a does, and whether that takes care of it. If not, the page is now mapped.
  function TrappedWrite(m: Machine, a: ResolvedAccess, bytes: seq<Byte>, advise: (nat, nat) -> Advice): (bool, Machine)
    requires a.Page() < |m.meta| && a.Frame() < |m.clean|
  {
    if a.Frame() in m.devices then (true, Happened(m, ToDevice(a.physAddr, bytes)))
    else if a.physAddr >= |m.ram| then (true, Happened(m, Dropped(a.physAddr, bytes)))
    else if !a.needsDirtyMark then (false, Install(m, a))
    else
      var answer := advise(a.physAddr, |bytes|);
      var t := Happened(m, Advised(a.physAddr, |bytes|, answer));
      if answer == DoNotMark then (true, Happened(t, Stored(Span(a.physAddr, bytes))))
      else (false, Install(Dirtied(t, a.Frame()), a))
  }

  // The events that t's log adds to m's explain t's RAM and clean frames, were announced, and have the device's advice.
  ghost predicate Traced(m: Machine, t: Machine, advise: (nat, nat) -> Advice) {
    && m.log <= t.log
    && var events := t.log[|m.log|..];
       && t.ram == RamAfter(m.ram, events) && t.clean == CleanAfter(m.clean, events)
       && Announced(m.clean, events) && Asked(events, advise) && Notifies(events)
  }

  lemma TracedRefl(m: Machine, t: Machine, advise: (nat, nat) -> Advice)
    requires t.log == m.log && t.ram == m.ram && t.clean == m.clean
    ensures Traced(m, t, advise)
  {
  }

  // One event more.
  lemma TracedAppend(m: Machine, s: Machine, e: Event, advise: (nat, nat) -> Advice)
    requires Traced(m, s, advise) && !e.MarkedDirty?
    requires TouchesClean(s.clean, e) ==> |m.log| < |s.log| && Announces(s.log[|s.log| - 1], e)
    requires e.Advised? ==> e.answer == advise(e.addr, e.len)
    ensures Traced(m, Happened(s, e), advise)
  {
    hide TouchesClean, Announces, Announced, Asked, RamAfter, CleanAfter, RamStep, CleanStep, Notifies;
    var events, t := s.log[|m.log|..], Happened(s, e);
    assert t.log[|m.log|..] == events + [e];
    assert events != [] ==> events[|events| - 1] == s.log[|s.log| - 1];
    AnnouncedAppend(m.clean, events, e);
    AfterAppend(m.ram, m.clean, events, e);
    AskedAppend(events, e, advise);
    NotifiesConcat(events, [e]);
  }

  lemma TracedTrans(m: Machine, s: Machine, t: Machine, advise: (nat, nat) -> Advice)
    requires Traced(m, s, advise) && Traced(s, t, advise)
    ensures Traced(m, t, advise)
  {
    hide Announced, RamAfter, CleanAfter;
    var x, y := s.log[|m.log|..], t.log[|s.log|..];
    assert t.log[|m.log|..] == x + y;
    AfterConcat(m.ram, m.clean, x, y);
    AnnouncedConcat(m.clean, x, y);
    NotifiesConcat(x, y);
  }

  // Mapping a page is not an event.
  lemma TracedInstall(m: Machine, s: Machine, a: ResolvedAccess, advise: (nat, nat) -> Advice)
    requires Traced(m, s, advise) && a.Page() < |s.meta|
    ensures Traced(m, Install(s, a), advise)
  {
  }

  lemma SpanAnnounced(a: ResolvedAccess, bytes: seq<Byte>)
    requires a.physAddr % PAGE_SIZE + |bytes| <= PAGE_SIZE
    ensures Announces(Advised(a.physAddr, |bytes|, DoNotMark), Stored(Span(a.physAddr, bytes)))
  {
    var e := Advised(a.physAddr, |bytes|, DoNotMark);
    forall b: nat | b in Span(a.physAddr, bytes) ensures Advises(e, b / PAGE_SIZE) {
      assert b == a.Frame() * PAGE_SIZE + (a.physAddr % PAGE_SIZE + (b - a.physAddr));
    }
  }

  // Marking a frame dirty after the device has agreed to it.
  lemma DirtiedIsTraced(m: Machine, s: Machine, frame: nat, advise: (nat, nat) -> Advice)
    requires Traced(m, s, advise) && frame < |s.clean| && |m.log| < |s.log|
    requires Announces(s.log[|s.log| - 1], MarkedDirty(frame))
    ensures Traced(m, Dirtied(s, frame), advise)
    ensures Inv(s) ==> Inv(Dirtied(s, frame))
  {
    hide Inv, Announces, Announced, Asked, RamAfter, CleanAfter, Notifies, TouchesClean, CleanStep;
    if s.clean[frame] {
      var events, mark, note := s.log[|m.log|..], MarkedDirty(frame), Notified(frame);
      var t := Dirtied(s, frame);
      assert t.log[|m.log|..] == events + [mark] + [note];
      assert events[|events| - 1] == s.log[|s.log| - 1];
      AnnouncedAppend(m.clean, events, mark);
      AfterAppend(m.ram, m.clean, events, mark);
      AskedAppend(events, mark, advise);
      NotTouching(CleanAfter(m.clean, events + [mark]), note);
      AnnouncedAppend(m.clean, events + [mark], note);
      AfterAppend(m.ram, m.clean, events + [mark], note);
      AskedAppend(events + [mark], note, advise);
      assert events + [mark] + [note] == events + [mark, note];
      MarkNotifies(frame);
      NotifiesConcat(events, [mark, note]);
      CleanStepKeeps(CleanAfter(m.clean, events + [mark]), note);
    }
    if Inv(s) { DirtiedKeepsInv(s, frame); }
  }

  // A trapped write keeps the invariant and is announced; the page it maps goes to a dirty frame.
  lemma TrappedWriteIsTraced(m: Machine, a: ResolvedAccess, bytes: seq<Byte>, advise: (nat, nat) -> Advice)
    requires Inv(m) && WriteReady(m, a) && a.physAddr % PAGE_SIZE + |bytes| <= PAGE_SIZE
    ensures var t := TrappedWrite(m, a, bytes, advise).1; Inv(t) && Traced(m, t, advise)
  {
    hide Inv, Traced, RamStep, CleanStep, Announces, Install, TouchesClean, Span;
    TracedRefl(m, m, advise);
    assert a.Frame() < |m.clean| && a.Page() < |m.meta| by { SizesOf(m); }
    if a.Frame() in m.devices {
      QuietEvent(m, ToDevice(a.physAddr, bytes), advise);
    } else if a.physAddr >= |m.ram| {
      QuietEvent(m, Dropped(a.physAddr, bytes), advise);
    } else if !a.needsDirtyMark {
      InstallKeepsInv(m, a);
      TracedInstall(m, m, a, advise);
    } else {
      var e := Advised(a.physAddr, |bytes|, advise(a.physAddr, |bytes|));
      var t := Happened(m, e);
      QuietEvent(m, e, advise);
      SizesOf(t);
      if e.answer == DoNotMark {
        SpanAnnounced(a, bytes);
        TracedAppend(m, t, Stored(Span(a.physAddr, bytes)), advise);
        HappenedKeepsInv(t, Stored(Span(a.physAddr, bytes)));
      } else {
        assert Announces(e, MarkedDirty(a.Frame())) by { AdviceAnnouncesMark(a, |bytes|); }
        DirtiedIsTraced(m, t, a.Frame(), advise);
        InstallKeepsInv(Dirtied(t, a.Frame()), a);
        TracedInstall(m, Dirtied(t, a.Frame()), a, advise);
      }
    }
  }

  lemma AdviceAnnouncesMark(a: ResolvedAccess, n: nat)
    ensures Announces(Advised(a.physAddr, n, DirtyOk), MarkedDirty(a.Frame()))
  {
  }

  // Advice, notification, and what is handed to a device or dropped, change no memory.
  lemma QuietEvent(m: Machine, e: Event, advise: (nat, nat) -> Advice)
    requires Inv(m) && (e.Advised? || e.Notified? || e.ToDevice? || e.Dropped?)
    requires (e.Advised? ==> e.answer == advise(e.addr, e.len))
    ensures Inv(Happened(m, e)) && Traced(m, Happened(m, e), advise) && Happened(m, e) == m.(log := m.log + [e])
  {
    HappenedKeepsInv(m, e);
    TracedRefl(m, m, advise);
    TracedAppend(m, m, e, advise);
  }

  lemma SizesOf(m: Machine)
    requires Inv(m)
    ensures Sizes(m)
  {
  }

  // A store through the host mapping of pages that do not trap.
  lemma UntrappedStoreIsTraced(m: Machine, x: nat, bytes: seq<Byte>, isUser: bool, advise: (nat, nat) -> Advice)
    requires Inv(m) && x + |bytes| <= MAX_RAM && Untrapped(m, x, |bytes|, true, isUser)
    ensures var t := Happened(m, Stored(Spread(m.host, x, bytes))); Inv(t) && Traced(m, t, advise)
  {
    UntrappedReachesDirty(m, x, bytes, isUser);
    hide Inv, Traced, TouchesClean;
    HappenedKeepsInv(m, Stored(Spread(m.host, x, bytes)));
    TracedRefl(m, m, advise);
    TracedAppend(m, m, Stored(Spread(m.host, x, bytes)), advise);
  }

  // What the trace says about a frame that was clean: if its bytes changed by more than marks, or its clean bit, the
  // device was asked about it before anything touched it.
  ghost predicate CleanFramesAdvised(m: Machine, t: Machine)
    requires |m.clean| == |t.clean| && |m.ram| == |t.ram| && m.log <= t.log
  {
    forall f: nat :: f < |m.clean| && m.clean[f] && FrameChanged(m, t, f) ==> AdvisedFirst(t.log[|m.log|..], f)
  }

  ghost predicate FrameChanged(m: Machine, t: Machine, frame: nat)
    requires |m.clean| == |t.clean| && |m.ram| == |t.ram| && frame < |m.clean|
  {
    || t.clean[frame] != m.clean[frame]
    || exists a: nat :: a < |m.ram| && a / PAGE_SIZE == frame && !SameFlags(m.ram[a], t.ram[a])
  }

  lemma TracedIsAdvised(m: Machine, marked: seq<Byte>, t: Machine, advise: (nat, nat) -> Advice)
    requires OnlyMarks(m.ram, marked) && Traced(m.(ram := marked), t, advise)
    ensures |m.clean| == |t.clean| && |m.ram| == |t.ram| && CleanFramesAdvised(m, t)
  {
    hide SameFlags, Announced, Asked, AdvisedFirst;
    var events := t.log[|m.log|..];
    forall f: nat | f < |m.clean| && m.clean[f] && FrameChanged(m, t, f) ensures AdvisedFirst(events, f) {
      if t.clean[f] {
        var a: nat :| a < |m.ram| && a / PAGE_SIZE == f && !SameFlags(m.ram[a], t.ram[a]);
        assert RamAfter(marked, events)[a] != marked[a];
      }
      ChangedIsAdvised(marked, m.clean, events, f);
    }
  }
}
