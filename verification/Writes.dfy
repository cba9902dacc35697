/** Writes: how the parts of a prepared write add up, and what a whole write may do. */
module Writes {
  import opened Accesses
  import opened Bytes
  import opened Histories
  import opened Memory
  import opened Metadata
  import opened Options
  import opened PageTables

  datatype WriteResult = Done | WriteFault(code: FaultCode, addr: nat) | WriteFailure

  function Failed(r: Resolution): WriteResult
    requires !r.Resolved?
  {
    match r
    case PageFault(code, addr) => WriteFault(code, addr)
    case HostFailure => WriteFailure
  }

  // ----- One part

  // How a part of a write travels that was resolved to r, or needed no trap, when moved on by k: through the host
  // mapping, past it to RAM, because the device wants the frame to stay clean, or elsewhere, to a device or to no
  // memory.
  datatype Route = ByMapping | PastMapping | Elsewhere

  function RouteOf(m: Machine, r: Option<ResolvedAccess>, k: nat, n: nat, advise: (nat, nat) -> Advice): Route {
    match r
    case None => ByMapping
    case Some(a) =>
      if a.Frame() in m.devices || a.physAddr >= |m.ram| then Elsewhere
      else if a.needsDirtyMark && advise(a.physAddr + k, n) == DoNotMark then PastMapping
      else ByMapping
  }

  // t is m after the bytes at x, within one page and written by way of access r moved on by k, have been dealt with.
  ghost predicate PartDone(m: Machine, t: Machine, r: Option<ResolvedAccess>, k: nat, x: nat, bytes: seq<Byte>,
                           advise: (nat, nat) -> Advice)
    requires |m.meta| == |t.meta| == |m.clean| == |t.clean| == NUM_PAGES
  {
    && t.control == m.control && t.devices == m.devices && |t.ram| == |m.ram|
    && (forall f :: 0 <= f < NUM_PAGES && t.clean[f] ==> m.clean[f])
    && (forall p: nat :: p != x / PAGE_SIZE ==> PageKept(m, t, p))
    && match RouteOf(m, r, k, |bytes|, advise)
       case ByMapping =>
         && (if r.Some? then Maps(m, t, r, x / PAGE_SIZE) else PageKept(m, t, x / PAGE_SIZE))
         && (forall y: nat :: x <= y < x + |bytes| ==> Target(t.host, y) < |m.ram|)
         && t.ram == Overlaid(m.ram, Spread(t.host, x, bytes))
       case PastMapping =>
         && PageKept(m, t, x / PAGE_SIZE) && r.Some? && r.value.physAddr + k + |bytes| <= |m.ram|
         && t.ram == Overlaid(m.ram, Span(r.value.physAddr + k, bytes))
       case Elsewhere => PageKept(m, t, x / PAGE_SIZE) && t.ram == m.ram
  }

  // The bytes at x, within one page, can be written by way of access r moved on by k.
  ghost predicate PartReady(m: Machine, r: Option<ResolvedAccess>, k: nat, x: nat, n: nat, isUser: bool)
    requires |m.meta| == |m.clean| == NUM_PAGES && x < MAX_RAM
  {
    && 1 <= n <= 8 && x + n <= MAX_RAM && x % PAGE_SIZE + n <= PAGE_SIZE
    && match r
       case None => !TrapsAt(m, x, true, isUser)
       case Some(a) =>
         && WriteReady(m, a) && (isUser ==> a.user)
         && a.physAddr % PAGE_SIZE + k + n <= PAGE_SIZE && a.WithOffset(k).emuAddr / PAGE_SIZE == x / PAGE_SIZE
         && a.WithOffset(k).Frame() == a.Frame()
  }

  predicate InRange(m: Machine, r: Option<ResolvedAccess>, k: nat) {
    r.Some? ==> r.value.WithOffset(k).Page() < |m.meta| && r.value.WithOffset(k).Frame() < |m.clean|
  }

  // What writing them does.
  function PartAfter(m: Machine, r: Option<ResolvedAccess>, k: nat, x: nat, bytes: seq<Byte>,
                     advise: (nat, nat) -> Advice): Machine
    requires InRange(m, r, k)
  {
    match r
    case None => Happened(m, Stored(Spread(m.host, x, bytes)))
    case Some(a) =>
      var (done, t) := TrappedWrite(m, a.WithOffset(k), bytes, advise);
      if done then t else Happened(t, Stored(Spread(t.host, x, bytes)))
  }

  lemma SpreadOneMore(host: map<nat, nat>, ram: seq<Byte>, x: nat, bytes: seq<Byte>, n: nat)
    requires n < |bytes| && Target(host, x + n) < |ram|
    ensures Overlaid(ram, Spread(host, x, bytes[..n + 1]))
            == Overlaid(ram, Spread(host, x, bytes[..n]))[Target(host, x + n) := bytes[n]]
  {
    hide Target;
    assert bytes[..n + 1][..n] == bytes[..n];
  }

  lemma UntrappedTargets(m: Machine, x: nat, n: nat, isUser: bool)
    requires Inv(m) && x + n <= MAX_RAM && Untrapped(m, x, n, true, isUser)
    ensures forall y: nat :: x <= y < x + n ==> Target(m.host, y) < |m.ram|
  {
    hide Coherent, Mirrored, Recorded, Target;
    forall y: nat | x <= y < x + n ensures Target(m.host, y) < |m.ram| {
      assert !TrapsAt(m, y, true, isUser);
      UntrappedTarget(m, y, true, isUser);
    }
  }

  lemma PartUnresolved(m: Machine, k: nat, x: nat, bytes: seq<Byte>, isUser: bool, advise: (nat, nat) -> Advice)
    requires Inv(m) && x < MAX_RAM && PartReady(m, None, k, x, |bytes|, isUser)
    ensures var t := PartAfter(m, None, k, x, bytes, advise);
            Inv(t) && Traced(m, t, advise) && PartDone(m, t, None, k, x, bytes, advise)
  {
    hide Coherent, Mirrored, Recorded, Traced, ShouldTrap, Spread, Target;
    OnePageUntrapped(m, x, |bytes|, true, isUser);
    UntrappedStoreIsTraced(m, x, bytes, isUser, advise);
    UntrappedTargets(m, x, |bytes|, isUser);
  }

  // A trapped write leaves its bytes to be written through the mapping exactly if that is their route.
  lemma TrappedWriteRoute(m: Machine, a: ResolvedAccess, k: nat, bytes: seq<Byte>, advise: (nat, nat) -> Advice)
    requires Sizes(m) && a.physAddr % PAGE_SIZE + k < PAGE_SIZE
    requires a.WithOffset(k).Page() < |m.meta| && a.Frame() < |m.clean|
    ensures a.WithOffset(k).Frame() == a.Frame()
    ensures TrappedWrite(m, a.WithOffset(k), bytes, advise).0 <==>
              !RouteOf(m, Some(a), k, |bytes|, advise).ByMapping?
  {
    hide Span, CleanStep, RamStep, MetadataBits, Install, Dirtied;
    OffsetStaysInFrame(m, a, k);
  }

  // What a trapped write that mapped its page leaves to be written.
  lemma TrappedWriteMaps(m: Machine, a: ResolvedAccess, bytes: seq<Byte>, isUser: bool, advise: (nat, nat) -> Advice)
    requires Inv(m) && WriteReady(m, a) && a.physAddr % PAGE_SIZE + |bytes| <= PAGE_SIZE && (isUser ==> a.user)
    requires !TrappedWrite(m, a, bytes, advise).0
    ensures var t := TrappedWrite(m, a, bytes, advise).1;
            && t.control == m.control && t.devices == m.devices && t.ram == m.ram && |t.clean| == |m.clean|
            && (forall f :: 0 <= f < |m.clean| && t.clean[f] ==> m.clean[f])
            && RamBacked(m, Some(a)) && SamePages(Install(m, a), t) && !TrapsAt(t, a.emuAddr, true, isUser)
  {
    hide MetadataBits, Recorded;
    MetadataBitsMeaning(!a.user, !a.writable);
    TrapsWhenRequired(MetadataBits(!a.user, !a.writable), true, isUser);
  }

  // What one that took care of the bytes changes.
  lemma TrappedWriteTakes(m: Machine, a: ResolvedAccess, bytes: seq<Byte>, advise: (nat, nat) -> Advice)
    requires Inv(m) && WriteReady(m, a) && TrappedWrite(m, a, bytes, advise).0
    ensures var t := TrappedWrite(m, a, bytes, advise).1;
            && t.control == m.control && t.devices == m.devices && t.clean == m.clean && SamePages(m, t)
            && t.ram == if RouteOf(m, Some(a), 0, |bytes|, advise).PastMapping?
                        then Overlaid(m.ram, Span(a.physAddr, bytes)) else m.ram
  {
    SizesOf(m);
    hide Inv, Install, Span, Overlaid, Dirtied;
  }

  lemma PartResolved(m: Machine, a: ResolvedAccess, k: nat, x: nat, bytes: seq<Byte>, isUser: bool,
                     advise: (nat, nat) -> Advice)
    requires Inv(m) && x < MAX_RAM && PartReady(m, Some(a), k, x, |bytes|, isUser)
    ensures InRange(m, Some(a), k)
    ensures var t := PartAfter(m, Some(a), k, x, bytes, advise);
            Inv(t) && Traced(m, t, advise) && PartDone(m, t, Some(a), k, x, bytes, advise)
  {
    SizesOf(m);
    hide Inv, Traced, PartDone, TrappedWrite;
    OffsetStaysInFrame(m, a, k);
    TrappedWriteRoute(m, a, k, bytes, advise);
    if RouteOf(m, Some(a), k, |bytes|, advise).ByMapping? {
      PartMapped(m, a, k, x, bytes, isUser, advise);
    } else {
      PartTaken(m, a, k, x, bytes, isUser, advise);
    }
  }

  lemma PartTaken(m: Machine, a: ResolvedAccess, k: nat, x: nat, bytes: seq<Byte>, isUser: bool,
                  advise: (nat, nat) -> Advice)
    requires Inv(m) && x < MAX_RAM && PartReady(m, Some(a), k, x, |bytes|, isUser)
    requires InRange(m, Some(a), k) && !RouteOf(m, Some(a), k, |bytes|, advise).ByMapping?
    ensures var t := TrappedWrite(m, a.WithOffset(k), bytes, advise).1;
            Inv(t) && Traced(m, t, advise) && PartDone(m, t, Some(a), k, x, bytes, advise)
  {
    hide Inv, Traced, Spread, Span, TrappedWrite, SamePages, Overlaid, RouteOf, Target, PageKept, Maps, InRange;
    hide PartReady, WriteReady, Sizes;
    SizesOf(m);
    PartFits(m, a, k, x, |bytes|, isUser);
    var b := a.WithOffset(k);
    TrappedWriteRoute(m, a, k, bytes, advise);
    TrappedWriteIsTraced(m, b, bytes, advise);
    TrappedWriteTakes(m, b, bytes, advise);
    SamePagesAreKept(m, TrappedWrite(m, b, bytes, advise).1);
    RouteMoved(m, a, k, |bytes|, advise);
  }

  lemma PartFits(m: Machine, a: ResolvedAccess, k: nat, x: nat, n: nat, isUser: bool)
    requires Sizes(m) && x < MAX_RAM && PartReady(m, Some(a), k, x, n, isUser) && InRange(m, Some(a), k)
    ensures |m.meta| == |m.clean| == NUM_PAGES && |m.ram| % PAGE_SIZE == 0 && 1 <= n
    ensures var b := a.WithOffset(k);
            && WriteReady(m, b) && b.physAddr % PAGE_SIZE + n <= PAGE_SIZE
            && a.physAddr % PAGE_SIZE + k + n <= PAGE_SIZE
            && b.Page() < |m.meta| && b.Frame() == a.Frame() < |m.clean|
  {
  }

  // A trapped write that leaves its bytes to be written has mapped their page.
  lemma TrapMapped(m: Machine, a: ResolvedAccess, k: nat, x: nat, bytes: seq<Byte>, isUser: bool,
                   advise: (nat, nat) -> Advice)
    requires Inv(m) && x < MAX_RAM && PartReady(m, Some(a), k, x, |bytes|, isUser)
    requires InRange(m, Some(a), k) && RouteOf(m, Some(a), k, |bytes|, advise).ByMapping?
    ensures var t := TrappedWrite(m, a.WithOffset(k), bytes, advise).1;
            && Inv(t) && Traced(m, t, advise) && |t.meta| == |t.clean| == NUM_PAGES && t.ram == m.ram
            && t.control == m.control && t.devices == m.devices
            && (forall f :: 0 <= f < NUM_PAGES && t.clean[f] ==> m.clean[f])
            && Maps(m, t, Some(a), x / PAGE_SIZE) && (forall p: nat :: p != x / PAGE_SIZE ==> PageKept(m, t, p))
            && Untrapped(t, x, |bytes|, true, isUser)
  {
    SizesOf(m);
    hide Inv, Traced, TrappedWrite, Install, MetadataBits, SamePages, RouteOf;
    var b := a.WithOffset(k);
    OffsetStaysInFrame(m, a, k);
    TrappedWriteRoute(m, a, k, bytes, advise);
    TrappedWriteIsTraced(m, b, bytes, advise);
    var t := TrappedWrite(m, b, bytes, advise).1;
    TrappedWriteMaps(m, b, bytes, isUser, advise);
    InstallMaps(m, t, b);
    SizesOf(t);
    SameTrap(t, b.emuAddr, x, true, isUser);
    OnePageUntrapped(t, x, |bytes|, true, isUser);
    assert InstalledAt(t, a, x / PAGE_SIZE);
  }

  lemma PartMapped(m: Machine, a: ResolvedAccess, k: nat, x: nat, bytes: seq<Byte>, isUser: bool,
                   advise: (nat, nat) -> Advice)
    requires Inv(m) && x < MAX_RAM && PartReady(m, Some(a), k, x, |bytes|, isUser)
    requires InRange(m, Some(a), k) && RouteOf(m, Some(a), k, |bytes|, advise).ByMapping?
    ensures var t := TrappedWrite(m, a.WithOffset(k), bytes, advise).1;
            var u := Happened(t, Stored(Spread(t.host, x, bytes)));
            Inv(u) && Traced(m, u, advise) && PartDone(m, u, Some(a), k, x, bytes, advise)
  {
    SizesOf(m);
    TrapMapped(m, a, k, x, bytes, isUser, advise);
    var t := TrappedWrite(m, a.WithOffset(k), bytes, advise).1;
    hide Inv, Traced, Spread, TrappedWrite, MetadataBits, Overlaid, RouteOf, Target, WriteReady, Untrapped, RamBacked;
    UntrappedStoreIsTraced(t, x, bytes, isUser, advise);
    UntrappedTargets(t, x, |bytes|, isUser);
    var u := Happened(t, Stored(Spread(t.host, x, bytes)));
    TracedTrans(m, t, u, advise);
    forall p: nat | p != x / PAGE_SIZE ensures PageKept(m, u, p) {
      assert PageKept(m, t, p);
    }
  }

  lemma RouteMoved(m: Machine, a: ResolvedAccess, k: nat, n: nat, advise: (nat, nat) -> Advice)
    requires Sizes(m) && a.physAddr % PAGE_SIZE + k + n <= PAGE_SIZE && 1 <= n
    ensures RouteOf(m, Some(a.WithOffset(k)), 0, n, advise) == RouteOf(m, Some(a), k, n, advise)
    ensures RouteOf(m, Some(a), k, n, advise).PastMapping? ==> a.physAddr + k + n <= |m.ram|
  {
    OffsetStaysInFrame(m, a, k);
    assert |m.ram| == |m.ram| / PAGE_SIZE * PAGE_SIZE && a.physAddr == a.Frame() * PAGE_SIZE + a.physAddr % PAGE_SIZE;
  }

  // If the trapped write leaves the bytes to be written, no byte traps any longer.
  lemma PartMaps(m: Machine, a: ResolvedAccess, k: nat, x: nat, bytes: seq<Byte>, isUser: bool,
                 advise: (nat, nat) -> Advice)
    requires Inv(m) && x < MAX_RAM && PartReady(m, Some(a), k, x, |bytes|, isUser)
    ensures var b := a.WithOffset(k);
            && WriteReady(m, b) && b.physAddr % PAGE_SIZE + |bytes| <= PAGE_SIZE
            && b.Page() < |m.meta| && b.Frame() < |m.clean|
            && var (done, t) := TrappedWrite(m, b, bytes, advise);
               |t.meta| == NUM_PAGES && (!done ==> Untrapped(t, x, |bytes|, true, isUser))
  {
    hide Coherent, Mirrored, Recorded, MetadataBits;
    var b := a.WithOffset(k);
    OffsetStaysInFrame(m, a, k);
    assert b.physAddr % PAGE_SIZE == a.physAddr % PAGE_SIZE + k;
    if !TrappedWrite(m, b, bytes, advise).0 {
      TrappedWriteMaps(m, b, bytes, isUser, advise);
      var t := TrappedWrite(m, b, bytes, advise).1;
      SameTrap(t, b.emuAddr, x, true, isUser);
      OnePageUntrapped(t, x, |bytes|, true, isUser);
    }
  }

  lemma PartIsDone(m: Machine, r: Option<ResolvedAccess>, k: nat, x: nat, bytes: seq<Byte>, isUser: bool,
                   advise: (nat, nat) -> Advice)
    requires Inv(m) && x < MAX_RAM && PartReady(m, r, k, x, |bytes|, isUser)
    ensures InRange(m, r, k)
    ensures var t := PartAfter(m, r, k, x, bytes, advise);
            && Inv(t) && |t.meta| == |t.clean| == NUM_PAGES && Traced(m, t, advise)
            && PartDone(m, t, r, k, x, bytes, advise)
  {
    hide Traced, PartDone, PartAfter, Coherent, Mirrored, Recorded;
    match r
    case None => PartUnresolved(m, k, x, bytes, isUser, advise);
    case Some(a) => PartResolved(m, a, k, x, bytes, isUser, advise);
  }

  // What a part hands on by itself: to a device, to nowhere, or past the mapping.
  ghost predicate PartHanded(m: Machine, t: Machine, r: Option<ResolvedAccess>, k: nat, bytes: seq<Byte>,
                             advise: (nat, nat) -> Advice)
    requires m.log <= t.log
  {
    r.Some? ==>
      var to, events := r.value.physAddr + k, t.log[|m.log|..];
      match RouteOf(m, r, k, |bytes|, advise)
      case ByMapping => true
      case PastMapping => Advised(to, |bytes|, DoNotMark) in events && Stored(Span(to, bytes)) in events
      case Elsewhere => (if r.value.Frame() in m.devices then ToDevice(to, bytes) else Dropped(to, bytes)) in events
  }

  lemma TrappedWriteHandsOn(m: Machine, a: ResolvedAccess, bytes: seq<Byte>, advise: (nat, nat) -> Advice)
    requires a.Page() < |m.meta| && a.Frame() < |m.clean|
    ensures var t := TrappedWrite(m, a, bytes, advise).1;
            m.log <= t.log && PartHanded(m, t, Some(a), 0, bytes, advise)
  {
    hide Span, CleanStep, RamStep, MetadataBits;
    var to, store := a.physAddr, Stored(Span(a.physAddr, bytes));
    var asked := m.log + [Advised(to, |bytes|, DoNotMark)];
    LoggedLast(m.log, m.log, ToDevice(to, bytes));
    LoggedLast(m.log, m.log, Dropped(to, bytes));
    LoggedLast(m.log, m.log, Advised(to, |bytes|, DoNotMark));
    LoggedLast(m.log, asked, store);
    assert (asked + [store])[|m.log|..] == asked[|m.log|..] + [store];
  }

  lemma PartHandsOn(m: Machine, r: Option<ResolvedAccess>, k: nat, x: nat, bytes: seq<Byte>, isUser: bool,
                    advise: (nat, nat) -> Advice)
    requires Sizes(m) && x < MAX_RAM && PartReady(m, r, k, x, |bytes|, isUser)
    ensures InRange(m, r, k)
    ensures var t := PartAfter(m, r, k, x, bytes, advise); m.log <= t.log && PartHanded(m, t, r, k, bytes, advise)
  {
    hide Spread, Span, CleanStep, RamStep, TrappedWrite, Target, ShouldTrap, RouteOf;
    if r.Some? {
      var b := r.value.WithOffset(k);
      RouteMoved(m, r.value, k, |bytes|, advise);
      TrappedWriteRoute(m, r.value, k, bytes, advise);
      TrappedWriteHandsOn(m, b, bytes, advise);
    }
  }

  // What a part tells, beside what it stores, at a moment when these frames are clean.
  function PartTold(m: Machine, clean: seq<bool>, r: Option<ResolvedAccess>, k: nat, bytes: seq<Byte>,
                    advise: (nat, nat) -> Advice): seq<Event>
  {
    match r
    case None => []
    case Some(a) =>
      var to := a.physAddr + k;
      if a.Frame() in m.devices then [ToDevice(to, bytes)]
      else if a.physAddr >= |m.ram| then [Dropped(to, bytes)]
      else if !a.needsDirtyMark then []
      else AskedAndMarked(clean, a.Frame(), to, bytes, advise)
  }

  // The device is asked; if it agrees and the frame is clean, that is marked dirty and the device notified.
  function AskedAndMarked(clean: seq<bool>, frame: nat, to: nat, bytes: seq<Byte>,
                          advise: (nat, nat) -> Advice): seq<Event>
  {
    var answer := advise(to, |bytes|);
    var marked := answer == DirtyOk && frame < |clean| && clean[frame];
    [Advised(to, |bytes|, answer)] + if marked then [MarkedDirty(frame), Notified(frame)] else []
  }

  ghost predicate LogTells(m: Machine, t: Machine, told: seq<Event>) {
    m.log <= t.log && Told(t.log[|m.log|..]) == told
  }

  lemma TellsNothing(m: Machine, t: Machine)
    requires t.log == m.log
    ensures LogTells(m, t, [])
  {
    assert t.log[|m.log|..] == [];
  }

  lemma TellsNext(m: Machine, t: Machine, told: seq<Event>, e: Event)
    requires LogTells(m, t, told)
    ensures LogTells(m, Happened(t, e), told + if e.Stored? then [] else [e])
  {
    hide RamStep, CleanStep;
    ToldOne(e);
    ToldConcat(t.log[|m.log|..], [e]);
    assert (t.log + [e])[|m.log|..] == t.log[|m.log|..] + [e];
  }

  lemma TellsConcat(m: Machine, s: Machine, t: Machine, told: seq<Event>, told': seq<Event>)
    requires LogTells(m, s, told) && LogTells(s, t, told')
    ensures LogTells(m, t, told + told')
  {
    ToldConcat(s.log[|m.log|..], t.log[|s.log|..]);
    assert t.log[|m.log|..] == s.log[|m.log|..] + t.log[|s.log|..];
  }

  lemma TrappedWriteTells(m: Machine, a: ResolvedAccess, bytes: seq<Byte>, advise: (nat, nat) -> Advice)
    requires a.Page() < |m.meta| && a.Frame() < |m.clean|
    ensures var t := TrappedWrite(m, a, bytes, advise).1;
            LogTells(m, t, PartTold(m, m.clean, Some(a), 0, bytes, advise))
  {
    hide Span, RamStep, CleanStep, MetadataBits, LogTells;
    var to := a.physAddr;
    var asked := Advised(to, |bytes|, advise(to, |bytes|));
    var s := Happened(m, asked);
    TellsNothing(m, m);
    if a.Frame() in m.devices {
      TellsFirst(m, ToDevice(to, bytes));
    } else if a.physAddr >= |m.ram| {
      TellsFirst(m, Dropped(to, bytes));
    } else if a.needsDirtyMark {
      TellsFirst(m, asked);
      assert s.clean == m.clean by { CleanStepKeeps(m.clean, asked); }
      DirtiedTells(m, s, [asked], a.Frame());
      TellsNext(m, s, [asked], Stored(Span(to, bytes)));
      assert [asked] + [] == [asked];
      TellsInstalled(m, Dirtied(s, a.Frame()), a, AskedAndMarked(m.clean, a.Frame(), to, bytes, advise));
    } else {
      TellsInstalled(m, m, a, []);
    }
  }

  lemma TellsFirst(m: Machine, e: Event)
    requires !e.Stored?
    ensures LogTells(m, Happened(m, e), [e])
  {
    TellsNothing(m, m);
    TellsNext(m, m, [], e);
    assert [] + [e] == [e];
  }

  lemma TellsInstalled(m: Machine, t: Machine, a: ResolvedAccess, told: seq<Event>)
    requires a.Page() < |t.meta|
    ensures LogTells(m, Install(t, a), told) == LogTells(m, t, told)
  {
    hide MetadataBits;
  }

  lemma DirtiedTells(m: Machine, t: Machine, told: seq<Event>, frame: nat)
    requires LogTells(m, t, told) && frame < |t.clean|
    ensures LogTells(m, Dirtied(t, frame), told + if t.clean[frame] then [MarkedDirty(frame), Notified(frame)] else [])
  {
    hide LogTells, CleanStep, RamStep;
    if t.clean[frame] {
      TellsNext(m, t, told, MarkedDirty(frame));
      TellsNext(m, Happened(t, MarkedDirty(frame)), told + [MarkedDirty(frame)], Notified(frame));
      assert told + [MarkedDirty(frame)] + [Notified(frame)] == told + [MarkedDirty(frame), Notified(frame)];
    } else {
      assert told + [] == told;
    }
  }

  lemma PartTells(m: Machine, r: Option<ResolvedAccess>, k: nat, x: nat, bytes: seq<Byte>, isUser: bool,
                  advise: (nat, nat) -> Advice)
    requires Sizes(m) && x < MAX_RAM && PartReady(m, r, k, x, |bytes|, isUser)
    ensures InRange(m, r, k)
    ensures LogTells(m, PartAfter(m, r, k, x, bytes, advise), PartTold(m, m.clean, r, k, bytes, advise))
  {
    hide Spread, Span, CleanStep, RamStep, TrappedWrite, Target, ShouldTrap, LogTells, AskedAndMarked;
    if r.None? {
      TellsNothing(m, m);
      TellsNext(m, m, [], Stored(Spread(m.host, x, bytes)));
    } else {
      var b := r.value.WithOffset(k);
      OffsetStaysInFrame(m, r.value, k);
      TrappedWriteTells(m, b, bytes, advise);
      var t, told := TrappedWrite(m, b, bytes, advise).1, PartTold(m, m.clean, r, k, bytes, advise);
      TellsNext(m, t, told, Stored(Spread(t.host, x, bytes)));
      assert told + [] == told;
    }
  }

  lemma LoggedLast(log: seq<Event>, before: seq<Event>, e: Event)
    requires log <= before
    ensures e in (before + [e])[|log|..]
  {
    assert (before + [e])[|before|] == e;
    assert (before + [e])[|log|..][|before| - |log|] == e;
  }

  // What was handed on stays in the log.
  lemma HandedStays(m: Machine, s: Machine, t: Machine, r: Option<ResolvedAccess>, k: nat, bytes: seq<Byte>,
                    advise: (nat, nat) -> Advice)
    requires m.log <= s.log <= t.log && s.devices == m.devices && |s.ram| == |m.ram|
    ensures PartHanded(m, s, r, k, bytes, advise) ==> PartHanded(m, t, r, k, bytes, advise)
    ensures PartHanded(s, t, r, k, bytes, advise) ==> PartHanded(m, t, r, k, bytes, advise)
  {
    hide Span;
    assert forall e :: e in s.log[|m.log|..] ==> e in t.log[|m.log|..];
    assert forall e :: e in t.log[|s.log|..] ==> e in t.log[|m.log|..];
  }

  // ----- Where the bytes of a prepared write go

  // The access that covers byte n of a prepared write.
  function PartOf(w: PreparedWrite, n: nat): Option<ResolvedAccess> {
    if w.addr % PAGE_SIZE + n < PAGE_SIZE then w.first else w.second
  }

  // Byte n of a prepared write goes through the host mapping, past it to RAM, or away. A write within one page travels
  // in one piece; one that spans two travels byte by byte, each moved on by its offset from the start of the write.
  datatype Place = Through(addr: nat) | Past(addr: nat) | Away

  function Piece(w: PreparedWrite, n: nat): seq<Byte>
    requires n < |w.val|
  {
    if w.split then [w.val[n]] else w.val
  }

  function MovedBy(w: PreparedWrite, n: nat): nat { if w.split then n else 0 }

  function PlaceOf(m: Machine, w: PreparedWrite, n: nat, advise: (nat, nat) -> Advice): Place
    requires n < |w.val|
  {
    var r, y := PartOf(w, n), w.addr + n;
    match RouteOf(m, r, MovedBy(w, n), |Piece(w, n)|, advise)
    case ByMapping =>
      if r.Some? then Through(r.value.Frame() * PAGE_SIZE + y % PAGE_SIZE) else Through(Target(m.host, y))
    case PastMapping => if r.Some? then Past(r.value.physAddr + n) else Away
    case Elsewhere => Away
  }

  function Places(m: Machine, w: PreparedWrite, advise: (nat, nat) -> Advice): (places: seq<Place>)
    ensures |places| == |w.val|
  {
    seq(|w.val|, n requires 0 <= n < |w.val| => PlaceOf(m, w, n, advise))
  }

  predicate IsAt(p: Place, a: nat) { !p.Away? && p.addr == a }

  // Of the first n bytes, byte i is the last whose place is a.
  ghost predicate LastAt(places: seq<Place>, n: nat, a: nat, i: nat)
    requires n <= |places|
  {
    i < n && IsAt(places[i], a) && forall j: nat :: i < j < n ==> !IsAt(places[j], a)
  }

  function Put(ram: seq<Byte>, p: Place, b: Byte): seq<Byte> {
    if !p.Away? && p.addr < |ram| then ram[p.addr := b] else ram
  }

  // RAM once the first n bytes have been put in their places, in order.
  function PutFirst(ram: seq<Byte>, places: seq<Place>, val: seq<Byte>, n: nat): seq<Byte>
    requires n <= |places| == |val|
  {
    if n == 0 then ram else Put(PutFirst(ram, places, val, n - 1), places[n - 1], val[n - 1])
  }

  // A byte of RAM is what was put there last, and what it was before if nothing was.
  lemma {:induction false} PutFirstMeaning(ram: seq<Byte>, places: seq<Place>, val: seq<Byte>, n: nat)
    requires n <= |places| == |val|
    ensures |PutFirst(ram, places, val, n)| == |ram|
    ensures forall a: nat :: a < |ram| && (forall i: nat :: i < n ==> !IsAt(places[i], a)) ==>
              PutFirst(ram, places, val, n)[a] == ram[a]
    ensures forall a: nat, i: nat :: a < |ram| && LastAt(places, n, a, i) ==> PutFirst(ram, places, val, n)[a] == val[i]
  {
    if n > 0 {
      PutFirstMeaning(ram, places, val, n - 1);
      assert forall a: nat, i: nat :: LastAt(places, n, a, i) && i < n - 1 ==> LastAt(places, n - 1, a, i);
    }
  }

  // Byte a of RAM lies as far into its frame as the byte it is for lies in its page, but for what is stored past the
  // mapping of a second page.
  lemma PlaceOffset(m: Machine, w: PreparedWrite, n: nat, isUser: bool, advise: (nat, nat) -> Advice)
    requires |m.meta| == |m.clean| == NUM_PAGES && Prepared(m, w, isUser) && n < |w.val|
    ensures var p := PlaceOf(m, w, n, advise);
            && (p.Through? ==> p.addr % PAGE_SIZE == (w.addr + n) % PAGE_SIZE)
            && (p.Past? ==>
                  p.addr % PAGE_SIZE == if w.addr % PAGE_SIZE + n < PAGE_SIZE then (w.addr + n) % PAGE_SIZE else n)
  {
    hide RouteOf, Target;
    PageOfByte(w.addr, n);
    PageOfByte(w.addr, |w.val|);
    TargetOffset(m.host, w.addr + n);
  }

  lemma TargetOffset(host: map<nat, nat>, y: nat)
    ensures Target(host, y) % PAGE_SIZE == y % PAGE_SIZE
  {
  }

  // No byte is put where an earlier one went through the mapping, or past it on the first page.
  lemma PlacesApart(m: Machine, w: PreparedWrite, i: nat, j: nat, isUser: bool, advise: (nat, nat) -> Advice)
    requires |m.meta| == |m.clean| == NUM_PAGES && Prepared(m, w, isUser) && i < j < |w.val|
    ensures var p := PlaceOf(m, w, i, advise);
            p.Through? || (p.Past? && w.addr % PAGE_SIZE + i < PAGE_SIZE) ==>
              !IsAt(PlaceOf(m, w, j, advise), p.addr)
  {
    hide PlaceOf;
    PlaceOffset(m, w, i, isUser, advise);
    PlaceOffset(m, w, j, isUser, advise);
    OffsetsApart(w.addr, i, j);
  }

  lemma OffsetsApart(x: nat, i: nat, j: nat)
    requires i < j < 8
    ensures (x + i) % PAGE_SIZE != (x + j) % PAGE_SIZE
    ensures x % PAGE_SIZE + j >= PAGE_SIZE ==> (x + i) % PAGE_SIZE != j
  {
  }

  // ----- A write in progress

  // The host maps byte n of the write where its access was resolved to, or where it was mapped before.
  ghost predicate MappedAsResolved(m: Machine, t: Machine, w: PreparedWrite, n: nat)
    requires |m.meta| == |t.meta| == NUM_PAGES
  {
    var page := (w.addr + n) / PAGE_SIZE;
    match PartOf(w, n)
    case Some(a) => InstalledAt(t, a, page)
    case None => PageKept(m, t, page)
  }

  // Page p is kept, or mapped by the access that was resolved for it.
  ghost predicate PageWritten(m: Machine, t: Machine, w: PreparedWrite, p: nat)
    requires |m.meta| == |t.meta| == NUM_PAGES
  {
    || PageKept(m, t, p)
    || (p == w.addr / PAGE_SIZE && Maps(m, t, w.first, p))
    || (w.split && p == w.addr / PAGE_SIZE + 1 && Maps(m, t, w.second, p))
  }

  ghost predicate PagesWritten(m: Machine, t: Machine, w: PreparedWrite)
    requires |m.meta| == |t.meta| == NUM_PAGES
  {
    forall p: nat :: PageWritten(m, t, w, p)
  }

  // A page that is not kept is that of one of the first n bytes that goes through the mapping.
  ghost predicate MappedForBytes(m: Machine, t: Machine, w: PreparedWrite, n: nat, advise: (nat, nat) -> Advice)
    requires |m.meta| == |t.meta| == NUM_PAGES && n <= |w.val|
  {
    forall p: nat :: !PageKept(m, t, p) ==> exists i: nat :: i < n && PageThrough(m, w, i, p, advise)
  }

  ghost predicate PageThrough(m: Machine, w: PreparedWrite, i: nat, p: nat, advise: (nat, nat) -> Advice)
    requires i < |w.val|
  {
    (w.addr + i) / PAGE_SIZE == p && PlaceOf(m, w, i, advise).Through?
  }

  // What the write hands on of byte n.
  ghost predicate HandedOn(m: Machine, t: Machine, w: PreparedWrite, n: nat, advise: (nat, nat) -> Advice)
    requires m.log <= t.log && n < |w.val|
  {
    PartHanded(m, t, PartOf(w, n), MovedBy(w, n), Piece(w, n), advise)
  }

  // t is m after the first n bytes of the prepared write.
  ghost predicate Progress(m: Machine, t: Machine, w: PreparedWrite, n: nat, isUser: bool, advise: (nat, nat) -> Advice)
    requires |m.meta| == |m.clean| == NUM_PAGES && n <= |w.val| && w.addr + |w.val| <= MAX_RAM
  {
    && |t.meta| == |t.clean| == NUM_PAGES && |t.ram| == |m.ram|
    && t.control == m.control && t.devices == m.devices
    && Prepared(t, w, isUser) && PagesWritten(m, t, w) && MappedForBytes(m, t, w, n, advise)
    && t.ram == PutFirst(m.ram, Places(m, w, advise), w.val, n)
    && (forall i: nat :: i < n && PlaceOf(m, w, i, advise).Through? ==> MappedAsResolved(m, t, w, i))
    && Traced(m, t, advise) && m.log <= t.log && forall i: nat :: i < n ==> HandedOn(m, t, w, i, advise)
  }

  // A step of a write that spans two pages.
  ghost predicate StepDone(m: Machine, t: Machine, w: PreparedWrite, n: nat, advise: (nat, nat) -> Advice)
    requires |m.meta| == |t.meta| == |m.clean| == |t.clean| == NUM_PAGES && n < |w.val|
  {
    PartDone(m, t, PartOf(w, n), n, w.addr + n, [w.val[n]], advise)
  }

  lemma ReadyAgain(m: Machine, t: Machine, w: PreparedWrite, n: nat, isUser: bool, advise: (nat, nat) -> Advice)
    requires |m.meta| == |t.meta| == |m.clean| == |t.clean| == NUM_PAGES && Prepared(m, w, isUser) && n < |w.val|
    requires StepDone(m, t, w, n, advise)
    ensures Prepared(t, w, isUser)
  {
    hide ShouldTrap, Spread, Span, Overlaid, Target;
    PageOfByte(w.addr, n);
    PageOfByte(w.addr, |w.val|);
    var page, next, done := w.addr / PAGE_SIZE, NextPage(w.addr) / PAGE_SIZE, (w.addr + n) / PAGE_SIZE;
    assert page != done ==> PageKept(m, t, page);
    assert next != done ==> PageKept(m, t, next);
    assert PartOf(w, n).None? ==> PageKept(m, t, done);
  }

  // A page that no access was resolved for is kept.
  lemma UnresolvedKept(m: Machine, t: Machine, w: PreparedWrite, n: nat, isUser: bool)
    requires |m.meta| == |t.meta| == |m.clean| == NUM_PAGES && Prepared(m, w, isUser) && n < |w.val|
    requires PagesWritten(m, t, w) && PartOf(w, n).None?
    ensures PageKept(m, t, (w.addr + n) / PAGE_SIZE)
  {
    hide Ready, PageKept;
    PageOfByte(w.addr, n);
    PageOfByte(w.addr, |w.val|);
    assert PageWritten(m, t, w, (w.addr + n) / PAGE_SIZE);
  }

  // What holds of a page by way of access r holds again once the page is kept or mapped by r once more.
  lemma HoldsAgain(m0: Machine, m: Machine, t: Machine, r: Option<ResolvedAccess>, p: nat)
    requires |m0.meta| == |m.meta| == |t.meta| == NUM_PAGES
    requires PageKept(m, t, p) || (r.Some? && InstalledAt(t, r.value, p))
    requires if r.Some? then InstalledAt(m, r.value, p) else PageKept(m0, m, p)
    ensures if r.Some? then InstalledAt(t, r.value, p) else PageKept(m0, t, p)
  {
    hide MetadataBits;
  }

  lemma MappedAgain(m0: Machine, m: Machine, t: Machine, w: PreparedWrite, n: nat, i: nat, advise: (nat, nat) -> Advice)
    requires |m.meta| == |t.meta| == |m.clean| == |t.clean| == |m0.meta| == NUM_PAGES
    requires i < n < |w.val| <= 8 && MappedAsResolved(m0, m, w, i) && StepDone(m, t, w, n, advise)
    ensures MappedAsResolved(m0, t, w, i)
  {
    hide InstalledAt, PageKept, RouteOf, Target, Spread, Span, Overlaid, RamBacked;
    PageOfByte(w.addr, n);
    PageOfByte(w.addr, i);
    var page := (w.addr + i) / PAGE_SIZE;
    assert page != (w.addr + n) / PAGE_SIZE ==> PageKept(m, t, page);
    HoldsAgain(m0, m, t, PartOf(w, i), page);
  }

  lemma SameRoute(m0: Machine, m: Machine, r: Option<ResolvedAccess>, k: nat, n: nat, advise: (nat, nat) -> Advice)
    requires m.devices == m0.devices && |m.ram| == |m0.ram|
    ensures RouteOf(m, r, k, n, advise) == RouteOf(m0, r, k, n, advise)
  {
  }

  // The next byte of a write that spans two pages is put in its place, on its own page if it goes through the mapping.
  lemma NewlyPut(m0: Machine, m: Machine, t: Machine, w: PreparedWrite, n: nat, isUser: bool,
                 advise: (nat, nat) -> Advice)
    requires |m.meta| == |t.meta| == |m.clean| == |t.clean| == |m0.meta| == |m0.clean| == NUM_PAGES
    requires w.split && n < |w.val| && Prepared(m0, w, isUser) && StepDone(m, t, w, n, advise)
    requires m.devices == m0.devices && |m.ram| == |m0.ram| && PagesWritten(m0, m, w)
    ensures t.ram == Put(m.ram, PlaceOf(m0, w, n, advise), w.val[n])
    ensures PlaceOf(m0, w, n, advise).Through? ==> MappedAsResolved(m0, t, w, n)
  {
    hide PagesWritten, Spread, Span, Overlaid, RouteOf, MetadataBits, Target, RamBacked;
    var r, y, b := PartOf(w, n), w.addr + n, w.val[n];
    SameRoute(m0, m, r, n, 1, advise);
    OneByteStored(t.host, m.ram, y, b);
    if r.None? {
      UnresolvedKept(m0, m, w, n, isUser);
      KeptTarget(m0, m, y);
      KeptTarget(m, t, y);
    } else {
      InstalledTarget(t, r.value, y);
      OneBytePast(m.ram, r.value.physAddr + n, b);
    }
  }

  lemma OneByteStored(host: map<nat, nat>, ram: seq<Byte>, y: nat, b: Byte)
    ensures Target(host, y) < |ram| ==> Overlaid(ram, Spread(host, y, [b])) == ram[Target(host, y) := b]
  {
    assert [b][..0] == [] && Spread(host, y, [b][..0]) == map[];
  }

  lemma OneBytePast(ram: seq<Byte>, a: nat, b: Byte)
    ensures a < |ram| ==> Overlaid(ram, Span(a, [b])) == ram[a := b]
  {
  }

  lemma KeptTarget(m: Machine, t: Machine, y: nat)
    requires |m.meta| == |t.meta| == NUM_PAGES
    ensures PageKept(m, t, y / PAGE_SIZE) ==> Target(t.host, y) == Target(m.host, y)
  {
  }

  lemma InstalledTarget(t: Machine, a: ResolvedAccess, y: nat)
    requires |t.meta| == NUM_PAGES
    ensures InstalledAt(t, a, y / PAGE_SIZE) ==> Target(t.host, y) == a.Frame() * PAGE_SIZE + y % PAGE_SIZE
  {
    hide MetadataBits;
  }

  // Whatever device or advice the next byte meets, its page is kept or mapped by its own access.
  lemma PagesWrittenStep(m0: Machine, m: Machine, t: Machine, w: PreparedWrite, n: nat, isUser: bool,
                         advise: (nat, nat) -> Advice)
    requires |m.meta| == |t.meta| == |m.clean| == |t.clean| == |m0.meta| == |m0.clean| == NUM_PAGES
    requires n < |w.val| && Prepared(m0, w, isUser) && StepDone(m, t, w, n, advise)
    requires m.devices == m0.devices && |m.ram| == |m0.ram| && PagesWritten(m0, m, w)
    ensures PagesWritten(m0, t, w)
  {
    hide Maps, Ready, RouteOf, Spread, Span, Overlaid, Target;
    PageOfByte(w.addr, n);
    PageOfByte(w.addr, |w.val|);
    forall p: nat ensures PageWritten(m0, t, w, p) {
      assert PageWritten(m0, m, w, p);
      if PageKept(m, t, p) {
        MapsAgain(m0, m, t, w.first, p);
        MapsAgain(m0, m, t, w.second, p);
      } else {
        MapsSince(m0, m, t, PartOf(w, n), p);
      }
    }
  }

  lemma MapsAgain(m0: Machine, m: Machine, t: Machine, r: Option<ResolvedAccess>, p: nat)
    requires |m0.meta| == |m.meta| == |t.meta| == NUM_PAGES && PageKept(m, t, p)
    ensures Maps(m0, m, r, p) ==> Maps(m0, t, r, p)
    ensures PageKept(m0, m, p) ==> PageKept(m0, t, p)
  {
    hide MetadataBits;
  }

  lemma MapsSince(m0: Machine, m: Machine, t: Machine, r: Option<ResolvedAccess>, p: nat)
    requires |t.meta| == NUM_PAGES && m.devices == m0.devices && |m.ram| == |m0.ram|
    ensures Maps(m, t, r, p) ==> Maps(m0, t, r, p)
  {
    hide InstalledAt;
  }

  lemma MappedForOneMore(m0: Machine, m: Machine, t: Machine, w: PreparedWrite, n: nat, advise: (nat, nat) -> Advice)
    requires |m.meta| == |t.meta| == |m.clean| == |t.clean| == |m0.meta| == NUM_PAGES && n < |w.val| && w.split
    requires StepDone(m, t, w, n, advise) && m.devices == m0.devices && |m.ram| == |m0.ram|
    requires MappedForBytes(m0, m, w, n, advise)
    ensures MappedForBytes(m0, t, w, n + 1, advise)
  {
    hide Maps, RouteOf, Spread, Span, Overlaid, Target;
    SameRoute(m0, m, PartOf(w, n), n, 1, advise);
    forall p: nat | !PageKept(m0, t, p) ensures exists i: nat :: i < n + 1 && PageThrough(m0, w, i, p, advise) {
      if PageKept(m, t, p) {
        assert !PageKept(m0, m, p);
        var i: nat :| i < n && PageThrough(m0, w, i, p, advise);
      } else {
        assert PageThrough(m0, w, n, p, advise);
      }
    }
  }

  // One byte more.
  lemma ProgressStep(m0: Machine, m: Machine, t: Machine, w: PreparedWrite, n: nat, isUser: bool,
                     advise: (nat, nat) -> Advice)
    requires |m.meta| == |t.meta| == |m.clean| == |t.clean| == |m0.meta| == |m0.clean| == NUM_PAGES
    requires w.split && n < |w.val| && Prepared(m0, w, isUser) && Progress(m0, m, w, n, isUser, advise)
    requires StepDone(m, t, w, n, advise) && Traced(m, t, advise) && m.log <= t.log
    requires PartHanded(m, t, PartOf(w, n), n, [w.val[n]], advise)
    ensures Progress(m0, t, w, n + 1, isUser, advise)
  {
    hide Traced, PartHanded, PartOf;
    ReadyAgain(m, t, w, n, isUser, advise);
    PagesWrittenStep(m0, m, t, w, n, isUser, advise);
    NewlyPut(m0, m, t, w, n, isUser, advise);
    MappedForOneMore(m0, m, t, w, n, advise);
    TracedTrans(m0, m, t, advise);
    hide PagesWritten, Prepared, RouteOf, MappedForBytes;
    forall i: nat | i < n && PlaceOf(m0, w, i, advise).Through? ensures MappedAsResolved(m0, t, w, i) {
      MappedAgain(m0, m, t, w, n, i, advise);
    }
    HandedStays(m0, m, t, PartOf(w, n), n, [w.val[n]], advise);
    forall i: nat | i < n ensures HandedOn(m0, t, w, i, advise) {
      assert HandedOn(m0, m, w, i, advise);
      HandedStays(m0, m, t, PartOf(w, i), MovedBy(w, i), Piece(w, i), advise);
    }
  }

  lemma BeforePart(m: Machine, w: PreparedWrite, n: nat, isUser: bool)
    requires |m.meta| == |m.clean| == NUM_PAGES && Prepared(m, w, isUser) && n < |w.val|
    requires w.split || n == 0
    ensures w.addr + n < MAX_RAM && PartReady(m, PartOf(w, n), MovedBy(w, n), w.addr + n, |Piece(w, n)|, isUser)
  {
    hide ShouldTrap;
    PageOfByte(w.addr, n);
    PageOfByte(w.addr, |w.val|);
    if PartOf(w, n).Some? {
      OffsetStaysInFrame(m, PartOf(w, n).value, MovedBy(w, n));
    }
  }

  // What a step does, and what a whole prepared write does.
  function StepAfter(m: Machine, w: PreparedWrite, n: nat, advise: (nat, nat) -> Advice): Machine
    requires n < |w.val|
  {
    var r, k := PartOf(w, n), MovedBy(w, n);
    if InRange(m, r, k) then PartAfter(m, r, k, w.addr + n, Piece(w, n), advise) else m
  }

  function StepsAfter(m: Machine, w: PreparedWrite, n: nat, advise: (nat, nat) -> Advice): Machine
    requires n <= |w.val|
  {
    if n == 0 then m else StepAfter(StepsAfter(m, w, n - 1, advise), w, n - 1, advise)
  }

  function Executed(m: Machine, w: PreparedWrite, advise: (nat, nat) -> Advice): Machine
    requires w.val != []
  {
    if w.split then StepsAfter(m, w, |w.val|, advise) else StepAfter(m, w, 0, advise)
  }

  // What the method that makes a part asks for.
  lemma BeforeStep(m: Machine, w: PreparedWrite, n: nat, isUser: bool)
    requires |m.meta| == |m.clean| == NUM_PAGES && Prepared(m, w, isUser) && n < |w.val| && (w.split || n == 0)
    ensures w.addr + n < MAX_RAM && InRange(m, PartOf(w, n), MovedBy(w, n))
    ensures PartReady(m, PartOf(w, n), MovedBy(w, n), w.addr + n, |Piece(w, n)|, isUser)
    ensures MovedBy(w, n) == n && Piece(w, n) == if w.split then [w.val[n]] else w.val
    ensures !w.split ==> PartOf(w, n) == w.first
  {
    BeforePart(m, w, n, isUser);
  }

  lemma StepIsDone(m: Machine, w: PreparedWrite, n: nat, isUser: bool, advise: (nat, nat) -> Advice)
    requires Inv(m) && |m.meta| == |m.clean| == NUM_PAGES && Prepared(m, w, isUser) && n < |w.val|
    requires (w.split || n == 0)
    ensures var t := StepAfter(m, w, n, advise);
            && Inv(t) && |t.meta| == |t.clean| == NUM_PAGES && Traced(m, t, advise) && m.log <= t.log
            && PartDone(m, t, PartOf(w, n), MovedBy(w, n), w.addr + n, Piece(w, n), advise)
            && PartHanded(m, t, PartOf(w, n), MovedBy(w, n), Piece(w, n), advise)
  {
    hide Inv, Traced, PartDone, PartHanded, PartAfter, PartReady, PartOf, Prepared, InRange, Piece, MovedBy, Sizes;
    SizesOf(m);
    BeforePart(m, w, n, isUser);
    var r, k, y, piece := PartOf(w, n), MovedBy(w, n), w.addr + n, Piece(w, n);
    PartIsDone(m, r, k, y, piece, isUser, advise);
    PartHandsOn(m, r, k, y, piece, isUser, advise);
  }

  lemma {:induction false} StepsProgress(m: Machine, w: PreparedWrite, n: nat, isUser: bool,
                                         advise: (nat, nat) -> Advice)
    requires Inv(m) && |m.meta| == |m.clean| == NUM_PAGES && Prepared(m, w, isUser) && w.split && n <= |w.val|
    ensures Inv(StepsAfter(m, w, n, advise)) && Progress(m, StepsAfter(m, w, n, advise), w, n, isUser, advise)
  {
    hide Inv, Traced, Progress, PartDone, PartHanded, StepAfter, PartOf, Prepared, Sizes;
    if n == 0 {
      NothingYet(m, w, isUser, advise);
    } else {
      PreparedWithin(m, w, isUser);
      StepsProgress(m, w, n - 1, isUser, advise);
      var s := StepsAfter(m, w, n - 1, advise);
      AlreadyReady(m, s, w, n - 1, isUser, advise);
      StepIsDone(s, w, n - 1, isUser, advise);
      ProgressStep(m, s, StepsAfter(m, w, n, advise), w, n - 1, isUser, advise);
    }
  }

  lemma PreparedWithin(m: Machine, w: PreparedWrite, isUser: bool)
    requires |m.meta| == |m.clean| == NUM_PAGES && Prepared(m, w, isUser)
    ensures 1 <= |w.val| <= 8 && w.addr + |w.val| <= MAX_RAM
  {
  }

  lemma NothingYet(m: Machine, w: PreparedWrite, isUser: bool, advise: (nat, nat) -> Advice)
    requires |m.meta| == |m.clean| == NUM_PAGES && Prepared(m, w, isUser)
    ensures Progress(m, m, w, 0, isUser, advise)
  {
    hide Traced;
    TracedRefl(m, m, advise);
  }

  lemma AlreadyReady(m: Machine, s: Machine, w: PreparedWrite, n: nat, isUser: bool, advise: (nat, nat) -> Advice)
    requires |m.meta| == |m.clean| == NUM_PAGES && n <= |w.val| && w.addr + |w.val| <= MAX_RAM
    requires Progress(m, s, w, n, isUser, advise)
    ensures |s.meta| == |s.clean| == NUM_PAGES && Prepared(s, w, isUser)
  {
  }

  // What the first n pieces of a prepared write tell, each when the frames marked before are no longer clean.
  function PiecesTold(m: Machine, w: PreparedWrite, n: nat, advise: (nat, nat) -> Advice): seq<Event>
    requires n <= |w.val|
  {
    if n == 0 then []
    else
      var before := PiecesTold(m, w, n - 1, advise);
      before + PartTold(m, CleanAfter(m.clean, before), PartOf(w, n - 1), MovedBy(w, n - 1), Piece(w, n - 1), advise)
  }

  function PreparedTold(m: Machine, w: PreparedWrite, advise: (nat, nat) -> Advice): seq<Event>
    requires w.val != []
  {
    if w.split then PiecesTold(m, w, |w.val|, advise) else PartTold(m, m.clean, w.first, 0, w.val, advise)
  }

  lemma StepTells(m: Machine, w: PreparedWrite, n: nat, isUser: bool, advise: (nat, nat) -> Advice)
    requires Inv(m) && |m.meta| == |m.clean| == NUM_PAGES && Prepared(m, w, isUser) && n < |w.val|
    requires w.split || n == 0
    ensures LogTells(m, StepAfter(m, w, n, advise),
                     PartTold(m, m.clean, PartOf(w, n), MovedBy(w, n), Piece(w, n), advise))
  {
    hide Inv, PartTold, PartAfter, PartReady, PartOf, Prepared, InRange, Piece, MovedBy, Sizes, LogTells;
    SizesOf(m);
    BeforePart(m, w, n, isUser);
    PartTells(m, PartOf(w, n), MovedBy(w, n), w.addr + n, Piece(w, n), isUser, advise);
  }

  lemma {:induction false} StepsTell(m: Machine, w: PreparedWrite, n: nat, isUser: bool, advise: (nat, nat) -> Advice)
    requires Inv(m) && |m.meta| == |m.clean| == NUM_PAGES && Prepared(m, w, isUser) && w.split && n <= |w.val|
    ensures LogTells(m, StepsAfter(m, w, n, advise), PiecesTold(m, w, n, advise))
  {
    hide Inv, PartTold, Progress, StepAfter, PartOf, Prepared, Piece, MovedBy, Sizes, LogTells;
    if n == 0 {
      TellsNothing(m, m);
    } else {
      var s, told := StepsAfter(m, w, n - 1, advise), PiecesTold(m, w, n - 1, advise);
      PreparedWithin(m, w, isUser);
      StepsProgress(m, w, n - 1, isUser, advise);
      AlreadyReady(m, s, w, n - 1, isUser, advise);
      StepsTell(m, w, n - 1, isUser, advise);
      StepTells(s, w, n - 1, isUser, advise);
      ToldSince(m, s, w, n - 1, isUser, advise, told);
      SameTold(m, s, s.clean, PartOf(w, n - 1), MovedBy(w, n - 1), Piece(w, n - 1), advise);
      TellsConcat(m, s, StepsAfter(m, w, n, advise), told,
                  PartTold(m, s.clean, PartOf(w, n - 1), MovedBy(w, n - 1), Piece(w, n - 1), advise));
    }
  }

  lemma ToldSince(m: Machine, s: Machine, w: PreparedWrite, n: nat, isUser: bool, advise: (nat, nat) -> Advice,
                  told: seq<Event>)
    requires |m.meta| == |m.clean| == NUM_PAGES && n <= |w.val| && w.addr + |w.val| <= MAX_RAM
    requires Progress(m, s, w, n, isUser, advise) && LogTells(m, s, told)
    ensures s.clean == CleanAfter(m.clean, told) && s.devices == m.devices && |s.ram| == |m.ram|
  {
    hide Prepared, PagesWritten, MappedForBytes, PutFirst, PlaceOf, HandedOn, MappedAsResolved, Announced, Asked;
    hide Notifies, RamAfter;
    ToldCleans(m.clean, s.log[|m.log|..]);
  }

  lemma SameTold(m: Machine, s: Machine, clean: seq<bool>, r: Option<ResolvedAccess>, k: nat, bytes: seq<Byte>,
                 advise: (nat, nat) -> Advice)
    requires s.devices == m.devices && |s.ram| == |m.ram|
    ensures PartTold(s, clean, r, k, bytes, advise) == PartTold(m, clean, r, k, bytes, advise)
  {
  }

  lemma ExecutedTells(m: Machine, w: PreparedWrite, isUser: bool, advise: (nat, nat) -> Advice)
    requires Inv(m) && |m.meta| == |m.clean| == NUM_PAGES && Prepared(m, w, isUser)
    ensures w.val != [] && LogTells(m, Executed(m, w, advise), PreparedTold(m, w, advise))
  {
    PreparedWithin(m, w, isUser);
    hide Inv, Prepared, PartTold, StepAfter, StepsAfter, LogTells, PiecesTold;
    if w.split {
      StepsTell(m, w, |w.val|, isUser, advise);
    } else {
      StepTells(m, w, 0, isUser, advise);
      OnePiece(m, w, isUser);
    }
  }

  // ----- A prepared write, made

  // Byte y is mapped for writing to a place in RAM that holds b.
  ghost predicate ByteHeld(t: Machine, y: nat, b: Byte, isUser: bool)
    requires |t.meta| == NUM_PAGES && y < MAX_RAM
  {
    !TrapsAt(t, y, true, isUser) && Target(t.host, y) < |t.ram| && t.ram[Target(t.host, y)] == b
  }

  // Byte n went where it goes: it is held where the page is mapped, or in its place on the first page, or was handed
  // on.
  ghost predicate ByteMade(m: Machine, t: Machine, w: PreparedWrite, n: nat, isUser: bool, advise: (nat, nat) -> Advice)
    requires |t.meta| == NUM_PAGES && w.addr + |w.val| <= MAX_RAM && n < |w.val| && m.log <= t.log
  {
    var y, p := w.addr + n, PlaceOf(m, w, n, advise);
    && HandedOn(m, t, w, n, advise)
    && (p.Through? ==> ByteHeld(t, y, w.val[n], isUser) && Target(t.host, y) == p.addr)
    && (p.Past? ==> p.addr < |t.ram| && (w.addr % PAGE_SIZE + n < PAGE_SIZE ==> t.ram[p.addr] == w.val[n]))
  }

  // t is m after a prepared write: RAM holds the bytes that go there in their places, and nothing else has changed in
  // it; every byte went where it goes; every page is kept or mapped by the access resolved for it.
  ghost predicate AllMade(m: Machine, t: Machine, w: PreparedWrite, isUser: bool, advise: (nat, nat) -> Advice)
    requires |m.meta| == |m.clean| == NUM_PAGES && 1 <= |w.val| && w.addr + |w.val| <= MAX_RAM
  {
    && |t.meta| == |t.clean| == NUM_PAGES && t.control == m.control && t.devices == m.devices
    && Traced(m, t, advise) && m.log <= t.log && PagesWritten(m, t, w) && MappedForBytes(m, t, w, |w.val|, advise)
    && t.ram == PutFirst(m.ram, Places(m, w, advise), w.val, |w.val|)
    && LogTells(m, t, PreparedTold(m, w, advise))
    && forall n: nat :: n < |w.val| ==> ByteMade(m, t, w, n, isUser, advise)
  }

  lemma ByteIsMade(m: Machine, t: Machine, w: PreparedWrite, n: nat, isUser: bool, advise: (nat, nat) -> Advice)
    requires Inv(m) && |m.meta| == |m.clean| == |t.meta| == NUM_PAGES && Prepared(m, w, isUser) && n < |w.val|
    requires m.log <= t.log && HandedOn(m, t, w, n, advise)
    requires t.ram == PutFirst(m.ram, Places(m, w, advise), w.val, |w.val|)
    requires PlaceOf(m, w, n, advise).Through? ==> MappedAsResolved(m, t, w, n)
    ensures ByteMade(m, t, w, n, isUser, advise)
  {
    hide Inv, HandedOn, PlaceOf, MappedAsResolved, TrapsAt, Target, PutFirst, Ready;
    var places, p := Places(m, w, advise), PlaceOf(m, w, n, advise);
    PutFirstMeaning(m.ram, places, w.val, |w.val|);
    PlaceInRam(m, w, n, isUser, advise);
    if p.Through? { ThroughIsMapped(m, t, w, n, isUser, advise); }
    if p.Through? || (p.Past? && w.addr % PAGE_SIZE + n < PAGE_SIZE) {
      forall j: nat | n < j < |w.val| ensures !IsAt(places[j], p.addr) {
        PlacesApart(m, w, n, j, isUser, advise);
      }
      assert IsAt(places[n], p.addr);
    }
  }

  lemma PlaceInRam(m: Machine, w: PreparedWrite, n: nat, isUser: bool, advise: (nat, nat) -> Advice)
    requires Inv(m) && |m.meta| == |m.clean| == NUM_PAGES && Prepared(m, w, isUser) && n < |w.val|
    ensures var p := PlaceOf(m, w, n, advise); !p.Away? ==> p.addr < |m.ram|
  {
    SizesOf(m);
    PageOfByte(w.addr, n);
    PageOfByte(w.addr, |w.val|);
    var r, y := PartOf(w, n), w.addr + n;
    if r.None? {
      assert !TrapsAt(m, y, true, isUser);
      UntrappedTarget(m, y, true, isUser);
    } else {
      WholeFrame(r.value.physAddr, n, y, |m.ram|);
    }
  }

  lemma WholeFrame(a: nat, n: nat, y: nat, size: nat)
    requires size % PAGE_SIZE == 0
    ensures a < size ==> a / PAGE_SIZE * PAGE_SIZE + y % PAGE_SIZE < size
    ensures a < size && a % PAGE_SIZE + n < PAGE_SIZE ==> a + n < size
  {
    assert a == a / PAGE_SIZE * PAGE_SIZE + a % PAGE_SIZE && size == size / PAGE_SIZE * PAGE_SIZE;
  }

  lemma ThroughIsMapped(m: Machine, t: Machine, w: PreparedWrite, n: nat, isUser: bool, advise: (nat, nat) -> Advice)
    requires |m.meta| == |m.clean| == |t.meta| == NUM_PAGES && Prepared(m, w, isUser) && n < |w.val|
    requires PlaceOf(m, w, n, advise).Through? && MappedAsResolved(m, t, w, n)
    ensures !TrapsAt(t, w.addr + n, true, isUser) && Target(t.host, w.addr + n) == PlaceOf(m, w, n, advise).addr
  {
    hide RouteOf, MetadataBits, ShouldTrap, Target;
    var r, y := PartOf(w, n), w.addr + n;
    PageOfByte(w.addr, n);
    PageOfByte(w.addr, |w.val|);
    if r.Some? {
      MetadataBitsMeaning(!r.value.user, !r.value.writable);
      TrapsWhenRequired(MetadataBits(!r.value.user, !r.value.writable), true, isUser);
      InstalledTarget(t, r.value, y);
    } else {
      KeptTarget(m, t, y);
    }
  }

  // A part that is the whole write puts its bytes in their places.
  lemma {:induction false} SpreadIsPut(host: map<nat, nat>, ram: seq<Byte>, x: nat, val: seq<Byte>, places: seq<Place>,
                                       n: nat)
    requires n <= |places| == |val|
    requires forall i: nat :: i < n ==> places[i] == Through(Target(host, x + i)) && places[i].addr < |ram|
    ensures Overlaid(ram, Spread(host, x, val[..n])) == PutFirst(ram, places, val, n)
  {
    hide Target;
    if n == 0 {
      assert Overlaid(ram, map[]) == ram;
    } else {
      SpreadIsPut(host, ram, x, val, places, n - 1);
      assert places[n - 1] == Through(Target(host, x + (n - 1)));
      SpreadOneMore(host, ram, x, val, n - 1);
    }
  }

  lemma SpanIsPut(ram: seq<Byte>, addr: nat, val: seq<Byte>, places: seq<Place>)
    requires |places| == |val| && addr + |val| <= |ram|
    requires forall i: nat :: i < |val| ==> places[i] == Past(addr + i)
    ensures Overlaid(ram, Span(addr, val)) == PutFirst(ram, places, val, |val|)
  {
    hide Overlaid, Span, PutFirst;
    PutFirstMeaning(ram, places, val, |val|);
    var put := PutFirst(ram, places, val, |val|);
    forall a: nat | a < |ram| ensures Overlaid(ram, Span(addr, val))[a] == put[a] {
      SpanAt(ram, addr, val, a);
      if addr <= a < addr + |val| { assert LastAt(places, |val|, a, a - addr); }
    }
  }

  lemma SpanAt(ram: seq<Byte>, addr: nat, val: seq<Byte>, a: nat)
    requires a < |ram|
    ensures Overlaid(ram, Span(addr, val))[a] == if addr <= a < addr + |val| then val[a - addr] else ram[a]
  {
  }

  lemma AwayIsPut(ram: seq<Byte>, val: seq<Byte>, places: seq<Place>)
    requires |places| == |val| && forall i: nat :: i < |val| ==> places[i].Away?
    ensures ram == PutFirst(ram, places, val, |val|)
  {
    PutFirstMeaning(ram, places, val, |val|);
  }

  lemma WholePut(m: Machine, t: Machine, w: PreparedWrite, isUser: bool, advise: (nat, nat) -> Advice)
    requires |m.meta| == |t.meta| == |m.clean| == |t.clean| == NUM_PAGES && Prepared(m, w, isUser) && !w.split
    requires PartDone(m, t, w.first, 0, w.addr, w.val, advise)
    ensures t.ram == PutFirst(m.ram, Places(m, w, advise), w.val, |w.val|) && PagesWritten(m, t, w)
    ensures MappedForBytes(m, t, w, |w.val|, advise)
    ensures forall i: nat :: i < |w.val| && PlaceOf(m, w, i, advise).Through? ==> MappedAsResolved(m, t, w, i)
  {
    hide Spread, Span, Overlaid, PutFirst, MetadataBits, Target, RamBacked;
    var places := Places(m, w, advise);
    forall i: nat | i < |w.val| ensures (w.addr + i) / PAGE_SIZE == w.addr / PAGE_SIZE && PartOf(w, i) == w.first {
      PageOfByte(w.addr, i);
    }
    match RouteOf(m, w.first, 0, |w.val|, advise)
    case ByMapping =>
      forall i: nat | i < |w.val| ensures places[i] == Through(Target(t.host, w.addr + i)) {
        KeptTarget(m, t, w.addr + i);
        if w.first.Some? { InstalledTarget(t, w.first.value, w.addr + i); }
      }
      SpreadIsPut(t.host, m.ram, w.addr, w.val, places, |w.val|);
      assert w.val[..|w.val|] == w.val;
      assert PageThrough(m, w, 0, w.addr / PAGE_SIZE, advise);
    case PastMapping => SpanIsPut(m.ram, w.first.value.physAddr, w.val, places);
    case Elsewhere => AwayIsPut(m.ram, w.val, places);
  }

  lemma ExecutedIsPut(m: Machine, w: PreparedWrite, isUser: bool, advise: (nat, nat) -> Advice)
    requires Inv(m) && |m.meta| == |m.clean| == NUM_PAGES && Prepared(m, w, isUser)
    ensures var t := Executed(m, w, advise);
            && Inv(t) && |t.meta| == |t.clean| == NUM_PAGES && t.control == m.control && t.devices == m.devices
            && Traced(m, t, advise) && m.log <= t.log && PagesWritten(m, t, w)
            && MappedForBytes(m, t, w, |w.val|, advise)
            && t.ram == PutFirst(m.ram, Places(m, w, advise), w.val, |w.val|)
            && (forall n: nat :: n < |w.val| && PlaceOf(m, w, n, advise).Through? ==> MappedAsResolved(m, t, w, n))
            && forall n: nat :: n < |w.val| ==> HandedOn(m, t, w, n, advise)
  {
    hide Inv, Traced, PagesWritten, PlaceOf, MappedAsResolved, PartHanded, PutFirst, Places, StepAfter, StepsAfter;
    if w.split {
      StepsProgress(m, w, |w.val|, isUser, advise);
    } else {
      hide Prepared;
      StepIsDone(m, w, 0, isUser, advise);
      OnePiece(m, w, isUser);
      WholePut(m, StepAfter(m, w, 0, advise), w, isUser, advise);
    }
  }

  lemma OnePiece(m: Machine, w: PreparedWrite, isUser: bool)
    requires |m.meta| == |m.clean| == NUM_PAGES && Prepared(m, w, isUser) && !w.split
    ensures forall n: nat :: n < |w.val| ==> PartOf(w, n) == w.first && MovedBy(w, n) == 0 && Piece(w, n) == w.val
  {
  }

  // Whatever the base, the devices and their advice.
  lemma ExecutedIsMade(m: Machine, w: PreparedWrite, isUser: bool, advise: (nat, nat) -> Advice)
    requires Inv(m) && |m.meta| == |m.clean| == NUM_PAGES && Prepared(m, w, isUser)
    ensures Inv(Executed(m, w, advise)) && AllMade(m, Executed(m, w, advise), w, isUser, advise)
  {
    var t := Executed(m, w, advise);
    ExecutedIsPut(m, w, isUser, advise);
    ExecutedTells(m, w, isUser, advise);
    hide Inv, Traced, PagesWritten, PlaceOf, MappedAsResolved, HandedOn, PutFirst, Places, ByteMade, Executed;
    hide LogTells, PreparedTold;
    assert 1 <= |w.val| && w.addr + |w.val| <= MAX_RAM;
    forall n: nat | n < |w.val| ensures ByteMade(m, t, w, n, isUser, advise) {
      ByteIsMade(m, t, w, n, isUser, advise);
    }
  }

  // ----- A write and its preparation

  // Some page of the write is trapped and its translation denies the write.
  ghost predicate WriteDenied(m: Machine, x: nat, n: nat, isUser: bool)
    requires |m.meta| == NUM_PAGES && x + n <= MAX_RAM && IsWidth(n)
  {
    DeniedAt(m, x, true, isUser) || (Crosses(x, n) && DeniedAt(m, NextPage(x), true, isUser))
  }

  // Some page of the write is trapped, and its translation denies the write or is out of range.
  ghost predicate WriteStops(m: Machine, x: nat, n: nat, isUser: bool)
    requires |m.meta| == NUM_PAGES && x + n <= MAX_RAM && IsWidth(n)
  {
    StopsAt(m, x, true, isUser) || (Crosses(x, n) && StopsAt(m, NextPage(x), true, isUser))
  }

  // The first page that stops the write is denied.
  ghost predicate WriteStopsDenied(m: Machine, x: nat, n: nat, isUser: bool)
    requires |m.meta| == NUM_PAGES && x + n <= MAX_RAM && IsWidth(n)
  {
    || DeniedAt(m, x, true, isUser)
    || (Crosses(x, n) && !StopsAt(m, x, true, isUser) && DeniedAt(m, NextPage(x), true, isUser))
  }

  // The first page that stops it is out of range.
  ghost predicate WriteStopsFailing(m: Machine, x: nat, n: nat, isUser: bool)
    requires |m.meta| == NUM_PAGES && x + n <= MAX_RAM && IsWidth(n)
  {
    || FailsAt(m, x, true, isUser)
    || (Crosses(x, n) && !StopsAt(m, x, true, isUser) && FailsAt(m, NextPage(x), true, isUser))
  }

  // The write succeeds exactly if no page stops it, and faults, at the first page that does, exactly if that is denied.
  ghost predicate WriteFits(m: Machine, x: nat, n: nat, isUser: bool, r: WriteResult)
    requires |m.meta| == NUM_PAGES && x + n <= MAX_RAM && IsWidth(n)
  {
    && (r.Done? <==> !WriteStops(m, x, n, isUser))
    && (r.WriteFault? <==> WriteStopsDenied(m, x, n, isUser))
    && (r.WriteFailure? <==> WriteStopsFailing(m, x, n, isUser))
    && (r.WriteFault? ==> WriteFaultFits(m, x, n, isUser, r.code, r.addr))
  }

  // The fault is that of the first page that is denied.
  ghost predicate WriteFaultFits(m: Machine, x: nat, n: nat, isUser: bool, code: FaultCode, addr: nat)
    requires |m.meta| == NUM_PAGES && x + n <= MAX_RAM && IsWidth(n)
  {
    && addr == (if DeniedAt(m, x, true, isUser) then x else NextPage(x)) < MAX_RAM
    && FaultFits(m, code, addr, true, isUser)
  }

  lemma StoppedFirst(m: Machine, x: nat, n: nat, isUser: bool, r: Resolution)
    requires |m.meta| == NUM_PAGES && x + n <= MAX_RAM && IsWidth(n) && !r.Resolved?
    requires r.PageFault? ==> r.addr == x && FaultFits(m, r.code, x, true, isUser)
    requires r.HostFailure? ==> FailsAt(m, x, true, isUser)
    ensures WriteFits(m, x, n, isUser, Failed(r))
  {
    hide Denies, Fails, Physical, ShouldTrap;
    DeniedOrFails(m, x, true, isUser);
    PageOfByte(x, n);
    if Crosses(x, n) { DeniedOrFails(m, NextPage(x), true, isUser); }
  }

  lemma StoppedSecond(m: Machine, x: nat, n: nat, isUser: bool, r: Resolution)
    requires |m.meta| == NUM_PAGES && x + n <= MAX_RAM && IsWidth(n) && !r.Resolved? && Crosses(x, n)
    requires !StopsAt(m, x, true, isUser) && NextPage(x) < MAX_RAM
    requires r.PageFault? ==> r.addr == NextPage(x) && FaultFits(m, r.code, NextPage(x), true, isUser)
    requires r.HostFailure? ==> FailsAt(m, NextPage(x), true, isUser)
    ensures WriteFits(m, x, n, isUser, Failed(r))
  {
    hide Denies, Fails, Physical, ShouldTrap;
    DeniedOrFails(m, NextPage(x), true, isUser);
  }

  lemma DoneFits(m: Machine, x: nat, n: nat, isUser: bool)
    requires |m.meta| == NUM_PAGES && x + n <= MAX_RAM && IsWidth(n) && !WriteStops(m, x, n, isUser)
    ensures WriteFits(m, x, n, isUser, Done) && !WriteDenied(m, x, n, isUser)
  {
    hide Denies, Fails, ShouldTrap;
  }

  // Whatever the base, if the write is not made then one of its walks ended in this way.
  ghost predicate WriteEndsIn(m: Machine, k: Access, r: WriteResult)
    requires |m.meta| == |m.clean| == NUM_PAGES
  {
    && (r.WriteFault? ==> EndsIn(m, k, PageFault(r.code, r.addr)))
    && (r.WriteFailure? ==> EndsIn(m, k, HostFailure))
  }

  // The walk for the second page comes after that for the first.
  lemma SecondEndsIn(m: Machine, s: Machine, x: nat, n: nat, isUser: bool, r: Resolution)
    requires |m.meta| == |m.clean| == NUM_PAGES && s == m.(ram := s.ram) && x <= NextPage(x) < x + n <= MAX_RAM
    requires Walked(m, Access(x, n, true, isUser), s.ram) && EndsIn(s, Access(NextPage(x), 1, true, isUser), r)
    ensures EndsIn(m, Access(x, n, true, isUser), r)
  {
    hide EndsIn, Walked, ShouldTrap;
    EndsLater(m, s, Access(NextPage(x), 1, true, isUser), Access(x, n, true, isUser), r);
  }

  ghost predicate MatchesTraps(m: Machine, w: PreparedWrite, isUser: bool)
    requires |m.meta| == NUM_PAGES && w.addr + |w.val| <= MAX_RAM && IsWidth(|w.val|)
    requires (w.split ==> Crosses(w.addr, |w.val|))
  {
    && (w.first.Some? <==> TrapsAt(m, w.addr, true, isUser))
    && (w.split ==> (w.second.Some? <==> TrapsAt(m, NextPage(w.addr), true, isUser)))
  }

  ghost predicate MatchesPhysical(m: Machine, w: PreparedWrite, isUser: bool) {
    && (w.first.Some? ==> Follows(m, w.first.value, w.addr, isUser))
    && (w.split && w.second.Some? ==> Follows(m, w.second.value, NextPage(w.addr), isUser))
  }

  function AccessOf(w: PreparedWrite, isUser: bool): Access {
    Access(w.addr, |w.val|, true, isUser)
  }

  // The accesses of a prepared write are what the walks since m found for its pages.
  ghost predicate Resolves(m: Machine, fin: seq<Byte>, w: PreparedWrite, isUser: bool)
    requires |m.clean| == NUM_PAGES
  {
    && (w.first.Some? ==> AccessFrom(m, fin, w.first.value, w.addr, AccessOf(w, isUser)))
    && (w.split && w.second.Some? ==> AccessFrom(m, fin, w.second.value, NextPage(w.addr), AccessOf(w, isUser)))
  }

  // The access that a page of a write was resolved to, if it trapped.
  function AccessIn(r: Option<Resolution>): Option<ResolvedAccess>
    requires r.Some? ==> r.value.Resolved?
  {
    if r.Some? then Some(r.value.access) else None
  }

  // Resolving the second page leaves the first one ready.
  lemma ReadyIsPrepared(m: Machine, s: Machine, t: Machine, w: PreparedWrite, isUser: bool)
    requires |m.meta| == |m.clean| == NUM_PAGES && s == m.(ram := s.ram) && t == m.(ram := t.ram)
    requires IsWidth(|w.val|) && w.addr + |w.val| <= MAX_RAM && (w.split <==> Crosses(w.addr, |w.val|))
    requires Ready(s, w.first, w.addr, isUser) && (w.first.Some? <==> TrapsAt(m, w.addr, true, isUser))
    requires w.split ==>
               && NextPage(w.addr) < MAX_RAM && Ready(t, w.second, NextPage(w.addr), isUser)
               && (w.second.Some? <==> TrapsAt(s, NextPage(w.addr), true, isUser))
    ensures Prepared(t, w, isUser) && MatchesTraps(m, w, isUser)
  {
    hide ShouldTrap;
  }

  lemma ResolvesMatch(m: Machine, fin: seq<Byte>, w: PreparedWrite, isUser: bool)
    requires |m.clean| == NUM_PAGES && |m.ram| <= MAX_RAM && Resolves(m, fin, w, isUser)
    ensures Aligned(m.control.paging) ==> MatchesPhysical(m, w, isUser)
  {
    hide AccessFrom, Follows;
    if Aligned(m.control.paging) {
      if w.first.Some? { AccessFollows(m, fin, w.first.value, w.addr, AccessOf(w, isUser)); }
      if w.split && w.second.Some? { AccessFollows(m, fin, w.second.value, NextPage(w.addr), AccessOf(w, isUser)); }
    }
  }

  lemma FirstResolves(m: Machine, fin: seq<Byte>, w: PreparedWrite, isUser: bool)
    requires |m.clean| == NUM_PAGES && 1 <= |w.val| && !w.split
    requires w.first.Some? ==> AccessFrom(m, fin, w.first.value, w.addr, Access(w.addr, 1, true, isUser))
    requires Walked(m, Access(w.addr, 1, true, isUser), fin)
    ensures Resolves(m, fin, w, isUser) && Walked(m, AccessOf(w, isUser), fin)
  {
    hide Walked, AccessFrom;
    var k, one := AccessOf(w, isUser), Access(w.addr, 1, true, isUser);
    WalkedWider(m, one, k, fin);
    if w.first.Some? { ResolvedWider(m, fin, w.first.value, w.addr, one, k); }
  }

  // The walk for the second page finds what it would have found before that for the first.
  lemma SecondWalk(m: Machine, s: Machine, fin: seq<Byte>, x: nat, n: nat, isUser: bool)
    requires Sizes(m) && s == m.(ram := s.ram) && x <= NextPage(x) < x + n <= MAX_RAM
    requires Walked(m, Access(x, 1, true, isUser), s.ram) && Walked(s, Access(NextPage(x), 1, true, isUser), fin)
    ensures Walked(m, Access(x, n, true, isUser), fin)
    ensures Aligned(m.control.paging) ==>
              && DeniedAt(s, NextPage(x), true, isUser) == DeniedAt(m, NextPage(x), true, isUser)
              && FailsAt(s, NextPage(x), true, isUser) == FailsAt(m, NextPage(x), true, isUser)
              && forall code :: FaultFits(s, code, NextPage(x), true, isUser) ==
                                FaultFits(m, code, NextPage(x), true, isUser)
  {
    hide Walked, OnlyMarks, SameButMarks, Denies, Fails, Physical, ShouldTrap;
    var k := Access(x, n, true, isUser);
    WalkedMarks(m, Access(x, 1, true, isUser), s.ram);
    WalkedWider(m, Access(x, 1, true, isUser), k, s.ram);
    WalkedWider(s, Access(NextPage(x), 1, true, isUser), k, fin);
    WalkedTrans(m, s, k, fin);
    if Aligned(m.control.paging) { MarksKeepPhysical(m.control, m.ram, s.ram, NextPage(x), true, isUser); }
  }

  // The second page is resolved after the first.
  lemma SecondFollowsFirst(m: Machine, s: Machine, fin: seq<Byte>, w: PreparedWrite, isUser: bool)
    requires |m.clean| == NUM_PAGES && s == m.(ram := s.ram) && 1 <= |w.val|
    requires w.addr <= NextPage(w.addr) < w.addr + |w.val|
    requires Walked(m, Access(w.addr, 1, true, isUser), s.ram)
    requires Walked(s, Access(NextPage(w.addr), 1, true, isUser), fin)
    requires w.first.Some? ==> AccessFrom(m, s.ram, w.first.value, w.addr, Access(w.addr, 1, true, isUser))
    requires w.second.Some? ==>
               AccessFrom(s, fin, w.second.value, NextPage(w.addr), Access(NextPage(w.addr), 1, true, isUser))
    ensures Resolves(m, fin, w, isUser) && Walked(m, AccessOf(w, isUser), fin)
  {
    hide Walked, AccessFrom;
    var k := AccessOf(w, isUser);
    var one, two := Access(w.addr, 1, true, isUser), Access(NextPage(w.addr), 1, true, isUser);
    WalkedWider(m, one, k, s.ram);
    WalkedWider(s, two, k, fin);
    WalkedTrans(m, s, k, fin);
    if w.first.Some? {
      ResolvedWider(m, s.ram, w.first.value, w.addr, one, k);
      ResolvedLater(m, s.ram, fin, w.first.value, w.addr, k);
    }
    if w.second.Some? {
      ResolvedWider(s, fin, w.second.value, NextPage(w.addr), two, k);
      ResolvedBefore(m, s, fin, w.second.value, NextPage(w.addr), k);
    }
  }

  // Making a prepared write maps trapped pages by the accesses that were resolved, and no others.
  lemma WrittenAgree(m: Machine, p: Machine, t: Machine, w: PreparedWrite, isUser: bool)
    requires |m.meta| == |m.clean| == |t.meta| == NUM_PAGES && p == m.(ram := p.ram) && |p.ram| == |m.ram|
    requires IsWidth(|w.val|) && Prepared(p, w, isUser) && MatchesTraps(m, w, isUser)
    requires Resolves(m, p.ram, w, isUser) && PagesWritten(p, t, w)
    ensures PagesAgree(m, p.ram, t, AccessOf(w, isUser))
  {
    hide AccessFrom, InstalledAt, ShouldTrap;
    PageOfByte(w.addr, |w.val|);
    forall q: nat | q < NUM_PAGES && !PageKept(m, t, q)
      ensures Traps(m, q, true, isUser) && PageMapped(m, p.ram, t, q, AccessOf(w, isUser))
    {
      assert PageWritten(p, t, w, q);
      var r := if q == w.addr / PAGE_SIZE && Maps(p, t, w.first, q) then w.first else w.second;
      assert MappedBy(m, p.ram, t, r.value, q, AccessOf(w, isUser));
    }
  }

  // ----- Where translation says the bytes go

  // The address from which byte n of a write is resolved.
  function StartOf(x: nat, n: nat): nat {
    if x % PAGE_SIZE + n < PAGE_SIZE then x else NextPage(x)
  }

  // Judged before the write is made: where byte n of one of len bytes at x goes. An untrapped byte goes where the host
  // maps it, a trapped one to its translated address, unless a device or no memory is there, or the frame is clean and
  // the device wants it to stay so. Then it is moved on from the start of the write, which is wrong on a second page.
  function DestinationOf(m: Machine, x: nat, n: nat, len: nat, isUser: bool, advise: (nat, nat) -> Advice): Place
    requires |m.meta| == |m.clean| == NUM_PAGES && x + n < MAX_RAM
  {
    var y := x + n;
    var start, own := Physical(m.control, m.ram, StartOf(x, n)), Physical(m.control, m.ram, y);
    if !TrapsAt(m, y, true, isUser) then Through(Target(m.host, y))
    else if start.None? || own.None? then Away
    else
      var frame := start.value / PAGE_SIZE;
      var to, size := start.value + (if Crosses(x, len) then n else 0), if Crosses(x, len) then 1 else len;
      if frame in m.devices || start.value >= |m.ram| then Away
      else if frame < NUM_PAGES && m.clean[frame] && advise(to, size) == DoNotMark then Past(start.value + n)
      else Through(own.value)
  }

  function Destinations(m: Machine, x: nat, len: nat, isUser: bool, advise: (nat, nat) -> Advice): (places: seq<Place>)
    requires |m.meta| == |m.clean| == NUM_PAGES && x + len <= MAX_RAM
    ensures |places| == len
  {
    seq(len, n requires 0 <= n < len => DestinationOf(m, x, n, len, isUser, advise))
  }

  // What the piece of a write that begins with byte n tells, beside what it stores, at a moment when these frames are
  // clean: nothing if it needs no trap or goes to a dirty frame.
  function PieceTold(m: Machine, clean: seq<bool>, x: nat, n: nat, val: seq<Byte>, isUser: bool,
                     advise: (nat, nat) -> Advice): seq<Event>
    requires |m.meta| == |m.clean| == NUM_PAGES && x + |val| <= MAX_RAM && n < |val|
  {
    var start := Physical(m.control, m.ram, StartOf(x, n));
    if !TrapsAt(m, x + n, true, isUser) || start.None? then []
    else
      var frame := start.value / PAGE_SIZE;
      var to, bytes := start.value + (if Crosses(x, |val|) then n else 0), if Crosses(x, |val|) then [val[n]] else val;
      if frame in m.devices then [ToDevice(to, bytes)]
      else if start.value >= |m.ram| then [Dropped(to, bytes)]
      else if !(frame < NUM_PAGES && m.clean[frame]) then []
      else AskedAndMarked(clean, frame, to, bytes, advise)
  }

  function BytesTold(m: Machine, x: nat, n: nat, val: seq<Byte>, isUser: bool,
                     advise: (nat, nat) -> Advice): seq<Event>
    requires |m.meta| == |m.clean| == NUM_PAGES && x + |val| <= MAX_RAM && n <= |val|
  {
    if n == 0 then []
    else
      var before := BytesTold(m, x, n - 1, val, isUser, advise);
      before + PieceTold(m, CleanAfter(m.clean, before), x, n - 1, val, isUser, advise)
  }

  // All that a write tells, judged before it is made.
  function WriteTold(m: Machine, x: nat, val: seq<Byte>, isUser: bool, advise: (nat, nat) -> Advice): seq<Event>
    requires |m.meta| == |m.clean| == NUM_PAGES && x + |val| <= MAX_RAM && val != []
  {
    if Crosses(x, |val|) then BytesTold(m, x, |val|, val, isUser, advise)
    else PieceTold(m, m.clean, x, 0, val, isUser, advise)
  }

  lemma ToldAsTranslated(m: Machine, p: Machine, w: PreparedWrite, clean: seq<bool>, n: nat, isUser: bool,
                         advise: (nat, nat) -> Advice)
    requires Sizes(m) && p == m.(ram := p.ram) && |p.ram| == |m.ram| && n < |w.val|
    requires IsWidth(|w.val|) && Prepared(p, w, isUser) && MatchesTraps(m, w, isUser)
    requires MatchesPhysical(m, w, isUser) && MarksIfClean(m, w)
    ensures PartTold(p, clean, PartOf(w, n), MovedBy(w, n), Piece(w, n), advise) ==
            PieceTold(m, clean, w.addr, n, w.val, isUser, advise)
  {
    hide Physical, ShouldTrap, Denies, UserAllowed, Target, WriteReady, AskedAndMarked;
    PageOfByte(w.addr, n);
    PageOfByte(w.addr, |w.val|);
    SameTrap(m, StartOf(w.addr, n), w.addr + n, true, isUser);
  }

  // Pieces that tell the same, whatever is clean, add up to the same.
  lemma {:induction false} SamePieces(m: Machine, p: Machine, w: PreparedWrite, n: nat, isUser: bool,
                                      advise: (nat, nat) -> Advice)
    requires |m.meta| == |m.clean| == NUM_PAGES && p.clean == m.clean && n <= |w.val| && w.addr + |w.val| <= MAX_RAM
    requires forall clean: seq<bool>, i: nat :: i < n ==>
               PartTold(p, clean, PartOf(w, i), MovedBy(w, i), Piece(w, i), advise) ==
               PieceTold(m, clean, w.addr, i, w.val, isUser, advise)
    ensures PiecesTold(p, w, n, advise) == BytesTold(m, w.addr, n, w.val, isUser, advise)
  {
    hide PartTold, PieceTold, PartOf, MovedBy, Piece, CleanAfter;
    if n > 0 { SamePieces(m, p, w, n - 1, isUser, advise); }
  }

  // With an aligned base a prepared write tells what translation says beforehand.
  lemma PreparedAsTranslated(m: Machine, p: Machine, w: PreparedWrite, isUser: bool, advise: (nat, nat) -> Advice)
    requires Sizes(m) && p == m.(ram := p.ram) && |p.ram| == |m.ram| && Aligned(m.control.paging)
    requires IsWidth(|w.val|) && Prepared(p, w, isUser) && MatchesTraps(m, w, isUser) && Resolves(m, p.ram, w, isUser)
    ensures w.addr + |w.val| <= MAX_RAM && w.val != []
    ensures PreparedTold(p, w, advise) == WriteTold(m, w.addr, w.val, isUser, advise)
  {
    PreparedWithin(p, w, isUser);
    SplitIsCrossing(p, w, isUser);
    ResolvesMatch(m, p.ram, w, isUser);
    MarkedIfClean(m, p.ram, w, isUser);
    hide Prepared, MatchesTraps, MatchesPhysical, MarksIfClean, PartTold, PieceTold, PiecesTold, BytesTold, Resolves;
    if w.split {
      forall clean: seq<bool>, i: nat | i < |w.val|
        ensures PartTold(p, clean, PartOf(w, i), MovedBy(w, i), Piece(w, i), advise) ==
                PieceTold(m, clean, w.addr, i, w.val, isUser, advise)
      {
        ToldAsTranslated(m, p, w, clean, i, isUser, advise);
      }
      SamePieces(m, p, w, |w.val|, isUser, advise);
    } else {
      OnePiece(p, w, isUser);
      ToldAsTranslated(m, p, w, m.clean, 0, isUser, advise);
    }
  }

  // With an aligned base the places of a prepared write are those that translation says.
  lemma PlacesAreDestinations(m: Machine, p: Machine, w: PreparedWrite, isUser: bool, advise: (nat, nat) -> Advice)
    requires Sizes(m) && p == m.(ram := p.ram) && |p.ram| == |m.ram| && Aligned(m.control.paging)
    requires IsWidth(|w.val|) && Prepared(p, w, isUser) && MatchesTraps(m, w, isUser) && Resolves(m, p.ram, w, isUser)
    ensures w.addr + |w.val| <= MAX_RAM
    ensures Places(p, w, advise) == Destinations(m, w.addr, |w.val|, isUser, advise)
  {
    hide Resolves, PlaceOf, DestinationOf;
    ResolvesMatch(m, p.ram, w, isUser);
    MarkedIfClean(m, p.ram, w, isUser);
    forall n: nat | n < |w.val|
      ensures PlaceOf(p, w, n, advise) == DestinationOf(m, w.addr, n, |w.val|, isUser, advise)
    {
      PlaceIsDestination(m, p, w, n, isUser, advise);
    }
  }

  // An access needs a dirty mark exactly if its frame was clean.
  ghost predicate MarksIfClean(m: Machine, w: PreparedWrite) {
    && (w.first.Some? ==> var a := w.first.value; a.Frame() < |m.clean| && (a.needsDirtyMark <==> m.clean[a.Frame()]))
    && (w.split && w.second.Some? ==>
          var a := w.second.value; a.Frame() < |m.clean| && (a.needsDirtyMark <==> m.clean[a.Frame()]))
  }

  lemma MarkedIfClean(m: Machine, fin: seq<Byte>, w: PreparedWrite, isUser: bool)
    requires |m.clean| == NUM_PAGES && Resolves(m, fin, w, isUser)
    ensures MarksIfClean(m, w)
  {
    hide AccessFrom;
    if w.first.Some? { AccessIsProper(m, fin, w.first.value, w.addr, AccessOf(w, isUser)); }
    if w.split && w.second.Some? { AccessIsProper(m, fin, w.second.value, NextPage(w.addr), AccessOf(w, isUser)); }
  }

  lemma PlaceIsDestination(m: Machine, p: Machine, w: PreparedWrite, n: nat, isUser: bool, advise: (nat, nat) -> Advice)
    requires Sizes(m) && p == m.(ram := p.ram) && |p.ram| == |m.ram| && n < |w.val|
    requires IsWidth(|w.val|) && Prepared(p, w, isUser) && MatchesTraps(m, w, isUser)
    requires MatchesPhysical(m, w, isUser) && MarksIfClean(m, w)
    ensures PlaceOf(p, w, n, advise) == DestinationOf(m, w.addr, n, |w.val|, isUser, advise)
  {
    hide Physical, ShouldTrap, Denies, UserAllowed, Target, WriteReady, MarksIfClean;
    PageOfByte(w.addr, n);
    PageOfByte(w.addr, |w.val|);
    var start, y := StartOf(w.addr, n), w.addr + n;
    SameTrap(m, start, y, true, isUser);
    if PartOf(w, n).Some? {
      PhysicalIsPagewise(m.control, m.ram, start, y);
      OnPage(PartOf(w, n).value.physAddr, start, y);
      ResolvedPlace(m, p, w, n, isUser, advise);
    }
  }

  lemma ResolvedPlace(m: Machine, p: Machine, w: PreparedWrite, n: nat, isUser: bool, advise: (nat, nat) -> Advice)
    requires Sizes(m) && p == m.(ram := p.ram) && |p.ram| == |m.ram| && n < |w.val| && PartOf(w, n).Some?
    requires IsWidth(|w.val|) && Prepared(p, w, isUser) && MarksIfClean(m, w)
    ensures var a, split := PartOf(w, n).value, Crosses(w.addr, |w.val|);
            var to, size := a.physAddr + (if split then n else 0), if split then 1 else |w.val|;
            PlaceOf(p, w, n, advise) ==
              if a.Frame() in m.devices || a.physAddr >= |m.ram| then Away
              else if m.clean[a.Frame()] && advise(to, size) == DoNotMark then Past(a.physAddr + n)
              else Through(a.Frame() * PAGE_SIZE + (w.addr + n) % PAGE_SIZE)
  {
    hide ShouldTrap, Target, WriteReady;
    PageOfByte(w.addr, n);
    PageOfByte(w.addr, |w.val|);
  }

  lemma OnPage(a: nat, start: nat, y: nat)
    requires a % PAGE_SIZE == start % PAGE_SIZE && start / PAGE_SIZE == y / PAGE_SIZE
    ensures a - start % PAGE_SIZE + y % PAGE_SIZE == a / PAGE_SIZE * PAGE_SIZE + y % PAGE_SIZE
  {
  }

  // What is stored past the mapping goes to its translated address exactly if it lies on the first page.
  lemma OffsetRightOnFirstPage(m: Machine, w: PreparedWrite, n: nat, isUser: bool)
    requires IsWidth(|w.val|) && Crosses(w.addr, |w.val|) && w.split && n < |w.val| && PartOf(w, n).Some?
    ensures MatchesPhysical(m, w, isUser) ==>
              (Physical(m.control, m.ram, w.addr + n) == Some(PartOf(w, n).value.physAddr + n) <==>
                 w.addr % PAGE_SIZE + n < PAGE_SIZE)
  {
    hide Physical, UserAllowed, Denies;
    PageOfByte(w.addr, n);
    PageOfByte(w.addr, |w.val|);
    var start := if w.addr % PAGE_SIZE + n < PAGE_SIZE then w.addr else NextPage(w.addr);
    PhysicalIsPagewise(m.control, m.ram, start, w.addr + n);
  }

  // ----- What a write may do

  // What every write keeps to, whatever the base of the tables, and whatever device or advice its bytes met. Its walks
  // set marks, which leaves RAM as marked; from there its events say how RAM and clean frames changed; and every page
  // is kept, or trapped and is mapped by an access that was resolved.
  ghost predicate Written(m: Machine, marked: seq<Byte>, t: Machine, k: Access, advise: (nat, nat) -> Advice)
    requires |m.meta| == |m.clean| == |t.meta| == NUM_PAGES
  {
    && t.control == m.control && t.devices == m.devices
    && Walked(m, k, marked) && Traced(m.(ram := marked), t, advise) && PagesAgree(m, marked, t, k)
  }

  // And of a frame that was clean nothing but marks changes before the device is asked about it.
  ghost predicate WriteTraced(m: Machine, t: Machine, k: Access, advise: (nat, nat) -> Advice)
    requires |m.meta| == |m.clean| == |t.meta| == NUM_PAGES
  {
    && |m.clean| == |t.clean| && |m.ram| == |t.ram| && m.log <= t.log
    && (exists marked: seq<Byte> :: Written(m, marked, t, k, advise))
    && CleanFramesAdvised(m, t)
  }

  // A write that succeeded was prepared as w after walks that left RAM as marked, and made from there.
  ghost predicate MadeAs(m: Machine, marked: seq<Byte>, t: Machine, w: PreparedWrite, isUser: bool,
                         advise: (nat, nat) -> Advice)
    requires |m.meta| == |m.clean| == NUM_PAGES && IsWidth(|w.val|) && w.addr + |w.val| <= MAX_RAM
  {
    && |marked| == |m.ram| && Walked(m, AccessOf(w, isUser), marked) && Prepared(m.(ram := marked), w, isUser)
    && (w.split <==> Crosses(w.addr, |w.val|)) && MatchesTraps(m, w, isUser) && Resolves(m, marked, w, isUser)
    && AllMade(m.(ram := marked), t, w, isUser, advise)
  }

  // With an aligned base: RAM holds the bytes in the places that translation says, and is as marked elsewhere; and the
  // device has heard what translation says, no more and no less.
  ghost predicate Arrived(m: Machine, marked: seq<Byte>, t: Machine, x: nat, val: seq<Byte>, isUser: bool,
                          advise: (nat, nat) -> Advice)
    requires |m.meta| == |m.clean| == |t.meta| == NUM_PAGES && x + |val| <= MAX_RAM && val != []
  {
    && SameButMarks(m.control.paging, m.ram, marked) && LogTells(m, t, WriteTold(m, x, val, isUser, advise))
    && t.ram == PutFirst(marked, Destinations(m, x, |val|, isUser, advise), val, |val|)
  }

  // And each byte is mapped for writing at its place, or lies there past the mapping, or was handed over.
  ghost predicate ByteArrived(m: Machine, t: Machine, x: nat, val: seq<Byte>, n: nat, isUser: bool,
                              advise: (nat, nat) -> Advice)
    requires |m.meta| == |m.clean| == |t.meta| == NUM_PAGES && x + |val| <= MAX_RAM && n < |val| && m.log <= t.log
  {
    var d, start := DestinationOf(m, x, n, |val|, isUser, advise), Physical(m.control, m.ram, StartOf(x, n));
    && (d.Through? ==> ByteHeld(t, x + n, val[n], isUser) && Target(t.host, x + n) == d.addr)
    && (d.Past? && StartOf(x, n) == x ==> d.addr < |t.ram| && t.ram[d.addr] == val[n])
    && (!d.Through? ==>
          && start.Some?
          && HandedOver(m, t, start.value + (if Crosses(x, |val|) then n else 0),
                        if Crosses(x, |val|) then [val[n]] else val, d.Past?))
  }

  // The bytes were handed over to a device or to nowhere, or past the mapping after the device wanted it so.
  ghost predicate HandedOver(m: Machine, t: Machine, to: nat, bytes: seq<Byte>, past: bool)
    requires m.log <= t.log
  {
    var events := t.log[|m.log|..];
    if past then Advised(to, |bytes|, DoNotMark) in events && Stored(Span(to, bytes)) in events
    else if to / PAGE_SIZE in m.devices then ToDevice(to, bytes) in events
    else Dropped(to, bytes) in events
  }

  // What a write may do. If it is not made, all but marks is as it was. If it is, every byte goes where its page is
  // mapped or was resolved to. With an aligned base translation says beforehand how it ends and where the bytes go.
  ghost predicate WriteOutcome(m: Machine, t: Machine, x: nat, val: seq<Byte>, isUser: bool,
                               advise: (nat, nat) -> Advice, r: WriteResult)
    requires |m.meta| == |m.clean| == |t.meta| == NUM_PAGES && IsWidth(|val|) && x + |val| <= MAX_RAM
  {
    && WriteTraced(m, t, Access(x, |val|, true, isUser), advise)
    && (!r.Done? ==> t == m.(ram := t.ram) && Walked(m, Access(x, |val|, true, isUser), t.ram))
    && WriteEndsIn(m, Access(x, |val|, true, isUser), r)
    && (r.Done? ==> exists marked: seq<Byte>, w: PreparedWrite ::
          w.addr == x && w.val == val && MadeAs(m, marked, t, w, isUser, advise))
    && (Aligned(m.control.paging) ==>
          && WriteFits(m, x, |val|, isUser, r)
          && (r.Done? ==>
                && !WriteDenied(m, x, |val|, isUser)
                && (exists marked: seq<Byte> :: Arrived(m, marked, t, x, val, isUser, advise))
                && forall n: nat :: n < |val| ==> ByteArrived(m, t, x, val, n, isUser, advise)))
  }

  lemma TraceAfterMarks(m: Machine, p: Machine, t: Machine, k: Access, advise: (nat, nat) -> Advice)
    requires |m.meta| == |m.clean| == |t.meta| == NUM_PAGES && t.control == m.control && t.devices == m.devices
    requires p == m.(ram := p.ram) && Walked(m, k, p.ram) && Traced(p, t, advise) && PagesAgree(m, p.ram, t, k)
    ensures WriteTraced(m, t, k, advise)
  {
    hide OnlyMarks, SameButMarks, Walked, PagesAgree;
    WalkedMarks(m, k, p.ram);
    TracedIsAdvised(m, p.ram, t, advise);
    assert Written(m, p.ram, t, k, advise);
  }

  lemma KeptPagesAgree(m: Machine, fin: seq<Byte>, t: Machine, k: Access)
    requires |m.meta| == |m.clean| == NUM_PAGES && SamePages(m, t)
    ensures PagesAgree(m, fin, t, k)
  {
    hide PageMapped;
  }

  lemma OutcomeUnprepared(m: Machine, p: Machine, x: nat, val: seq<Byte>, isUser: bool, advise: (nat, nat) -> Advice,
                          r: WriteResult)
    requires Sizes(m) && IsWidth(|val|) && x + |val| <= MAX_RAM && p == m.(ram := p.ram)
    requires Walked(m, Access(x, |val|, true, isUser), p.ram) && !r.Done?
    requires WriteEndsIn(m, Access(x, |val|, true, isUser), r)
    requires Aligned(m.control.paging) ==> WriteFits(m, x, |val|, isUser, r)
    ensures WriteOutcome(m, p, x, val, isUser, advise, r)
  {
    hide Walked, WriteTraced, Traced, WriteFits, PagesAgree, WriteEndsIn;
    var k := Access(x, |val|, true, isUser);
    TracedRefl(p, p, advise);
    KeptPagesAgree(m, p.ram, p, k);
    TraceAfterMarks(m, p, p, k, advise);
  }

  lemma MadeArrived(m: Machine, marked: seq<Byte>, t: Machine, w: PreparedWrite, isUser: bool,
                    advise: (nat, nat) -> Advice)
    requires Sizes(m) && |t.meta| == NUM_PAGES && IsWidth(|w.val|) && w.addr + |w.val| <= MAX_RAM && m.log <= t.log
    requires Aligned(m.control.paging)
    requires MadeAs(m, marked, t, w, isUser, advise)
    ensures Arrived(m, marked, t, w.addr, w.val, isUser, advise)
    ensures forall n: nat :: n < |w.val| ==> ByteArrived(m, t, w.addr, w.val, n, isUser, advise)
  {
    var p := m.(ram := marked);
    WalkedMarks(m, AccessOf(w, isUser), marked);
    hide SameButMarks, Walked, OnlyMarks, PutFirst, PreparedTold, WriteTold;
    PlacesAreDestinations(m, p, w, isUser, advise);
    PreparedAsTranslated(m, p, w, isUser, advise);
    assert LogTells(m, t, WriteTold(m, w.addr, w.val, isUser, advise));
    ResolvesMatch(m, marked, w, isUser);
    hide Resolves, Prepared, PlaceOf, DestinationOf, ByteMade;
    forall n: nat | n < |w.val| ensures ByteArrived(m, t, w.addr, w.val, n, isUser, advise) {
      assert Places(p, w, advise)[n] == Destinations(m, w.addr, |w.val|, isUser, advise)[n];
      ByteMadeArrived(m, p, t, w, n, isUser, advise);
    }
  }

  lemma ByteMadeArrived(m: Machine, p: Machine, t: Machine, w: PreparedWrite, n: nat, isUser: bool,
                        advise: (nat, nat) -> Advice)
    requires Sizes(m) && p == m.(ram := p.ram) && |p.ram| == |m.ram| && n < |w.val| && m.log <= t.log
    requires |t.meta| == NUM_PAGES && |t.ram| == |m.ram| && IsWidth(|w.val|) && Prepared(p, w, isUser)
    requires MatchesPhysical(m, w, isUser) && ByteMade(p, t, w, n, isUser, advise)
    requires PlaceOf(p, w, n, advise) == DestinationOf(m, w.addr, n, |w.val|, isUser, advise)
    ensures ByteArrived(m, t, w.addr, w.val, n, isUser, advise)
  {
    hide DestinationOf, Physical, ShouldTrap, Denies, UserAllowed, Target, WriteReady, Span, ByteHeld, HandedOn;
    hide HandedOver;
    PageOfByte(w.addr, n);
    PageOfByte(w.addr, |w.val|);
    if !PlaceOf(p, w, n, advise).Through? { HandedOnAsTranslated(m, p, t, w, n, isUser, advise); }
  }

  lemma HandedOnAsTranslated(m: Machine, p: Machine, t: Machine, w: PreparedWrite, n: nat, isUser: bool,
                             advise: (nat, nat) -> Advice)
    requires Sizes(m) && p == m.(ram := p.ram) && |p.ram| == |m.ram| && n < |w.val| && m.log <= t.log
    requires IsWidth(|w.val|) && Prepared(p, w, isUser) && MatchesPhysical(m, w, isUser)
    requires HandedOn(p, t, w, n, advise) && !PlaceOf(p, w, n, advise).Through?
    ensures Physical(m.control, m.ram, StartOf(w.addr, n)).Some?
    ensures HandedOver(m, t, Physical(m.control, m.ram, StartOf(w.addr, n)).value + MovedBy(w, n), Piece(w, n),
                       PlaceOf(p, w, n, advise).Past?)
  {
    hide Physical, ShouldTrap, Denies, UserAllowed, Target, WriteReady, Span;
    PageOfByte(w.addr, n);
    PageOfByte(w.addr, |w.val|);
    var r := PartOf(w, n);
    assert r.Some?;
    OffsetStaysInFrame(m, r.value, MovedBy(w, n));
  }

  lemma OutcomePrepared(m: Machine, p: Machine, w: PreparedWrite, isUser: bool, advise: (nat, nat) -> Advice)
    requires Inv(m) && Inv(p) && p == m.(ram := p.ram) && |m.meta| == |m.clean| == NUM_PAGES
    requires IsWidth(|w.val|) && Prepared(p, w, isUser) && Walked(m, AccessOf(w, isUser), p.ram)
    requires w.addr + |w.val| <= MAX_RAM && MatchesTraps(m, w, isUser) && Resolves(m, p.ram, w, isUser)
    requires Aligned(m.control.paging) ==> !WriteStops(m, w.addr, |w.val|, isUser)
    ensures var t := Executed(p, w, advise);
            Inv(t) && |t.meta| == NUM_PAGES && WriteOutcome(m, t, w.addr, w.val, isUser, advise, Done)
  {
    hide Inv, Executed, Walked, Resolves, Prepared, MatchesTraps, WriteOutcome, WriteStops, AllMade;
    var t := Executed(p, w, advise);
    SizesOf(m);
    ExecutedIsMade(p, w, isUser, advise);
    SizesOf(t);
    MadeIsTraced(p, t, w, isUser, advise);
    WalkedLength(m, AccessOf(w, isUser), p.ram);
    WrittenAgree(m, p, t, w, isUser);
    TraceAfterMarks(m, p, t, AccessOf(w, isUser), advise);
    OutcomeMade(m, p, t, w, isUser, advise);
  }

  lemma MadeIsTraced(m: Machine, t: Machine, w: PreparedWrite, isUser: bool, advise: (nat, nat) -> Advice)
    requires |m.meta| == |m.clean| == NUM_PAGES && 1 <= |w.val| && w.addr + |w.val| <= MAX_RAM
    requires AllMade(m, t, w, isUser, advise)
    ensures |t.meta| == |t.clean| == NUM_PAGES && t.control == m.control && t.devices == m.devices && m.log <= t.log
    ensures Traced(m, t, advise) && PagesWritten(m, t, w)
  {
    hide Traced, PagesWritten, MappedForBytes, PutFirst, ByteMade;
  }

  lemma OutcomeMade(m: Machine, p: Machine, t: Machine, w: PreparedWrite, isUser: bool, advise: (nat, nat) -> Advice)
    requires Sizes(m) && p == m.(ram := p.ram) && |t.meta| == NUM_PAGES
    requires IsWidth(|w.val|) && Prepared(p, w, isUser) && Walked(m, AccessOf(w, isUser), p.ram)
    requires w.addr + |w.val| <= MAX_RAM && MatchesTraps(m, w, isUser) && Resolves(m, p.ram, w, isUser)
    requires Aligned(m.control.paging) ==> !WriteStops(m, w.addr, |w.val|, isUser)
    requires AllMade(p, t, w, isUser, advise) && m.log <= t.log && WriteTraced(m, t, AccessOf(w, isUser), advise)
    ensures WriteOutcome(m, t, w.addr, w.val, isUser, advise, Done)
  {
    hide Walked, Resolves, Prepared, MatchesTraps, Arrived, ByteArrived, WriteTraced, WriteFits, WriteStops, AllMade;
    hide WriteDenied, WriteEndsIn;
    WalkedLength(m, AccessOf(w, isUser), p.ram);
    assert MadeAs(m, p.ram, t, w, isUser, advise) by { SplitIsCrossing(p, w, isUser); }
    assert WriteEndsIn(m, AccessOf(w, isUser), Done) by { NothingEnds(m, AccessOf(w, isUser)); }
    if Aligned(m.control.paging) {
      DoneFits(m, w.addr, |w.val|, isUser);
      MadeArrived(m, p.ram, t, w, isUser, advise);
    }
  }

  lemma NothingEnds(m: Machine, k: Access)
    requires |m.meta| == |m.clean| == NUM_PAGES
    ensures WriteEndsIn(m, k, Done)
  {
  }

  lemma SplitIsCrossing(m: Machine, w: PreparedWrite, isUser: bool)
    requires |m.meta| == |m.clean| == NUM_PAGES && Prepared(m, w, isUser)
    ensures w.split <==> Crosses(w.addr, |w.val|)
  {
  }

  // A write that needs no trap is one whose preparation has nothing to resolve.
  lemma OutcomeUntrapped(m: Machine, t: Machine, x: nat, val: seq<Byte>, isUser: bool, advise: (nat, nat) -> Advice)
    requires Inv(m) && IsWidth(|val|) && x + |val| <= MAX_RAM && Untrapped(m, x, |val|, true, isUser)
    requires t == Happened(m, Stored(Spread(m.host, x, val)))
    ensures |m.clean| == |t.meta| == NUM_PAGES && WriteOutcome(m, t, x, val, isUser, advise, Done)
  {
    hide Inv, Traced, WriteTraced, Spread, PagesAgree, Walked, AllMade, Untrapped, Prepared, MatchesTraps, Resolves;
    hide WriteOutcome, WriteStops;
    SizesOf(m);
    var w := PreparedWrite(Crosses(x, |val|), None, None, val, x);
    var k := Access(x, |val|, true, isUser);
    UntrappedStoreIsTraced(m, x, val, isUser, advise);
    WalkedRefl(m, k);
    KeptPagesAgree(m, m.ram, t, k);
    assert m.(ram := m.ram) == m;
    TraceAfterMarks(m, m, t, k, advise);
    NothingToPrepare(m, w, isUser);
    UntrappedIsMade(m, t, w, isUser, advise);
    OutcomeMade(m, m, t, w, isUser, advise);
  }

  lemma NothingToPrepare(m: Machine, w: PreparedWrite, isUser: bool)
    requires |m.meta| == |m.clean| == NUM_PAGES && IsWidth(|w.val|) && w.addr + |w.val| <= MAX_RAM
    requires w.first.None? && w.second.None? && (w.split <==> Crosses(w.addr, |w.val|))
    requires Untrapped(m, w.addr, |w.val|, true, isUser)
    ensures Prepared(m, w, isUser) && MatchesTraps(m, w, isUser) && Resolves(m, m.ram, w, isUser)
    ensures !WriteStops(m, w.addr, |w.val|, isUser)
  {
    hide ShouldTrap, Denies, Fails;
    PageOfByte(w.addr, |w.val|);
    assert w.split ==> w.addr <= NextPage(w.addr) < w.addr + |w.val|;
  }

  lemma UntrappedTells(m: Machine, t: Machine, w: PreparedWrite, advise: (nat, nat) -> Advice)
    requires w.val != [] && w.first.None? && w.second.None? && t == Happened(m, Stored(Spread(m.host, w.addr, w.val)))
    ensures LogTells(m, t, PreparedTold(m, w, advise))
  {
    hide Spread, LogTells, RamStep, CleanStep, PiecesTold;
    TellsNothing(m, m);
    TellsNext(m, m, [], Stored(Spread(m.host, w.addr, w.val)));
    var nothing: seq<Event> := [];
    assert nothing + [] == [];
    UnresolvedTells(m, w, |w.val|, advise);
  }

  lemma {:induction false} UnresolvedTells(m: Machine, w: PreparedWrite, n: nat, advise: (nat, nat) -> Advice)
    requires n <= |w.val| && w.first.None? && w.second.None?
    ensures PiecesTold(m, w, n, advise) == []
  {
    if n > 0 { UnresolvedTells(m, w, n - 1, advise); }
  }

  lemma UntrappedIsMade(m: Machine, t: Machine, w: PreparedWrite, isUser: bool, advise: (nat, nat) -> Advice)
    requires Inv(m) && |m.meta| == |m.clean| == NUM_PAGES && Prepared(m, w, isUser) && w.first.None? && w.second.None?
    requires Untrapped(m, w.addr, |w.val|, true, isUser) && Traced(m, t, advise) && m.log <= t.log
    requires t == Happened(m, Stored(Spread(m.host, w.addr, w.val)))
    ensures AllMade(m, t, w, isUser, advise)
  {
    hide Coherent, Mirrored, Recorded, Traced, Spread, PutFirst, ByteMade, Target, LogTells;
    UntrappedTells(m, t, w, advise);
    var places := Places(m, w, advise);
    UntrappedTargets(m, w.addr, |w.val|, isUser);
    assert forall i: nat :: i < |w.val| ==> places[i] == Through(Target(m.host, w.addr + i));
    SpreadIsPut(m.host, m.ram, w.addr, w.val, places, |w.val|);
    assert w.val[..|w.val|] == w.val;
    forall n: nat | n < |w.val| ensures ByteMade(m, t, w, n, isUser, advise) {
      ByteIsMade(m, t, w, n, isUser, advise);
    }
  }

  // ----- Writes that nothing holds back

  // Going by the history: nothing went to a device or to nowhere, and no device wanted a frame to stay clean.
  predicate HeldNothingBack(events: seq<Event>) {
    forall e :: e in events ==> !e.ToDevice? && !e.Dropped? && (e.Advised? ==> e.answer != DoNotMark)
  }

  // Whatever the base, the write's bytes are then where its pages are mapped.
  lemma HeldByHistory(m: Machine, t: Machine, x: nat, val: seq<Byte>, isUser: bool, advise: (nat, nat) -> Advice)
    requires |m.meta| == |m.clean| == |t.meta| == NUM_PAGES && IsWidth(|val|) && x + |val| <= MAX_RAM
    requires WriteOutcome(m, t, x, val, isUser, advise, Done)
    ensures m.log <= t.log
    ensures HeldNothingBack(t.log[|m.log|..]) ==> forall n: nat :: n < |val| ==> ByteHeld(t, x + n, val[n], isUser)
  {
    hide WriteTraced, Arrived, ByteArrived, Walked, Resolves, MatchesTraps, Traced, PagesWritten, PutFirst, ByteHeld;
    hide Span;
    hide WriteDenied, Physical;
    var marked: seq<Byte>, w: PreparedWrite :| w.addr == x && w.val == val && MadeAs(m, marked, t, w, isUser, advise);
    if HeldNothingBack(t.log[|m.log|..]) {
      forall n: nat | n < |val| ensures ByteHeld(t, x + n, val[n], isUser) {
        assert ByteMade(m.(ram := marked), t, w, n, isUser, advise);
        HeldBackIsLogged(m.(ram := marked), t, w, n, advise);
      }
    }
  }

  lemma HeldBackIsLogged(m: Machine, t: Machine, w: PreparedWrite, n: nat, advise: (nat, nat) -> Advice)
    requires m.log <= t.log && n < |w.val| && HandedOn(m, t, w, n, advise) && HeldNothingBack(t.log[|m.log|..])
    ensures PlaceOf(m, w, n, advise).Through?
  {
    hide Span, Target;
  }

  // Going by translation, with an aligned base: every byte goes through the mapping.
  ghost predicate GoesThrough(m: Machine, x: nat, len: nat, isUser: bool, advise: (nat, nat) -> Advice)
    requires |m.meta| == |m.clean| == NUM_PAGES && x + len <= MAX_RAM
  {
    Aligned(m.control.paging) && forall n: nat :: n < len ==> DestinationOf(m, x, n, len, isUser, advise).Through?
  }

  lemma HeldByTranslation(m: Machine, t: Machine, x: nat, val: seq<Byte>, isUser: bool, advise: (nat, nat) -> Advice)
    requires |m.meta| == |m.clean| == |t.meta| == NUM_PAGES && IsWidth(|val|) && x + |val| <= MAX_RAM
    requires WriteOutcome(m, t, x, val, isUser, advise, Done)
    ensures GoesThrough(m, x, |val|, isUser, advise) ==>
              forall n: nat :: n < |val| ==> ByteHeld(t, x + n, val[n], isUser)
  {
    hide WriteTraced, Arrived, MadeAs, DestinationOf, ByteHeld, WriteDenied, HandedOver;
    WriteIsLogged(m, t, x, val, isUser, advise, Done);
    if GoesThrough(m, x, |val|, isUser, advise) {
      forall n: nat | n < |val| ensures ByteHeld(t, x + n, val[n], isUser) {
        assert ByteArrived(m, t, x, val, n, isUser, advise);
      }
    }
  }

  // With an aligned base the device hears exactly what translation says beforehand, and exactly the frames so told to
  // be marked are no longer clean.
  lemma WriteTells(m: Machine, t: Machine, x: nat, val: seq<Byte>, isUser: bool, advise: (nat, nat) -> Advice)
    requires |m.meta| == |m.clean| == |t.meta| == NUM_PAGES && IsWidth(|val|) && x + |val| <= MAX_RAM
    requires Aligned(m.control.paging) && WriteOutcome(m, t, x, val, isUser, advise, Done)
    ensures m.log <= t.log && Told(t.log[|m.log|..]) == WriteTold(m, x, val, isUser, advise)
    ensures t.clean == CleanAfter(m.clean, WriteTold(m, x, val, isUser, advise))
  {
    hide MadeAs, ByteArrived, WriteDenied, CleanFramesAdvised, PagesAgree, Walked, SameButMarks, PutFirst, WriteTold;
    hide WriteFits, WriteEndsIn, Announced, Asked, Notifies, RamAfter;
    var marked: seq<Byte> :| Arrived(m, marked, t, x, val, isUser, advise);
    var walked: seq<Byte> :| Written(m, walked, t, Access(x, |val|, true, isUser), advise);
    ToldCleans(m.clean, t.log[|m.log|..]);
  }

  lemma WriteIsLogged(m: Machine, t: Machine, x: nat, val: seq<Byte>, isUser: bool, advise: (nat, nat) -> Advice,
                      r: WriteResult)
    requires |m.meta| == |m.clean| == |t.meta| == NUM_PAGES && IsWidth(|val|) && x + |val| <= MAX_RAM
    requires WriteOutcome(m, t, x, val, isUser, advise, r)
    ensures m.log <= t.log
  {
  }
}
