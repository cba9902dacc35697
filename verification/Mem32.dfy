/** The memory unit: page walks, trapped accesses, prepared writes and the fast path around them. */
module MemoryUnit {
  import opened Accesses
  import opened Agreement
  import opened Bytes
  import opened Histories
  import Layouts
  import opened Memory
  import opened Metadata
  import opened Options
  import opened PageTables
  import opened Reads
  import opened Switches
  import opened Writes

  datatype PrepareResult = Ready(write: PreparedWrite) | NotReady(result: WriteResult)

  class Mem32 {
    const ram: array<Byte>
    const frameIsClean: array<bool>
    const metadata: MetadataMap
    var control: Control
    // The frames that belong to a device; all others below the end of RAM are RAM.
    var devices: map<nat, nat>
    // The mapping last requested for each page, which is kept when pages are invalidated.
    var currentMappings: map<nat, nat>
    // The host's own page table for the linear region.
    var hostMap: map<nat, nat>
    ghost var tlb: map<nat, TlbEntry>
    ghost var log: seq<Event>

    ghost function Footprint(): set<object> {
      {this, ram, frameIsClean, metadata.entries, metadata.modified}
    }

    ghost predicate Separate() {
      var bits: set<object> := {metadata.entries, metadata.modified};
      ram !in bits && frameIsClean !in bits && ram as object != frameIsClean
    }

    ghost function Now(): Machine
      reads this, ram, frameIsClean, metadata.entries
    {
      Machine(control, ram[..], metadata.entries[..], frameIsClean[..], devices, currentMappings, hostMap, tlb, log)
    }

    ghost predicate Valid()
      reads this, ram, frameIsClean, metadata, metadata.entries, metadata.modified
    {
      Separate() && metadata.Valid() && Inv(Now())
    }

    // RAM starts out clean and every page trapped, with paging off.
    constructor (physicalMemory: array<Byte>)
      requires 0 < physicalMemory.Length <= MAX_RAM && physicalMemory.Length % PAGE_SIZE == 0
      ensures Valid() && ram == physicalMemory && fresh(Footprint() - {ram})
      ensures ram[..] == old(physicalMemory[..]) && devices == map[] && !control.enabled && log == []
      ensures forall f :: 0 <= f < NUM_PAGES ==> frameIsClean[f]
      ensures forall p :: 0 <= p < NUM_PAGES ==> metadata.entries[p] == 0xff
      ensures Current(Now()) && Strict(Now())
    {
      ram := physicalMemory;
      frameIsClean := new bool[NUM_PAGES](_ => true);
      metadata := new MetadataMap();
      control := Control(false, false, Paging(0, false, false));
      devices, currentMappings, hostMap, tlb, log := map[], map[], map[], map[], [];
      new;
      assert frameIsClean[..] == AllClean();
    }

    // ----- Control

    // Only the pages' trap bits change: what is mapped stays mapped, and currentMappings stays true of it.
    method InvalidateAllPages()
      requires Valid()
      modifies this`tlb, metadata.entries, metadata.modified
      ensures Valid() && Now() == Invalidated(old(Now())) && Current(Now()) && Strict(Now())
    {
      InvalidatedKeepsInv(Now(), control);
      metadata.Clear();
      tlb := map[];
      assert Now() == Invalidated(old(Now()));
    }

    method InvalidatePage(x: nat)
      requires Valid() && x < MAX_RAM
      modifies this`tlb, metadata.entries, metadata.modified
      ensures Valid()
      ensures Now() == old(Now()).(meta := old(Now()).meta[x / PAGE_SIZE := 0xff], tlb := old(tlb) - {x / PAGE_SIZE})
      ensures old(Current(Now())) ==> Current(Now()) && (old(Strict(Now())) ==> Strict(Now()))
    {
      hide Coherent, Current, Strict, Recorded, Mirrored;
      ghost var m := Now();
      InvalidatePageKeepsInv(Now(), x / PAGE_SIZE);
      metadata.Set(x, 0xff);
      tlb := tlb - {x / PAGE_SIZE};
      if Current(m) {
        MoreTrapsStayCurrent(m, Now());
      }
    }

    method CleanPhysFrameRange(first: nat, end: nat)
      requires Valid() && first <= end <= NUM_PAGES
      modifies this`log, frameIsClean, metadata.entries
      ensures Valid()
      ensures Now() == Happened(old(Now()), Cleaned(first, end)).(meta := metadata.entries[..])
      ensures forall f :: 0 <= f < NUM_PAGES ==> (frameIsClean[f] <==> first <= f < end || old(frameIsClean[f]))
      ensures forall p :: 0 <= p < NUM_PAGES ==> metadata.entries[p] == old(metadata.entries[p]) | TRAP_WRITE
      ensures old(Current(Now())) ==> Current(Now()) && (old(Strict(Now())) ==> Strict(Now()))
    {
      hide Coherent, Hit, Recorded, Current, Strict;
      ghost var m := Now();
      for f := first to end
        invariant forall i :: 0 <= i < NUM_PAGES ==> (frameIsClean[i] <==> first <= i < f || m.clean[i])
        invariant metadata.Valid() && metadata.entries[..] == m.meta && log == m.log
      {
        frameIsClean[f] := true;
      }
      metadata.EnableForAll(TRAP_WRITE);
      log := log + [Cleaned(first, end)];
      assert frameIsClean[..] == CleanStep(m.clean, Cleaned(first, end));
      CleaningKeepsInv(m, first, end, metadata.entries[..]);
      if Current(m) {
        MoreTrapsStayCurrent(m, Now());
      }
    }

    method SetControl(c: Control)
      requires Valid()
      modifies this`control
      ensures Valid() && Now() == old(Now()).(control := c)
    {
      control := c;
    }

    method SetPageDirectoryBase(base: nat)
      requires Valid() && base < MAX_RAM
      modifies this`control, this`tlb, metadata.entries, metadata.modified
      ensures Valid() && Current(Now()) && Strict(Now())
      ensures Now() == Invalidated(old(Now())).(control := old(control).(paging := old(control).paging.(base := base)))
    {
      hide Coherent, Hit, Recorded;
      SetControl(control.(paging := control.paging.(base := base)));
      InvalidateAllPages();
    }

    // None of the next three invalidates a page; each says exactly when mappings agree with translation after it.
    method EnablePaging(enable: bool)
      requires Valid()
      modifies this`control
      ensures Valid() && Now() == old(Now()).(control := old(control).(enabled := enable))
      ensures old(Current(Now())) ==> (Current(Now()) <==> old(PagingCanSwitch(Now(), enable)))
    {
      hide Inv, Current, PagingCanSwitch;
      SizesOf(Now());
      if Current(Now()) {
        PagingExactly(Now(), enable);
      }
      SetControl(control.(enabled := enable));
    }

    method SetSystemWriteProtect(protect: bool)
      requires Valid()
      modifies this`control
      ensures Valid() && Now() == old(Now()).(control := old(control).(writeProtect := protect))
      ensures old(Current(Now())) ==> (Current(Now()) <==> !protect || old(WritesGranted(Now())))
      ensures Strict(Now()) <==> old(Strict(Now()))
    {
      hide Inv, Current, Strict, WritesGranted;
      SizesOf(Now());
      WriteProtectExactly(Now(), protect);
      SetControl(control.(writeProtect := protect));
    }

    method SetPageSizeExtension(enable: bool)
      requires Valid()
      modifies this`control
      ensures Valid() && Now() == old(Now()).(control := old(control).(paging := old(control).paging.(pse := enable)))
      ensures old(Current(Now())) ==> (Current(Now()) <==> old(ExtensionCanSwitch(Now(), enable)))
    {
      hide Inv, Current, ExtensionCanSwitch;
      SizesOf(Now());
      if Current(Now()) {
        ExtensionExactly(Now(), enable);
      }
      SetControl(control.(paging := control.paging.(pse := enable)));
    }

    method EnablePhysicalAddressExtension(enable: bool)
      requires Valid()
      modifies this`control, this`tlb, metadata.entries, metadata.modified
      ensures Valid()
      ensures enable == old(control).paging.pae ==> Now() == old(Now())
      ensures enable != old(control).paging.pae ==>
                && Current(Now()) && Strict(Now())
                && var c := old(control);
                   Now() == Invalidated(old(Now())).(control := c.(paging := c.paging.(pae := enable)))
    {
      hide Coherent, Hit, Recorded;
      if control.paging.pae != enable {
        SetControl(control.(paging := control.paging.(pae := enable)));
        InvalidateAllPages();
      }
    }

    // The frames first to end now belong to device id, or to RAM again if there is none.
    method MapPhysicalMemory(first: nat, end: nat, id: Option<nat>)
      requires Valid() && first < end <= NUM_PAGES
      modifies this`devices, this`tlb, this`log, frameIsClean, metadata.entries, metadata.modified
      ensures Valid() && Current(Now()) && Strict(Now())
      ensures Now() == Invalidated(Happened(old(Now()), Cleaned(first, end))).(devices := devices)
      ensures devices == MapFrames(old(devices), first, end, id)
    {
      hide Coherent, Hit, Recorded, MapFrames;
      ghost var m := Now();
      devices := MapFrames(devices, first, end, id);
      DevicesKeepInv(m, devices);
      CleanPhysFrameRange(first, end);
      InvalidateAllPages();
    }

    // ----- Page walks

    method PageWalk(x: nat, mark: bool) returns (w: Walk)
      modifies ram
      ensures (w, ram[..]) == WalkTables(old(ram[..]), control.paging, x, mark)
      ensures x < MAX_RAM && control.paging.pae ==>
                (w, ram[..]) == Layouts.WalkPae(old(ram[..]), control.paging.base, x, mark)
      ensures x < MAX_RAM && !control.paging.pae ==>
                (w, ram[..]) == Layouts.Walk32(old(ram[..]), control.paging.base, control.paging.pse, x, mark)
    {
      if control.paging.pae {
        w := PageWalkPae(x, mark);
      } else {
        w := PageWalkNonPae(x, mark);
      }
    }

    method PageWalkPae(x: nat, mark: bool) returns (w: Walk)
      requires control.paging.pae
      modifies ram
      ensures (w, ram[..]) == WalkTables(old(ram[..]), control.paging, x, mark)
      ensures x < MAX_RAM ==> (w, ram[..]) == Layouts.WalkPae(old(ram[..]), control.paging.base, x, mark)
    {
      hide Layouts.WalkPae, WalkPde, TableBase;
      if x < MAX_RAM { Layouts.WalkExactlyPae(ram[..], control.paging, x, mark); }
      var pdpe := control.paging.base + x / 0x4000_0000 % 4 * 8;
      if pdpe + 8 > ram.Length {
        return Outside;
      }
      if ram[pdpe] % 2 == 0 {
        return Unmapped(Pdpe, pdpe);
      }
      w := WalkDirectory(x, TableBase(ram[..], control.paging, pdpe) + x / 0x20_0000 % 512 * 8, mark);
    }

    method PageWalkNonPae(x: nat, mark: bool) returns (w: Walk)
      requires !control.paging.pae
      modifies ram
      ensures (w, ram[..]) == WalkTables(old(ram[..]), control.paging, x, mark)
      ensures x < MAX_RAM ==>
                (w, ram[..]) == Layouts.Walk32(old(ram[..]), control.paging.base, control.paging.pse, x, mark)
    {
      hide Layouts.Walk32, WalkPde, TableBase;
      if x < MAX_RAM { Layouts.WalkExactly32(ram[..], control.paging, x, mark); }
      w := WalkDirectory(x, control.paging.base + x / 0x40_0000 % 1024 * 4, mark);
    }

    // The two levels that both walks share.
    method WalkDirectory(x: nat, pde: nat, mark: bool) returns (w: Walk)
      modifies ram
      ensures (w, ram[..]) == WalkPde(old(ram[..]), control.paging, x, pde, mark)
      ensures var c := control.paging;
              (w, ram[..]) == Layouts.FromDirectory(old(ram[..]), x, pde, Width(c), c.pae || c.pse, mark)
    {
      hide TableBase, BigBase, Layouts.FromDirectory;
      Layouts.PdeExactly(ram[..], control.paging, x, pde, mark);
      var c := control.paging;
      if pde + Width(c) > ram.Length {
        return Outside;
      }
      var entry := ram[pde];
      var table, big := TableBase(ram[..], c, pde), BigBase(ram[..], c, pde);
      if entry % 2 == 0 {
        return Unmapped(Pde, pde);
      }
      if mark && !Accessed(entry) {
        ram[pde] := entry + 32;
      }
      assert ram[..] == if mark then old(ram[..])[pde := SetAccessed(entry)] else old(ram[..]);
      if entry / 128 == 1 && (c.pae || c.pse) {
        return Mapped(big + BigOffset(c, x), entry / 2 % 2 == 1, entry / 4 % 2 == 1, Dirty(entry),
                      ram[pde + 1] % 2 == 1, true, pde);
      }
      SettersKeepFlags(entry);
      w := WalkTable(x, pde, table + PteIndex(c, x) * Width(c), entry / 2 % 2 == 1, entry / 4 % 2 == 1, mark);
    }

    method WalkTable(x: nat, ghost pde: nat, pte: nat, writable: bool, user: bool, mark: bool) returns (w: Walk)
      requires InRam(ram[..], control.paging, pde)
      requires writable == Writable(ram[..], pde) && user == User(ram[..], pde)
      modifies ram
      ensures (w, ram[..]) == WalkPte(old(ram[..]), control.paging, x, pde, pte, mark)
      ensures var rights := (if writable then 2 else 0) + (if user then 4 else 0);
              (w, ram[..]) == Layouts.FromTable(old(ram[..]), x, rights, pte, Width(control.paging), mark)
    {
      hide TableBase, BigBase, Layouts.FromTable;
      ghost var rights := (if writable then 2 else 0) + (if user then 4 else 0);
      assert Layouts.Flag(rights, 2) == writable && Layouts.Flag(rights, 4) == user;
      Layouts.PteExactly(ram[..], control.paging, x, rights, pde, pte, mark);
      var c := control.paging;
      if pte + Width(c) > ram.Length {
        return Outside;
      }
      var entry := ram[pte];
      if entry % 2 == 0 {
        return Unmapped(Pte, pte);
      }
      w := Mapped(TableBase(ram[..], c, pte) + x % 0x1000, writable && entry / 2 % 2 == 1, user && entry / 4 % 2 == 1,
                  Dirty(entry), ram[pte + 1] % 2 == 1, false, pte);
      if mark && !Accessed(entry) {
        ram[pte] := entry + 32;
      }
      assert ram[..] == if mark then old(ram[..])[pte := SetAccessed(entry)] else old(ram[..]);
    }

    // ----- Resolving an access

    predicate PhysFrameIsDirty(frame: nat)
      requires frame < frameIsClean.Length
      reads frameIsClean
    {
      !frameIsClean[frame]
    }

    method ResolveAccessAddress(x: nat, isWrite: bool, isUser: bool) returns (r: Resolution)
      requires x < MAX_RAM && frameIsClean.Length == NUM_PAGES
      modifies ram
      ensures (r, ram[..]) == Resolve(old(ram[..]), frameIsClean[..], control, x, isWrite, isUser)
    {
      hide WalkTables, Layouts.Walk32, Layouts.WalkPae;
      if !control.enabled {
        var dirty := PhysFrameIsDirty(x / PAGE_SIZE);
        return Resolved(ResolvedAccess(x, x, isWrite || dirty, isWrite && !dirty, true));
      }
      var w := PageWalk(x, true);
      if w.Outside? {
        return HostFailure;
      }
      if w.Unmapped? {
        return PageFault(FaultCode(false, isWrite, isUser), x);
      }
      var writable := w.writable || (!isUser && !control.writeProtect);
      if !writable && isWrite {
        return PageFault(FaultCode(true, isWrite, isUser), x);
      }
      if !w.user && isUser {
        return PageFault(FaultCode(true, isWrite, isUser), x);
      }
      var dirty := w.dirty;
      ghost var walked := ram[..];
      if isWrite && !dirty {
        if !Dirty(ram[w.leaf]) {
          ram[w.leaf] := ram[w.leaf] + 64;
        }
        dirty := true;
      }
      assert ram[..] == if isWrite && !w.dirty then MarkDirty(walked, w.leaf) else walked;
      if w.addr / PAGE_SIZE >= NUM_PAGES {
        return HostFailure;
      }
      var frameDirty := PhysFrameIsDirty(w.addr / PAGE_SIZE);
      r := Resolved(ResolvedAccess(x, w.addr, isWrite || (writable && dirty && frameDirty),
                                   isWrite && !frameDirty, w.user));
    }

    method MapAddressBeforeAccess(page: nat, frame: nat)
      requires Mirrored(Now())
      modifies this`currentMappings, this`hostMap
      ensures currentMappings == old(currentMappings)[page := frame]
      ensures hostMap == old(hostMap)[page := frame]
    {
      if page !in currentMappings || currentMappings[page] != frame {
        currentMappings := currentMappings[page := frame];
        hostMap := hostMap[page := frame];
      }
    }

    // Lets later accesses to the page through and maps it.
    method InstallMapping(a: ResolvedAccess)
      requires Valid() && a.emuAddr < MAX_RAM && a.physAddr < ram.Length
      requires a.writable ==> !frameIsClean[a.Frame()]
      modifies this, metadata.entries, metadata.modified
      ensures Valid() && Now() == Install(old(Now()), a)
    {
      hide Coherent, Recorded;
      InstallKeepsInv(Now(), a);
      metadata.Set(a.emuAddr, MetadataBits(!a.user, !a.writable));
      MapAddressBeforeAccess(a.Page(), a.Frame());
      tlb := tlb[a.Page() := TlbEntry(a.Frame(), a.writable, a.user)];
    }

    // None: the page is now mapped and the access can be repeated there.
    method HandleTrappedLinearMemoryRead(a: ResolvedAccess, n: nat, device: seq<Byte>) returns (r: Option<seq<Byte>>)
      requires Valid() && a.emuAddr < MAX_RAM && (a.physAddr < ram.Length && a.writable ==> !frameIsClean[a.Frame()])
      requires |device| == n
      modifies this, metadata.entries, metadata.modified
      ensures Valid()
      ensures a.Frame() in devices ==> r == Some(device) && Now() == old(Now())
      ensures a.Frame() !in devices && a.physAddr >= ram.Length ==> r == Some(seq(n, _ => 0xff)) && Now() == old(Now())
      ensures a.Frame() !in devices && a.physAddr < ram.Length ==> r == None && Now() == Install(old(Now()), a)
    {
      if a.Frame() in devices {
        return Some(device);
      }
      if a.physAddr >= ram.Length {
        return Some(seq(n, _ => 0xff));
      }
      InstallMapping(a);
      return None;
    }

    // ----- Stores

    // Writes through the host mapping. The caller vouches that no byte traps, so every byte lands in a dirty RAM frame.
    method WriteUnchecked(x: nat, bytes: seq<Byte>, ghost isUser: bool)
      requires Valid() && 1 <= |bytes| <= 8 && x + |bytes| <= MAX_RAM
      requires Untrapped(Now(), x, |bytes|, true, isUser)
      modifies this`log, ram
      ensures Valid() && Now() == Happened(old(Now()), Stored(Spread(hostMap, x, bytes)))
    {
      hide Coherent, Mirrored, Recorded, Spread;
      ghost var m := Now();
      SpreadOfNothing(hostMap, m.ram, x);
      for i := 0 to |bytes|
        invariant ram[..] == Overlaid(m.ram, Spread(hostMap, x, bytes[..i]))
        invariant log == m.log
      {
        assert !TrapsAt(m, x + i, true, isUser);
        UntrappedTarget(m, x + i, true, isUser);
        SpreadOneMore(hostMap, m.ram, x, bytes, i);
        ghost var before := ram[..];
        ram[hostMap[(x + i) / PAGE_SIZE] * PAGE_SIZE + (x + i) % PAGE_SIZE] := bytes[i];
        assert ram[..] == before[Target(hostMap, x + i) := bytes[i]];
      }
      assert bytes[..|bytes|] == bytes;
      UntrappedReachesDirty(m, x, bytes, isUser);
      log := log + [Stored(Spread(hostMap, x, bytes))];
      HappenedKeepsInv(m, Stored(Spread(hostMap, x, bytes)));
    }

    // Marks the frame dirty, and then notifies the device if it was clean. Such a frame must just have been announced.
    method MarkPhysFrameDirty(frame: nat) returns (changed: bool)
      requires Valid() && frame < NUM_PAGES
      requires frameIsClean[frame] ==> log != [] && Announces(log[|log| - 1], MarkedDirty(frame))
      modifies this`log, frameIsClean
      ensures Valid() && Now() == Dirtied(old(Now()), frame) && changed == old(frameIsClean[frame])
    {
      hide Coherent, Recorded, Announces;
      ghost var m := Now();
      changed := frameIsClean[frame];
      frameIsClean[frame] := false;
      if changed {
        DirtiedKeepsInv(m, frame);
        log := log + [MarkedDirty(frame)] + [Notified(frame)];
        assert frameIsClean[..] == CleanStep(m.clean, MarkedDirty(frame));
      } else {
        assert frameIsClean[..] == m.clean;
      }
    }

    // Writes to RAM without touching the linear region. The bytes must just have been announced.
    method StorePhysical(addr: nat, bytes: seq<Byte>)
      requires Valid() && addr + |bytes| <= ram.Length
      requires log != [] && Announces(log[|log| - 1], Stored(Span(addr, bytes)))
      modifies this`log, ram
      ensures Valid() && Now() == Happened(old(Now()), Stored(Span(addr, bytes)))
    {
      hide Coherent, Recorded, Announces;
      ghost var m := Now();
      assert ram[..] == Overlaid(m.ram, Span(addr, bytes[..0]));
      for i := 0 to |bytes|
        invariant ram[..] == Overlaid(m.ram, Span(addr, bytes[..i]))
        invariant log == m.log
      {
        ghost var before := ram[..];
        ram[addr + i] := bytes[i];
        assert ram[..] == before[addr + i := bytes[i]];
      }
      assert bytes[..|bytes|] == bytes;
      HappenedKeepsInv(m, Stored(Span(addr, bytes)));
      log := log + [Stored(Span(addr, bytes))];
    }

    // Asks the device whether a write to a clean frame may mark it dirty.
    method Advise(a: ResolvedAccess, n: nat, advise: (nat, nat) -> Advice) returns (r: Advice)
      requires Valid()
      modifies this`log
      ensures Valid() && r == advise(a.physAddr, n) && Now() == Happened(old(Now()), Advised(a.physAddr, n, r))
    {
      hide Coherent, Recorded;
      ghost var m := Now();
      r := advise(a.physAddr, n);
      QuietEvent(m, Advised(a.physAddr, n, r), advise);
      log := log + [Advised(a.physAddr, n, r)];
    }

    ghost method Log(e: Event)
      requires Valid() && (e.ToDevice? || e.Dropped?)
      modifies this`log
      ensures Valid() && Now() == Happened(old(Now()), e)
    {
      hide Coherent, Recorded;
      QuietEvent(Now(), e, (_, _) => DirtyOk);
      log := log + [e];
    }

    // True: the write has been taken care of. False: the page is now mapped and the write can be made there.
    method HandleTrappedLinearMemoryWrite(a: ResolvedAccess, bytes: seq<Byte>, advise: (nat, nat) -> Advice)
      returns (done: bool)
      requires Valid() && WriteReady(Now(), a) && a.physAddr % PAGE_SIZE + |bytes| <= PAGE_SIZE
      modifies this, ram, frameIsClean, metadata.entries, metadata.modified
      ensures Valid() && (done, Now()) == TrappedWrite(old(Now()), a, bytes, advise)
    {
      hide Coherent, Mirrored, Recorded, Announces, Span, RamStep, CleanStep;
      if a.Frame() in devices {
        Log(ToDevice(a.physAddr, bytes));
        return true;
      }
      if a.physAddr >= ram.Length {
        Log(Dropped(a.physAddr, bytes));
        return true;
      }
      if a.needsDirtyMark {
        var advice := Advise(a, |bytes|, advise);
        if advice == DoNotMark {
          SpanAnnounced(a, bytes);
          StorePhysical(a.physAddr, bytes);
          return true;
        }
        AdviceAnnouncesMark(a, |bytes|);
        var _ := MarkPhysFrameDirty(a.Frame());
      }
      InstallMapping(a);
      return false;
    }

    // ----- Writes

    predicate ShouldTrapLinearAccess(x: nat, isWrite: bool, isUser: bool)
      requires x / PAGE_SIZE < metadata.entries.Length
      reads metadata.entries
    {
      ShouldTrap(metadata.GetForAddress(x), MetadataTest(isWrite, isUser))
    }

    // One page of a prepared write: nothing to do if it does not trap.
    method PreparePage(x: nat, isUser: bool) returns (r: Option<Resolution>)
      requires Valid() && x < MAX_RAM
      modifies ram
      ensures Valid() && Now() == old(Now()).(ram := ram[..])
      ensures Walked(old(Now()), Access(x, 1, true, isUser), ram[..])
      ensures r.None? <==> !old(TrapsAt(Now(), x, true, isUser))
      ensures r.None? ==> ram[..] == old(ram[..])
      ensures r.Some? ==> (r.value, ram[..]) == Resolve(old(ram[..]), frameIsClean[..], control, x, true, isUser)
      ensures (r.Some? ==> r.value.Resolved?) ==> Memory.Ready(Now(), AccessIn(r), x, isUser)
      ensures r.Some? && r.value.Resolved? ==>
                AccessFrom(old(Now()), ram[..], r.value.access, x, Access(x, 1, true, isUser))
      ensures Aligned(control.paging) ==>
                && (r.Some? && r.value.PageFault? <==> old(DeniedAt(Now(), x, true, isUser)))
                && (r.Some? && r.value.PageFault? ==>
                      r.value.addr == x && FaultFits(old(Now()), r.value.code, x, true, isUser))
                && (r.Some? && r.value.HostFailure? <==> old(FailsAt(Now(), x, true, isUser)))
      ensures r.Some? ==> EndsIn(old(Now()), Access(x, 1, true, isUser), r.value)
    {
      hide Resolve, Walked, Denies, Fails, EndsIn, Physical, LeafDirty, UserAllowed;
      ghost var m := Now();
      ghost var k := Access(x, 1, true, isUser);
      WalkedRefl(m, k);
      r := None;
      if ShouldTrapLinearAccess(x, true, isUser) {
        var resolution := ResolveAccessAddress(x, true, isUser);
        r := Some(resolution);
        ResolveIsProper(m.ram, m.clean, control, x, true, isUser);
        WalkedOnce(m, k, x);
        EndsAtOnce(m, x, k);
        ResolveFailsExactly(m.ram, m.clean, control, x, true, isUser);
        if resolution.Resolved? {
          ResolvedFirst(m, ram[..], resolution.access, x, k);
        }
        if Aligned(control.paging) {
          ResolveFollowsTranslation(m.ram, m.clean, control, x, true, isUser);
        }
      }
      RamKeepsInv(m, ram[..]);
    }

    // Resolves every trapped page of a write before any of it is made.
    method PrepareWrite(x: nat, isUser: bool, val: seq<Byte>) returns (r: PrepareResult)
      requires Valid() && IsWidth(|val|) && x + |val| <= MAX_RAM
      modifies ram
      ensures Valid() && Now() == old(Now()).(ram := ram[..])
      ensures Walked(old(Now()), Access(x, |val|, true, isUser), ram[..])
      ensures r.Ready? ==>
                && r.write.val == val && r.write.addr == x && Prepared(Now(), r.write, isUser)
                && MatchesTraps(old(Now()), r.write, isUser) && Resolves(old(Now()), ram[..], r.write, isUser)
      ensures Aligned(control.paging) ==>
                && (r.NotReady? ==> WriteFits(old(Now()), x, |val|, isUser, r.result))
                && (r.Ready? ==>
                      !WriteStops(old(Now()), x, |val|, isUser) && MatchesPhysical(old(Now()), r.write, isUser))
      ensures r.NotReady? ==>
                !r.result.Done? && WriteEndsIn(old(Now()), Access(x, |val|, true, isUser), r.result)
    {
      hide DeniedAt, FailsAt, FaultFits, Coherent, Mirrored, Recorded, Aligned, AccessFrom, Resolve, Walked;
      hide MatchesPhysical, Resolves, EndsIn, WriteFits, TrapsAt, Prepared, MatchesTraps, Memory.Ready;
      ghost var m := Now();
      ghost var k := Access(x, |val|, true, isUser);
      var first := PreparePage(x, isUser);
      ghost var s := Now();
      WalkedWider(m, Access(x, 1, true, isUser), k, s.ram);
      if first.Some? && !first.value.Resolved? {
        EndsWider(m, Access(x, 1, true, isUser), k, first.value);
        if Aligned(control.paging) { StoppedFirst(m, x, |val|, isUser, first.value); }
        return NotReady(Failed(first.value));
      }
      var a := AccessIn(first);
      if x % PAGE_SIZE + |val| - 1 < PAGE_SIZE {
        r := Ready(PreparedWrite(false, a, None, val, x));
        ReadyIsPrepared(m, s, s, r.write, isUser);
        FirstResolves(m, ram[..], r.write, isUser);
        ResolvesMatch(m, ram[..], r.write, isUser);
        return;
      }
      var next := NextPage(x);
      var second := PreparePage(next, isUser);
      SecondWalk(m, s, ram[..], x, |val|, isUser);
      if second.Some? && !second.value.Resolved? {
        SecondEndsIn(m, s, x, |val|, isUser, second.value);
        if Aligned(control.paging) { StoppedSecond(m, x, |val|, isUser, second.value); }
        return NotReady(Failed(second.value));
      }
      var b := AccessIn(second);
      r := Ready(PreparedWrite(true, a, b, val, x));
      ReadyIsPrepared(m, s, Now(), r.write, isUser);
      SecondFollowsFirst(m, s, ram[..], r.write, isUser);
      ResolvesMatch(m, ram[..], r.write, isUser);
    }

    // Writes bytes at x within one page, handling the trap of access r moved on by k if there is one.
    method WritePart(r: Option<ResolvedAccess>, k: nat, x: nat, bytes: seq<Byte>, ghost isUser: bool,
                     advise: (nat, nat) -> Advice)
      requires Valid() && x < MAX_RAM && PartReady(Now(), r, k, x, |bytes|, isUser)
      modifies this, ram, frameIsClean, metadata.entries, metadata.modified
      ensures Valid() && Now() == PartAfter(old(Now()), r, k, x, bytes, advise)
    {
      hide Coherent, Mirrored, Recorded, TrappedWrite, Spread, RamStep, CleanStep;
      if r.Some? {
        var a := r.value.WithOffset(k);
        PartMaps(Now(), r.value, k, x, bytes, isUser, advise);
        var done := HandleTrappedLinearMemoryWrite(a, bytes, advise);
        if done {
          return;
        }
      } else {
        OnePageUntrapped(Now(), x, |bytes|, true, isUser);
      }
      WriteUnchecked(x, bytes, isUser);
    }

    // Makes a prepared write, byte by byte if it spans two pages. Nothing may have changed since it was prepared.
    method ExecutePreparedWrite(w: PreparedWrite, ghost isUser: bool, advise: (nat, nat) -> Advice)
      requires Valid() && Prepared(Now(), w, isUser)
      modifies this, ram, frameIsClean, metadata.entries, metadata.modified
      ensures Valid() && Now() == Executed(old(Now()), w, advise)
      ensures AllMade(old(Now()), Now(), w, isUser, advise) && control == old(control) && devices == old(devices)
    {
      hide Inv, Prepared, Sizes, PartReady, PartAfter, InRange, PartOf, MovedBy, Progress, AllMade;
      ghost var m := Now();
      SizesOf(m);
      PreparedWithin(m, w, isUser);
      ExecutedIsMade(m, w, isUser, advise);
      MadeIsTraced(m, Executed(m, w, advise), w, isUser, advise);
      if w.split {
        for n := 0 to |w.val|
          invariant Valid() && Now() == StepsAfter(m, w, n, advise)
        {
          StepsProgress(m, w, n, isUser, advise);
          AlreadyReady(m, Now(), w, n, isUser, advise);
          BeforeStep(Now(), w, n, isUser);
          WritePart(PartOf(w, n), n, w.addr + n, [w.val[n]], isUser, advise);
        }
      } else {
        BeforeStep(m, w, 0, isUser);
        WritePart(w.first, 0, w.addr, w.val, isUser, advise);
      }
    }

    method WriteSlow(x: nat, isUser: bool, val: seq<Byte>, advise: (nat, nat) -> Advice) returns (r: WriteResult)
      requires Valid() && IsWidth(|val|) && x + |val| <= MAX_RAM
      modifies this, ram, frameIsClean, metadata.entries, metadata.modified
      ensures Valid() && control == old(control) && devices == old(devices)
      ensures WriteOutcome(old(Now()), Now(), x, val, isUser, advise, r)
    {
      hide Inv, TrapsAt, Untrapped, WriteOutcome, Happened, Prepared, Walked, MatchesTraps, MatchesPhysical, Resolves;
      hide AllMade, Executed;
      ghost var m := Now();
      SizesOf(m);
      if !TrapsHere(x, true, isUser) && !TrapsHere(x + |val| - 1, true, isUser) {
        EndsUntrapped(m, x, |val|, true, isUser);
        WriteUnchecked(x, val, isUser);
        OutcomeUntrapped(m, Now(), x, val, isUser, advise);
        return Done;
      }
      var prepared := PrepareWrite(x, isUser, val);
      ghost var p := Now();
      if prepared.NotReady? {
        OutcomeUnprepared(m, p, x, val, isUser, advise, prepared.result);
        return prepared.result;
      }
      ExecutePreparedWrite(prepared.write, isUser, advise);
      OutcomePrepared(m, p, prepared.write, isUser, advise);
      return Done;
    }

    predicate TrapsHere(x: nat, isWrite: bool, isUser: bool)
      requires metadata.entries.Length == NUM_PAGES && x < MAX_RAM && frameIsClean.Length == NUM_PAGES
      reads this, ram, frameIsClean, metadata.entries
      ensures TrapsHere(x, isWrite, isUser) <==> TrapsAt(Now(), x, isWrite, isUser)
    {
      ShouldTrapLinearAccess(x, isWrite, isUser)
    }

    method Write(x: nat, isUser: bool, val: seq<Byte>, advise: (nat, nat) -> Advice) returns (r: WriteResult)
      requires Valid() && IsWidth(|val|) && x + |val| <= MAX_RAM
      modifies this, ram, frameIsClean, metadata.entries, metadata.modified
      ensures Valid() && control == old(control) && devices == old(devices)
      ensures WriteOutcome(old(Now()), Now(), x, val, isUser, advise, r)
      ensures Aligned(control.paging) ==> WriteAgrees(old(Now()), Now(), Access(x, |val|, true, isUser), advise)
      ensures Aligned(control.paging) && r.Done? ==>
                (OpensNone(old(Now()), Now()) <==> !old(WriteOpens(Now(), x, |val|, isUser, advise)))
    {
      hide Inv, TrapsAt, Untrapped, WriteOutcome, Happened, WriteAgrees, OpensNone, WriteOpens;
      ghost var m := Now();
      SizesOf(m);
      if MultibyteAccessCanUseFastPath(x, |val|, true, isUser) {
        WriteUnchecked(x, val, isUser);
        OutcomeUntrapped(m, Now(), x, val, isUser, advise);
        r := Done;
      } else {
        r := WriteSlow(x, isUser, val, advise);
      }
      SizesOf(Now());
      WritesAgree(m, Now(), x, val, isUser, advise, r);
      if Aligned(control.paging) && r.Done? {
        WriteOpensExactly(m, Now(), x, val, isUser, advise);
      }
    }

    predicate MultibyteAccessCanUseFastPath(x: nat, n: nat, isWrite: bool, isUser: bool)
      requires metadata.entries.Length == NUM_PAGES && IsWidth(n) && x + n <= MAX_RAM
      requires frameIsClean.Length == NUM_PAGES
      reads this, ram, frameIsClean, metadata.entries
      ensures MultibyteAccessCanUseFastPath(x, n, isWrite, isUser) <==> Untrapped(Now(), x, n, isWrite, isUser)
    {
      EndsIfUntrapped(Now(), x, n, isWrite, isUser);
      !TrapsHere(x, isWrite, isUser) && (x % n == 0 || !TrapsHere(x + n - 1, isWrite, isUser))
    }

    // ----- Reads

    // Reads through the host mapping.
    method ReadUnchecked(x: nat, n: nat, ghost isUser: bool) returns (bytes: seq<Byte>)
      requires Valid() && x + n <= MAX_RAM && Untrapped(Now(), x, n, false, isUser)
      ensures bytes == HostBytes(Now(), x, n)
    {
      hide Coherent, Mirrored, Recorded, ShouldTrap;
      bytes := [];
      for i := 0 to n
        invariant |bytes| == i && bytes == HostBytes(Now(), x, n)[..i]
      {
        assert !TrapsAt(Now(), x + i, false, isUser);
        UntrappedTarget(Now(), x + i, false, isUser);
        bytes := bytes + [ram[hostMap[(x + i) / PAGE_SIZE] * PAGE_SIZE + (x + i) % PAGE_SIZE]];
      }
    }

    // answer: what a device delivers for these bytes, if one is asked.
    method Read(x: nat, n: nat, isUser: bool, answer: seq<Byte>) returns (r: ReadResult)
      requires Valid() && IsWidth(n) && x + n <= MAX_RAM && |answer| == n
      modifies this, ram, metadata.entries, metadata.modified
      ensures Valid() && ReadOutcome(old(Now()), Now(), x, answer, isUser, r)
      ensures old(Aligned(control.paging)) ==> ReadAgrees(old(Now()), Now(), isUser)
      ensures old(Aligned(control.paging)) && r.Value? ==>
                (OpensNone(old(Now()), Now()) <==> !old(ReadOpens(Now(), x, n, isUser)))
      decreases n, 2
    {
      hide Inv, Untrapped, HostBytes, ReadOutcome, ReadAgrees, OpensNone, ReadOpens;
      ghost var m := Now();
      SizesOf(m);
      if MultibyteAccessCanUseFastPath(x, n, false, isUser) {
        UntrappedRead(m, x, answer, isUser);
        var bytes := ReadUnchecked(x, n, isUser);
        r := Value(bytes);
      } else {
        r := ReadSlow(x, n, isUser, answer);
      }
      SizesOf(Now());
      ReadsAgree(m, Now(), x, answer, isUser, r);
      if Aligned(m.control.paging) {
        ReadOpensExactly(m, Now(), x, answer, isUser, r);
      }
    }

    method ReadSlow(x: nat, n: nat, isUser: bool, answer: seq<Byte>) returns (r: ReadResult)
      requires Valid() && IsWidth(n) && x + n <= MAX_RAM && |answer| == n
      modifies this, ram, metadata.entries, metadata.modified
      ensures Valid() && ReadOutcome(old(Now()), Now(), x, answer, isUser, r)
      decreases n, 1
    {
      hide Inv, Untrapped, HostBytes, ReadOutcome, TrapsAt;
      SizesOf(Now());
      if !TrapsHere(x, false, isUser) && !TrapsHere(x + n - 1, false, isUser) {
        EndsUntrapped(Now(), x, n, false, isUser);
        UntrappedRead(Now(), x, answer, isUser);
        var bytes := ReadUnchecked(x, n, isUser);
        return Value(bytes);
      }
      if x % PAGE_SIZE + n - 1 < PAGE_SIZE {
        r := ReadPage(x, n, isUser, answer);
      } else {
        TrappedEnds(Now(), x, n, false, isUser);
        r := ReadSlice(x, n, isUser, answer);
      }
    }

    // A trapped read within one page is resolved in one go.
    method ReadPage(x: nat, n: nat, isUser: bool, answer: seq<Byte>) returns (r: ReadResult)
      requires Valid() && IsWidth(n) && x + n <= MAX_RAM && |answer| == n
      requires !Crosses(x, n) && TrapsAt(Now(), x, false, isUser)
      modifies this, ram, metadata.entries, metadata.modified
      ensures Valid() && ReadOutcome(old(Now()), Now(), x, answer, isUser, r)
    {
      hide Coherent, Mirrored, Recorded, HostBytes, ReadOutcome, TrapsAt, Resolve, Denies, Fails, Physical, Walked;
      hide LeafDirty, UserAllowed, EndsIn;
      ghost var m := Now();
      var resolution := ResolveAccessAddress(x, false, isUser);
      ghost var p := Now();
      ResolveIsProper(m.ram, m.clean, control, x, false, isUser);
      WalkedOnce(m, ReadOf(x, n, isUser), x);
      EndsAtOnce(m, x, ReadOf(x, n, isUser));
      ResolveFailsExactly(m.ram, m.clean, control, x, false, isUser);
      RamKeepsInv(m, ram[..]);
      assert p == m.(ram := p.ram);
      if !resolution.Resolved? {
        if Aligned(control.paging) {
          ResolveFollowsTranslation(m.ram, m.clean, control, x, false, isUser);
        }
        r := if resolution.PageFault? then ReadFault(resolution.code, resolution.addr) else ReadFailure;
        FaultingRead(m, p, x, answer, isUser, r);
        return;
      }
      var a := resolution.access;
      var done := HandleTrappedLinearMemoryRead(a, n, answer);
      if done.Some? {
        r := Value(done.value);
      } else {
        InstalledIsReadable(p, Now(), a, x, isUser);
        OnePageUntrapped(Now(), x, n, false, isUser);
        var bytes := ReadUnchecked(x, n, isUser);
        r := Value(bytes);
      }
      ReadOfPage(m, p, Now(), a, x, answer, isUser, r);
    }

    // Byte by byte; the bytes before a fault have been read.
    method ReadSlice(x: nat, n: nat, isUser: bool, answer: seq<Byte>) returns (r: ReadResult)
      requires Valid() && IsWidth(n) && x + n <= MAX_RAM && |answer| == n && Crosses(x, n)
      requires !Untrapped(Now(), x, n, false, isUser)
      modifies this, ram, metadata.entries, metadata.modified
      ensures Valid() && ReadOutcome(old(Now()), Now(), x, answer, isUser, r)
      decreases n, 0
    {
      hide Inv, Untrapped, HostBytes, OnlyReads, BytesDelivered, ByteDelivered, ReadOutcome, ReadAgrees, OpensNone;
      hide ReadOpens;
      ghost var m := Now();
      SizesOf(m);
      var bytes := [];
      ghost var k := ReadOf(x, n, isUser);
      StartSlice(m, x, k, answer);
      for i := 0 to n
        invariant Valid() && |Now().meta| == NUM_PAGES && |bytes| == i
        invariant OnlyReads(m, Now(), k) && BytesDelivered(m, Now(), x, k, bytes, answer)
      {
        ghost var before := Now();
        var b := Read(x + i, 1, isUser, [answer[i]]);
        SizesOf(Now());
        OneByteRead(m, before, Now(), x, i, k, b, answer[i]);
        if !b.Value? {
          SliceFault(m, before, Now(), x, answer, isUser, bytes, b);
          return b;
        }
        SliceStep(m, before, Now(), x, i, k, bytes, b.bytes[0], answer);
        assert b.bytes == [b.bytes[0]];
        bytes := bytes + b.bytes;
      }
      SliceDone(m, Now(), x, answer, isUser, bytes);
      return Value(bytes);
    }

    // What was written is read back, also across a page boundary, unless a device took part of it, memory was missing,
    // or a frame was to stay clean. Whether that is so the history tells, for every base; with an aligned one
    // translation tells beforehand.
    method ReadBack(x: nat, isUser: bool, val: seq<Byte>, advise: (nat, nat) -> Advice, answer: seq<Byte>)
      returns (w: WriteResult, r: ReadResult)
      requires Valid() && IsWidth(|val|) && x + |val| <= MAX_RAM && |answer| == |val|
      modifies this, ram, frameIsClean, metadata.entries, metadata.modified
      ensures Valid() && old(log) <= log
      ensures w.Done? && HeldNothingBack(log[|old(log)|..]) ==> r == Value(val)
      ensures w.Done? && old(GoesThrough(Now(), x, |val|, isUser, advise)) ==> r == Value(val)
    {
      hide Inv, ReadOutcome, WriteOutcome, ByteHeld, HeldNothingBack, GoesThrough, WriteAgrees, ReadAgrees;
      hide OpensNone, WriteOpens, ReadOpens;
      ghost var m := Now();
      SizesOf(m);
      w := Write(x, isUser, val, advise);
      ghost var t := Now();
      SizesOf(t);
      WriteIsLogged(m, t, x, val, isUser, advise, w);
      r := Read(x, |val|, isUser, answer);
      SizesOf(Now());
      ReadIsUnlogged(t, Now(), x, answer, isUser, r);
      if w.Done? {
        HeldByHistory(m, t, x, val, isUser, advise);
        HeldByTranslation(m, t, x, val, isUser, advise);
        if forall n: nat :: n < |val| ==> ByteHeld(t, x + n, val[n], isUser) {
          ReadBackAfterWrite(t, Now(), x, val, answer, isUser, r);
        }
      }
    }
  }

  lemma SpreadOfNothing(host: map<nat, nat>, ram: seq<Byte>, x: nat)
    ensures Overlaid(ram, Spread(host, x, [])) == ram
  {
  }

  lemma EndsIfUntrapped(m: Machine, x: nat, n: nat, isWrite: bool, isUser: bool)
    requires |m.meta| == NUM_PAGES && IsWidth(n) && x + n <= MAX_RAM
    ensures !TrapsAt(m, x, isWrite, isUser) && (x % n == 0 || !TrapsAt(m, x + n - 1, isWrite, isUser)) <==>
            Untrapped(m, x, n, isWrite, isUser)
  {
    if !TrapsAt(m, x, isWrite, isUser) && (x % n == 0 || !TrapsAt(m, x + n - 1, isWrite, isUser)) {
      EndsUntrapped(m, x, n, isWrite, isUser);
    } else {
      TrappedEnds(m, x, n, isWrite, isUser);
    }
  }

  predicate Between(first: nat, f: nat, end: nat) { first <= f < end }

  function MapFrames(devices: map<nat, nat>, first: nat, end: nat, id: Option<nat>): (d: map<nat, nat>)
    ensures forall f: nat :: if Between(first, f, end) then (f in d <==> id.Some?) && (f in d ==> d[f] == id.value)
                             else (f in d <==> f in devices) && (f in d ==> d[f] == devices[f])
  {
    var kept := map f | f in devices && !Between(first, f, end) :: devices[f];
    if id.Some? then kept + map f: nat | first <= f < end && Between(first, f, end) :: id.value else kept
  }

  lemma DevicesKeepInv(m: Machine, devices: map<nat, nat>)
    requires Inv(m)
    ensures Inv(m.(devices := devices))
  {
    hide Announced, CleanAfter;
    var t := m.(devices := devices);
    assert forall p: nat :: p < NUM_PAGES && Hit(m, p) ==> Hit(t, p);
  }
}
