/** Reads: what they map, what they deliver, and how the bytes of one that crosses a page add up. */
module Reads {
  import opened Accesses
  import opened Bytes
  import opened Memory
  import opened Metadata
  import opened Options
  import opened PageTables
  import opened Writes

  datatype ReadResult = Value(bytes: seq<Byte>) | ReadFault(code: FaultCode, addr: nat) | ReadFailure

  // ----- How a read ends, judged before it is made

  ghost predicate NeverStops(m: Machine, x: nat, n: nat, isUser: bool)
    requires |m.meta| == NUM_PAGES && x + n <= MAX_RAM
  {
    forall y: nat :: x <= y < x + n ==> !StopsAt(m, y, false, isUser)
  }

  // The read gets no further than address a.
  ghost predicate StopsFirst(m: Machine, x: nat, n: nat, isUser: bool, a: nat)
    requires |m.meta| == NUM_PAGES && x + n <= MAX_RAM
  {
    && x <= a < x + n && StopsAt(m, a, false, isUser)
    && forall y: nat :: x <= y < a ==> !StopsAt(m, y, false, isUser)
  }

  // The first byte that stops the read is denied.
  ghost predicate StopsDenied(m: Machine, x: nat, n: nat, isUser: bool)
    requires |m.meta| == NUM_PAGES && x + n <= MAX_RAM
  {
    exists a: nat :: StopsFirst(m, x, n, isUser, a) && DeniedAt(m, a, false, isUser)
  }

  // The first byte that stops it is out of range.
  ghost predicate StopsFailing(m: Machine, x: nat, n: nat, isUser: bool)
    requires |m.meta| == NUM_PAGES && x + n <= MAX_RAM
  {
    exists a: nat :: StopsFirst(m, x, n, isUser, a) && FailsAt(m, a, false, isUser)
  }

  // The read delivers exactly if no byte stops it, and faults, at the first byte that does, exactly if that is denied.
  ghost predicate ReadFits(m: Machine, x: nat, n: nat, isUser: bool, r: ReadResult)
    requires |m.meta| == NUM_PAGES && x + n <= MAX_RAM
  {
    && (r.Value? <==> NeverStops(m, x, n, isUser))
    && (r.ReadFault? <==> StopsDenied(m, x, n, isUser))
    && (r.ReadFailure? <==> StopsFailing(m, x, n, isUser))
    && (r.ReadFault? ==> StopsFirst(m, x, n, isUser, r.addr) && FaultFits(m, r.code, r.addr, false, isUser))
  }

  lemma ValueFits(m: Machine, x: nat, n: nat, isUser: bool, r: ReadResult)
    requires |m.meta| == NUM_PAGES && x + n <= MAX_RAM && r.Value? && NeverStops(m, x, n, isUser)
    ensures ReadFits(m, x, n, isUser, r)
  {
    hide DeniedAt, FailsAt;
  }

  lemma StopFits(m: Machine, x: nat, n: nat, isUser: bool, r: ReadResult, a: nat)
    requires |m.meta| == NUM_PAGES && x + n <= MAX_RAM && !r.Value?
    requires x <= a < x + n && forall y: nat :: x <= y < a ==> !StopsAt(m, y, false, isUser)
    requires StopFitsAt(m, a, isUser, r)
    ensures ReadFits(m, x, n, isUser, r)
  {
    hide Denies, Fails, Physical, ShouldTrap;
    assert StopsFirst(m, x, n, isUser, a);
    if b: nat :| StopsFirst(m, x, n, isUser, b) && DeniedAt(m, b, false, isUser) { assert b == a; }
    if b: nat :| StopsFirst(m, x, n, isUser, b) && FailsAt(m, b, false, isUser) { assert b == a; }
    DeniedOrFails(m, a, false, isUser);
  }

  // r is what stops a read at a.
  ghost predicate StopFitsAt(m: Machine, a: nat, isUser: bool, r: ReadResult)
    requires |m.meta| == NUM_PAGES && a < MAX_RAM
  {
    && (r.ReadFault? ==> r.addr == a && FaultFits(m, r.code, a, false, isUser))
    && (r.ReadFailure? ==> FailsAt(m, a, false, isUser))
  }

  // Whatever the base, if the read does not deliver then one of its walks ended in this way.
  ghost predicate ReadEndsIn(m: Machine, k: Access, r: ReadResult)
    requires |m.meta| == |m.clean| == NUM_PAGES
  {
    && (r.ReadFault? ==> EndsIn(m, k, PageFault(r.code, r.addr)))
    && (r.ReadFailure? ==> EndsIn(m, k, HostFailure))
  }

  // ----- Pages and bytes

  function ReadOf(x: nat, n: nat, isUser: bool): Access {
    Access(x, n, false, isUser)
  }

  // A trapped page has been mapped by what was resolved for an address of the read in it.
  ghost predicate PageResolved(m: Machine, t: Machine, p: nat, k: Access)
    requires |m.meta| == |m.clean| == |t.meta| == NUM_PAGES && p < NUM_PAGES
  {
    Traps(m, p, false, k.isUser) && !Traps(t, p, false, k.isUser) && PageMapped(m, t.ram, t, p, k)
  }

  ghost predicate PageRead(m: Machine, t: Machine, p: nat, k: Access)
    requires |m.meta| == |m.clean| == |t.meta| == NUM_PAGES && p < NUM_PAGES
  {
    PageKept(m, t, p) || PageResolved(m, t, p, k)
  }

  // Whatever the base of the tables, read k changes trapped pages only, and RAM only as its walks do.
  ghost predicate OnlyReads(m: Machine, t: Machine, k: Access)
    requires |m.meta| == |m.clean| == |t.meta| == NUM_PAGES
  {
    && t.control == m.control && t.devices == m.devices && t.clean == m.clean && t.log == m.log
    && Walked(m, k, t.ram) && forall p: nat :: p < NUM_PAGES ==> PageRead(m, t, p, k)
  }

  lemma ReadPagesAgree(m: Machine, t: Machine, k: Access)
    requires |m.meta| == |m.clean| == |t.meta| == NUM_PAGES && OnlyReads(m, t, k) && !k.isWrite
    ensures PagesAgree(m, t.ram, t, k)
  {
    hide PageMapped, ShouldTrap, Walked;
    forall p: nat | p < NUM_PAGES && !PageKept(m, t, p)
      ensures Traps(m, p, k.isWrite, k.isUser) && PageMapped(m, t.ram, t, p, k)
    {
      assert PageRead(m, t, p, k);
    }
  }

  // What is read at y if RAM does not back it: the device's answer, or ones where there is no memory.
  function Unbacked(m: Machine, y: nat, answer: Byte): Byte {
    var p := Physical(m.control, m.ram, y);
    if p.Some? && p.value / PAGE_SIZE in m.devices then answer else 0xff
  }

  // All bytes of a page are backed alike.
  lemma PagewiseBacking(m: Machine, x: nat, y: nat, isWrite: bool, isUser: bool)
    requires |m.meta| == NUM_PAGES && x < MAX_RAM && y < MAX_RAM && x / PAGE_SIZE == y / PAGE_SIZE
    requires |m.ram| % PAGE_SIZE == 0
    ensures Backed(m, x, isWrite, isUser) == Backed(m, y, isWrite, isUser)
    ensures forall answer: Byte :: Unbacked(m, x, answer) == Unbacked(m, y, answer)
  {
    hide Physical, ShouldTrap;
    PhysicalIsPagewise(m.control, m.ram, x, y);
    if Physical(m.control, m.ram, x).Some? {
      SameFrame(Physical(m.control, m.ram, x).value, x, Physical(m.control, m.ram, y).value, y, |m.ram|) by {
        PhysicalOffset(m.control, m.ram, x);
        PhysicalOffset(m.control, m.ram, y);
      }
    }
  }

  lemma PhysicalOffset(control: Control, ram: seq<Byte>, x: nat)
    ensures Physical(control, ram, x).Some? ==> Physical(control, ram, x).value % PAGE_SIZE == x % PAGE_SIZE
  {
    TranslationIsPagewise(control.paging, ram, x);
    TranslationOffset(control.paging, ram, x);
    hide Translate;
  }

  lemma SameFrame(a: nat, x: nat, b: nat, y: nat, size: nat)
    requires a % PAGE_SIZE == x % PAGE_SIZE && b % PAGE_SIZE == y % PAGE_SIZE && size % PAGE_SIZE == 0
    requires b - y % PAGE_SIZE == a - x % PAGE_SIZE
    ensures a / PAGE_SIZE == b / PAGE_SIZE && (a < size <==> b < size)
  {
    assert a == a / PAGE_SIZE * PAGE_SIZE + a % PAGE_SIZE && b == b / PAGE_SIZE * PAGE_SIZE + b % PAGE_SIZE;
    assert size == size / PAGE_SIZE * PAGE_SIZE;
  }

  lemma OnlyReadsRefl(m: Machine, k: Access)
    requires |m.meta| == |m.clean| == NUM_PAGES
    ensures OnlyReads(m, m, k)
  {
    hide Walked, PageResolved;
    WalkedRefl(m, k);
  }

  lemma SameControl(m0: Machine, m: Machine, k: Access)
    requires |m0.meta| == |m.meta| == |m0.clean| == NUM_PAGES && OnlyReads(m0, m, k)
    ensures m.control == m0.control && m.clean == m0.clean && |m.ram| == |m0.ram|
  {
    hide Walked, PageRead;
    WalkedLength(m0, k, m.ram);
  }

  lemma OnlyReadsTrans(m0: Machine, m: Machine, t: Machine, k: Access)
    requires |m0.meta| == |m.meta| == |t.meta| == |m0.clean| == |m.clean| == NUM_PAGES
    requires OnlyReads(m0, m, k) && OnlyReads(m, t, k)
    ensures OnlyReads(m0, t, k)
  {
    hide Walked, PageRead;
    WalkedTrans(m0, m, k, t.ram);
    forall p: nat | p < NUM_PAGES ensures PageRead(m0, t, p, k) {
      assert PageRead(m0, m, p, k) && PageRead(m, t, p, k);
      PageReadTrans(m0, m, t, p, k);
    }
  }

  lemma PageReadTrans(m0: Machine, m: Machine, t: Machine, p: nat, k: Access)
    requires |m0.meta| == |m.meta| == |t.meta| == |m0.clean| == |m.clean| == NUM_PAGES && p < NUM_PAGES
    requires m0.control == m.control && m0.clean == m.clean && m0.devices == m.devices
    requires Walked(m0, k, m.ram) && Walked(m, k, t.ram)
    requires PageRead(m0, m, p, k) && PageRead(m, t, p, k)
    ensures PageRead(m0, t, p, k)
  {
    hide AccessFrom, MetadataBits, ShouldTrap, Walked;
    WalkedLength(m0, k, m.ram);
    if !PageKept(m, t, p) {
      var a: ResolvedAccess :| MappedBy(m, t.ram, t, a, p, k);
      ResolvedBefore(m0, m, t.ram, a, a.emuAddr, k);
      assert MappedBy(m0, t.ram, t, a, p, k);
    } else if !PageKept(m0, m, p) {
      var a: ResolvedAccess :| MappedBy(m0, m.ram, m, a, p, k);
      WalkedElsewhere(m, m0.(ram := m.ram), k, t.ram);
      ResolvedLater(m0, m.ram, t.ram, a, a.emuAddr, k);
      assert MappedBy(m0, t.ram, t, a, p, k);
    }
  }

  // What part of a read did is among what the read may do.
  lemma OnlyReadsWider(m: Machine, t: Machine, k: Access, wide: Access)
    requires |m.meta| == |m.clean| == |t.meta| == NUM_PAGES && OnlyReads(m, t, k) && k.Within(wide)
    ensures OnlyReads(m, t, wide)
  {
    hide AccessFrom, ShouldTrap, Walked, Maps;
    WalkedWider(m, k, wide, t.ram);
    forall p: nat | p < NUM_PAGES ensures PageRead(m, t, p, wide) {
      assert PageRead(m, t, p, k);
      if !PageKept(m, t, p) {
        var a: ResolvedAccess :| MappedBy(m, t.ram, t, a, p, k);
        ResolvedWider(m, t.ram, a, a.emuAddr, k, wide);
        assert MappedBy(m, t.ram, t, a, p, wide);
      }
    }
  }

  // b' is byte b at a, but for marks.
  predicate MarkedByte(c: Paging, a: nat, b: Byte, b': Byte) {
    SameFlags(b, b') && (Aligned(c) ==> SameByte(c, a, b, b'))
  }

  lemma MarkedByteSteps(m: Machine, k: Access, fin: seq<Byte>, a: nat, b: Byte)
    requires |m.clean| == NUM_PAGES && a < |m.ram| <= MAX_RAM && Walked(m, k, fin)
    requires MarkedByte(m.control.paging, a, b, m.ram[a])
    ensures |fin| == |m.ram| && MarkedByte(m.control.paging, a, b, fin[a])
  {
    WalkedMarks(m, k, fin);
    hide Walked;
    assert SameFlags(m.ram[a], fin[a]);
    assert Aligned(m.control.paging) ==> SameByte(m.control.paging, a, m.ram[a], fin[a]);
  }

  // b is what answers an access to y's page that was resolved and that RAM does not back.
  ghost predicate AnsweredBy(m: Machine, t: Machine, y: nat, k: Access, a: ResolvedAccess, b: Byte, answer: Byte)
    requires |m.clean| == NUM_PAGES
  {
    && a.Page() == y / PAGE_SIZE && AccessFrom(m, t.ram, a, a.emuAddr, k)
    && !RamBacked(m, Some(a)) && b == if a.Frame() in m.devices then answer else 0xff
  }

  // Whatever the base, byte b delivered for y is what y is mapped to, but for marks, or it answers such an access.
  ghost predicate ByteDelivered(m: Machine, t: Machine, y: nat, k: Access, b: Byte, answer: Byte)
    requires |m.meta| == |m.clean| == |t.meta| == NUM_PAGES && y < MAX_RAM
  {
    || (&& !TrapsAt(t, y, false, k.isUser) && Target(t.host, y) < |t.ram|
        && MarkedByte(m.control.paging, Target(t.host, y), b, t.ram[Target(t.host, y)]))
    || (TrapsAt(m, y, false, k.isUser) && exists a: ResolvedAccess :: AnsweredBy(m, t, y, k, a, b, answer))
  }

  // A byte delivered earlier is still where it was.
  lemma DeliveredBefore(m0: Machine, m: Machine, t: Machine, y: nat, k: Access, b: Byte, answer: Byte)
    requires |m0.meta| == |m.meta| == |t.meta| == |m0.clean| == |m.clean| == NUM_PAGES && y < MAX_RAM
    requires |m.ram| <= MAX_RAM && OnlyReads(m, t, k) && m.control == m0.control && m.clean == m0.clean
    requires ByteDelivered(m0, m, y, k, b, answer)
    ensures ByteDelivered(m0, t, y, k, b, answer)
  {
    hide AccessFrom, Walked, MarkedByte, ShouldTrap, PageMapped;
    if !TrapsAt(m, y, false, k.isUser) && Target(m.host, y) < |m.ram|
       && MarkedByte(m.control.paging, Target(m.host, y), b, m.ram[Target(m.host, y)]) {
      assert PageRead(m, t, y / PAGE_SIZE, k);
      MarkedByteSteps(m, k, t.ram, Target(m.host, y), b);
    } else {
      var a: ResolvedAccess :| AnsweredBy(m0, m, y, k, a, b, answer);
      WalkedElsewhere(m, m0.(ram := m.ram), k, t.ram);
      ResolvedLater(m0, m.ram, t.ram, a, a.emuAddr, k);
      assert AnsweredBy(m0, t, y, k, a, b, answer);
    }
  }

  // A byte delivered after other reads is delivered as if they had not been made.
  lemma DeliveredAfter(m0: Machine, m: Machine, t: Machine, y: nat, k: Access, b: Byte, answer: Byte)
    requires |m0.meta| == |m.meta| == |t.meta| == |m0.clean| == |m.clean| == NUM_PAGES && y < MAX_RAM
    requires OnlyReads(m0, m, k) && ByteDelivered(m, t, y, k, b, answer)
    ensures ByteDelivered(m0, t, y, k, b, answer)
  {
    hide AccessFrom, MarkedByte, ShouldTrap, PageMapped, Walked;
    WalkedLength(m0, k, m.ram);
    if a: ResolvedAccess :| TrapsAt(m, y, false, k.isUser) && AnsweredBy(m, t, y, k, a, b, answer) {
      assert PageRead(m0, m, y / PAGE_SIZE, k);
      ResolvedBefore(m0, m, t.ram, a, a.emuAddr, k);
      assert AnsweredBy(m0, t, y, k, a, b, answer);
    }
  }

  lemma DeliveredWider(m: Machine, t: Machine, y: nat, k: Access, wide: Access, b: Byte, answer: Byte)
    requires |m.meta| == |m.clean| == |t.meta| == NUM_PAGES && y < MAX_RAM && k.Within(wide)
    requires ByteDelivered(m, t, y, k, b, answer)
    ensures ByteDelivered(m, t, y, wide, b, answer)
  {
    hide AccessFrom, MarkedByte, ShouldTrap, RamBacked;
    if a: ResolvedAccess :| TrapsAt(m, y, false, k.isUser) && AnsweredBy(m, t, y, k, a, b, answer) {
      ResolvedWider(m, t.ram, a, a.emuAddr, k, wide);
      assert AnsweredBy(m, t, y, wide, a, b, answer);
    }
  }

  // Byte b was read at y: translation grants it and is in range; if RAM backs y then y is now mapped at its
  // destination, which holds b up to marks; and if not, b is what the device answers, or ones.
  ghost predicate ByteRead(m: Machine, t: Machine, y: nat, isUser: bool, b: Byte, answer: Byte)
    requires |m.meta| == |t.meta| == NUM_PAGES && y < MAX_RAM
  {
    && !StopsAt(m, y, false, isUser)
    && (!Backed(m, y, false, isUser) ==> b == Unbacked(m, y, answer))
    && (Backed(m, y, false, isUser) ==>
          && !TrapsAt(t, y, false, isUser)
          && Destination(m, y, false, isUser) == Some(Target(t.host, y))
          && Target(t.host, y) < |t.ram|
          && SameByte(m.control.paging, Target(t.host, y), b, t.ram[Target(t.host, y)]))
  }

  // With an aligned base it is the byte that translation calls for.
  lemma DeliveredIsRead(m: Machine, t: Machine, y: nat, k: Access, b: Byte, answer: Byte)
    requires Sizes(m) && |t.meta| == NUM_PAGES && y < MAX_RAM && Aligned(m.control.paging) && !k.isWrite
    requires OnlyReads(m, t, k) && ByteDelivered(m, t, y, k, b, answer)
    ensures ByteRead(m, t, y, k.isUser, b, answer)
  {
    hide Physical, Denies, Fails, ShouldTrap, Walked, SameByte, SameFlags, LeafDirty, UserAllowed, AccessFrom;
    hide PageMapped, Unbacked;
    var p := y / PAGE_SIZE;
    PagewiseDenial(m.control, m.ram, y, false, k.isUser);
    PagewiseFailure(m.control, m.ram, p * PAGE_SIZE, y, false, k.isUser);
    PhysicalIsPagewise(m.control, m.ram, p * PAGE_SIZE, y);
    PagewiseBacking(m, p * PAGE_SIZE, y, false, k.isUser);
    assert PageRead(m, t, p, k);
    if PageResolved(m, t, p, k) { MappedIsInstalled(m, t.ram, t, p, k); }
    if a: ResolvedAccess :| TrapsAt(m, y, false, k.isUser) && AnsweredBy(m, t, y, k, a, b, answer) {
      AnsweredAsTranslated(m, t, y, k, a, b, answer);
    }
  }

  lemma AnsweredAsTranslated(m: Machine, t: Machine, y: nat, k: Access, a: ResolvedAccess, b: Byte, answer: Byte)
    requires Sizes(m) && |t.meta| == NUM_PAGES && y < MAX_RAM && Aligned(m.control.paging) && !k.isWrite
    requires TrapsAt(m, y, false, k.isUser) && AnsweredBy(m, t, y, k, a, b, answer)
    ensures !StopsAt(m, y, false, k.isUser) && !Backed(m, y, false, k.isUser) && b == Unbacked(m, y, answer)
  {
    hide Physical, Denies, Fails, ShouldTrap, LeafDirty, UserAllowed, AccessFrom;
    AccessIsProper(m, t.ram, a, a.emuAddr, k);
    AccessFollows(m, t.ram, a, a.emuAddr, k);
    PagewiseDenial(m.control, m.ram, a.emuAddr, false, k.isUser);
    PagewiseDenial(m.control, m.ram, y, false, k.isUser);
    PagewiseFailure(m.control, m.ram, a.emuAddr, y, false, k.isUser);
    SameTrap(m, a.emuAddr, y, false, k.isUser);
    PagewiseBacking(m, a.emuAddr, y, false, k.isUser);
  }

  // ----- What a read may do

  function Nth(bytes: seq<Byte>, x: nat, y: nat): Byte
    requires x <= y < x + |bytes|
  {
    bytes[y - x]
  }

  ghost predicate BytesDelivered(m: Machine, t: Machine, x: nat, k: Access, bytes: seq<Byte>, answer: seq<Byte>)
    requires |m.meta| == |m.clean| == |t.meta| == NUM_PAGES && x + |bytes| <= MAX_RAM && |bytes| <= |answer|
  {
    forall y: nat :: x <= y < x + |bytes| ==> ByteDelivered(m, t, y, k, Nth(bytes, x, y), Nth(answer, x, y))
  }

  lemma BytesDeliveredAreRead(m: Machine, t: Machine, x: nat, k: Access, bytes: seq<Byte>, answer: seq<Byte>)
    requires Sizes(m) && |t.meta| == NUM_PAGES && x + |bytes| <= MAX_RAM && |bytes| <= |answer|
    requires Aligned(m.control.paging) && !k.isWrite && OnlyReads(m, t, k) && BytesDelivered(m, t, x, k, bytes, answer)
    ensures BytesRead(m, t, x, k.isUser, bytes, answer)
  {
    hide ByteRead, ByteDelivered, OnlyReads;
    forall y: nat | x <= y < x + |bytes| ensures ByteRead(m, t, y, k.isUser, Nth(bytes, x, y), Nth(answer, x, y)) {
      assert ByteDelivered(m, t, y, k, Nth(bytes, x, y), Nth(answer, x, y));
      DeliveredIsRead(m, t, y, k, Nth(bytes, x, y), Nth(answer, x, y));
    }
  }

  ghost predicate BytesRead(m: Machine, t: Machine, x: nat, isUser: bool, bytes: seq<Byte>, answer: seq<Byte>)
    requires |m.meta| == |t.meta| == NUM_PAGES && x + |bytes| <= MAX_RAM && |bytes| <= |answer|
  {
    forall y: nat :: x <= y < x + |bytes| ==> ByteRead(m, t, y, isUser, Nth(bytes, x, y), Nth(answer, x, y))
  }

  // What a read may do. Without a trap it delivers what the host maps. With an aligned base it ends as translation says
  // beforehand, and every byte delivered is the one at its destination, up to marks, or what the device answers for it,
  // or ones.
  ghost predicate ReadOutcome(m: Machine, t: Machine, x: nat, answer: seq<Byte>, isUser: bool, r: ReadResult)
    requires |m.meta| == |m.clean| == |t.meta| == NUM_PAGES && x + |answer| <= MAX_RAM
  {
    var n, k := |answer|, ReadOf(x, |answer|, isUser);
    && OnlyReads(m, t, k)
    && (Untrapped(m, x, n, false, isUser) ==> t == m && r == Value(HostBytes(m, x, n)))
    && (r.Value? ==> |r.bytes| == n && BytesDelivered(m, t, x, k, r.bytes, answer))
    && ReadEndsIn(m, k, r)
    && (r.Value? && !Crosses(x, n) && 0 < n && !TrapsAt(t, x, false, isUser) ==> r.bytes == HostBytes(t, x, n))
    && (Aligned(m.control.paging) ==>
          && ReadFits(m, x, n, isUser, r)
          && (r.Value? ==> BytesRead(m, t, x, isUser, r.bytes, answer)))
  }

  lemma UntrappedRead(m: Machine, x: nat, answer: seq<Byte>, isUser: bool)
    requires Inv(m) && x + |answer| <= MAX_RAM && Untrapped(m, x, |answer|, false, isUser)
    ensures ReadOutcome(m, m, x, answer, isUser, Value(HostBytes(m, x, |answer|)))
  {
    hide Coherent, Mirrored, Recorded, OnlyReads, ShouldTrap, MarkedByte, BytesRead, ReadFits;
    var bytes, k := HostBytes(m, x, |answer|), ReadOf(x, |answer|, isUser);
    OnlyReadsRefl(m, k);
    forall y: nat | x <= y < x + |answer| ensures ByteDelivered(m, m, y, k, Nth(bytes, x, y), Nth(answer, x, y)) {
      assert !TrapsAt(m, y, false, isUser);
      UntrappedTarget(m, y, false, isUser);
      DeliveredAsMapped(m, m, x, y, answer, k);
    }
    if Aligned(m.control.paging) {
      BytesDeliveredAreRead(m, m, x, k, bytes, answer);
      ReadNeverStops(m, m, x, isUser, bytes, answer);
    }
  }

  lemma ReadNeverStops(m: Machine, t: Machine, x: nat, isUser: bool, bytes: seq<Byte>, answer: seq<Byte>)
    requires |m.meta| == |t.meta| == NUM_PAGES && x + |bytes| <= MAX_RAM && |bytes| == |answer|
    requires BytesRead(m, t, x, isUser, bytes, answer)
    ensures ReadFits(m, x, |answer|, isUser, Value(bytes))
  {
    hide StopsAt, Backed, Destination, Unbacked, SameByte, TrapsAt, ReadFits;
    forall y: nat | x <= y < x + |bytes| ensures !StopsAt(m, y, false, isUser) {
      assert ByteRead(m, t, y, isUser, Nth(bytes, x, y), Nth(answer, x, y));
    }
    ValueFits(m, x, |answer|, isUser, Value(bytes));
  }

  lemma DeliveredAsMapped(m: Machine, t: Machine, x: nat, y: nat, answer: seq<Byte>, k: Access)
    requires |m.meta| == |m.clean| == |t.meta| == NUM_PAGES && x <= y < x + |answer| <= MAX_RAM
    requires !TrapsAt(t, y, false, k.isUser) && Target(t.host, y) < |t.ram|
    ensures ByteDelivered(m, t, y, k, Nth(HostBytes(t, x, |answer|), x, y), Nth(answer, x, y))
  {
    hide ShouldTrap;
  }

  // ----- One page

  // A trapped read of a page, resolved to a and then made through the mapping or answered by a device or by nothing.
  ghost predicate ReadBy(m: Machine, p: Machine, t: Machine, a: ResolvedAccess, x: nat, answer: seq<Byte>, isUser: bool,
                         bytes: seq<Byte>)
    requires |t.meta| == NUM_PAGES && x < MAX_RAM && a.Page() < |p.meta|
  {
    if RamBacked(p, Some(a)) then
      Inv(t) && t == Install(p, a) && !TrapsAt(t, x, false, isUser) && bytes == HostBytes(t, x, |answer|)
    else
      t == p && bytes == if a.Frame() in p.devices then answer else seq(|answer|, _ => 0xff)
  }

  lemma InstalledIsReadable(p: Machine, t: Machine, a: ResolvedAccess, x: nat, isUser: bool)
    requires Sizes(p) && x < MAX_RAM && a.Page() == x / PAGE_SIZE && (isUser ==> a.user) && t == Install(p, a)
    ensures !TrapsAt(t, x, false, isUser)
  {
    MetadataBitsMeaning(!a.user, !a.writable);
    TrapsWhenRequired(t.meta[x / PAGE_SIZE], false, isUser);
  }

  lemma FaultingRead(m: Machine, p: Machine, x: nat, answer: seq<Byte>, isUser: bool, r: ReadResult)
    requires Sizes(m) && p == m.(ram := p.ram) && Walked(m, ReadOf(x, |answer|, isUser), p.ram)
    requires IsWidth(|answer|) && x + |answer| <= MAX_RAM && TrapsAt(m, x, false, isUser)
    requires Aligned(m.control.paging) ==> StopFitsAt(m, x, isUser, r)
    requires !r.Value? && ReadEndsIn(m, ReadOf(x, |answer|, isUser), r)
    ensures ReadOutcome(m, p, x, answer, isUser, r)
  {
    hide Walked, Denies, ShouldTrap, PageMapped, ReadFits, StopFitsAt, ReadEndsIn;
    if Aligned(m.control.paging) { StopFits(m, x, |answer|, isUser, r, x); }
    TrappedEnds(m, x, |answer|, false, isUser);
    assert forall q: nat :: q < NUM_PAGES ==> PageRead(m, p, q, ReadOf(x, |answer|, isUser));
  }

  lemma TrappedEnds(m: Machine, x: nat, n: nat, isWrite: bool, isUser: bool)
    requires |m.meta| == NUM_PAGES && 0 < n && x + n <= MAX_RAM
    requires TrapsAt(m, x, isWrite, isUser) || TrapsAt(m, x + n - 1, isWrite, isUser)
    ensures !Untrapped(m, x, n, isWrite, isUser)
  {
  }

  // A read within a page that traps.
  lemma ReadOfPage(m: Machine, p: Machine, t: Machine, a: ResolvedAccess, x: nat, answer: seq<Byte>, isUser: bool,
                   r: ReadResult)
    requires Inv(m) && p == m.(ram := p.ram)
    requires IsWidth(|answer|) && x + |answer| <= MAX_RAM && !Crosses(x, |answer|) && TrapsAt(m, x, false, isUser)
    requires Resolve(m.ram, m.clean, m.control, x, false, isUser) == (Resolved(a), p.ram) && a.Page() == x / PAGE_SIZE
    requires |t.meta| == NUM_PAGES && r.Value? && ReadBy(m, p, t, a, x, answer, isUser, r.bytes)
    ensures ReadOutcome(m, t, x, answer, isUser, r)
  {
    hide ShouldTrap, Inv, OnlyReads, BytesRead, HostBytes, Resolve, ByteDelivered, ReadFits;
    SizesOf(m);
    var k := ReadOf(x, |answer|, isUser);
    WalkedOnce(m, k, x);
    WalkedLength(m, k, p.ram);
    assert !Untrapped(m, x, |answer|, false, isUser) by { TrappedEnds(m, x, |answer|, false, isUser); }
    ResolvedFirst(m, p.ram, a, x, k);
    AccessIsProper(m, p.ram, a, x, k);
    OnePageResolved(m, p, t, a, k);
    forall y: nat | x <= y < x + |answer|
      ensures ByteDelivered(m, t, y, k, Nth(r.bytes, x, y), Nth(answer, x, y))
    {
      PageByteDelivered(m, p, t, a, x, answer, y, isUser, r.bytes);
    }
    if Aligned(m.control.paging) {
      BytesDeliveredAreRead(m, t, x, k, r.bytes, answer);
      ReadNeverStops(m, t, x, isUser, r.bytes, answer);
    }
  }

  lemma OnePageResolved(m: Machine, p: Machine, t: Machine, a: ResolvedAccess, k: Access)
    requires Sizes(m) && p == m.(ram := p.ram) && a.Page() < NUM_PAGES
    requires |t.meta| == NUM_PAGES && t == if RamBacked(p, Some(a)) then Install(p, a) else p
    requires Traps(m, a.Page(), false, k.isUser)
    requires RamBacked(p, Some(a)) ==> !Traps(t, a.Page(), false, k.isUser)
    ensures Walked(m, k, p.ram) && AccessFrom(m, p.ram, a, a.emuAddr, k) ==> OnlyReads(m, t, k)
  {
    hide ShouldTrap, AccessFrom, Walked, MetadataBits;
    if Walked(m, k, p.ram) && AccessFrom(m, p.ram, a, a.emuAddr, k) && RamBacked(p, Some(a)) {
      WalkedLength(m, k, p.ram);
      InstallMaps(p, t, a);
      hide InstalledAt;
      assert MappedBy(m, t.ram, t, a, a.Page(), k);
      forall q: nat | q < NUM_PAGES ensures PageRead(m, t, q, k) {
        if q != a.Page() { assert PageKept(p, t, q); }
      }
    }
  }

  lemma PageByteDelivered(m: Machine, p: Machine, t: Machine, a: ResolvedAccess, x: nat, answer: seq<Byte>, y: nat,
                          isUser: bool, bytes: seq<Byte>)
    requires Sizes(m) && p == m.(ram := p.ram) && |p.ram| == |m.ram| && a.emuAddr == x
    requires IsWidth(|answer|) && x + |answer| <= MAX_RAM && !Crosses(x, |answer|) && TrapsAt(m, x, false, isUser)
    requires x <= y < x + |answer| == x + |bytes|
    requires |t.meta| == NUM_PAGES && ReadBy(m, p, t, a, x, answer, isUser, bytes)
    ensures AccessFrom(m, p.ram, a, x, ReadOf(x, |answer|, isUser)) ==>
              ByteDelivered(m, t, y, ReadOf(x, |answer|, isUser), Nth(bytes, x, y), Nth(answer, x, y))
  {
    hide ShouldTrap, AccessFrom, Install;
    PageOfByte(x, y - x);
    if RamBacked(p, Some(a)) {
      SameTrap(t, x, y, false, isUser);
      UntrappedTarget(t, y, false, isUser);
      hide Inv, HostBytes;
      DeliveredAsMapped(m, t, x, y, answer, ReadOf(x, |answer|, isUser));
    } else if AccessFrom(m, p.ram, a, x, ReadOf(x, |answer|, isUser)) {
      assert AnsweredBy(m, t, y, ReadOf(x, |answer|, isUser), a, Nth(bytes, x, y), Nth(answer, x, y));
    }
  }

  // ----- Byte by byte

  lemma StartSlice(m: Machine, x: nat, k: Access, answer: seq<Byte>)
    requires |m.meta| == |m.clean| == NUM_PAGES && x < MAX_RAM
    ensures OnlyReads(m, m, k) && BytesDelivered(m, m, x, k, [], answer)
  {
    OnlyReadsRefl(m, k);
  }

  // One byte of read k, which began at x in m0.
  lemma OneByteRead(m0: Machine, m: Machine, t: Machine, x: nat, i: nat, k: Access, b: ReadResult, answer: Byte)
    requires |m0.meta| == |m.meta| == |t.meta| == |m0.clean| == |m.clean| == NUM_PAGES
    requires |m0.ram| <= MAX_RAM && x + i + 1 <= MAX_RAM && ReadOf(x + i, 1, k.isUser).Within(k)
    requires OnlyReads(m0, m, k) && ReadOutcome(m, t, x + i, [answer], k.isUser, b)
    ensures OnlyReads(m, t, k) && OnlyReads(m0, t, k)
    ensures b.Value? ==> |b.bytes| == 1 && ByteDelivered(m, t, x + i, k, b.bytes[0], answer)
    ensures ReadEndsIn(m0, k, b)
    ensures Aligned(m0.control.paging) ==> StopFitsAt(m0, x + i, k.isUser, b)
  {
    hide OnlyReads, ByteDelivered, FaultFits, BytesRead, DeniedAt, FailsAt, EndsIn;
    var one := ReadOf(x + i, 1, k.isUser);
    OnlyReadsWider(m, t, one, k);
    OnlyReadsTrans(m0, m, t, k);
    SameControl(m0, m, k);
    if b.Value? {
      assert ByteDelivered(m, t, x + i, one, Nth(b.bytes, x + i, x + i), Nth([answer], x + i, x + i));
      DeliveredWider(m, t, x + i, one, k, b.bytes[0], answer);
    }
    if b.ReadFault? { EndedBefore(m0, m, one, k, PageFault(b.code, b.addr)); }
    if b.ReadFailure? { EndedBefore(m0, m, one, k, HostFailure); }
    if Aligned(m0.control.paging) { StopBefore(m0, m, x + i, k, b); }
  }

  lemma EndedBefore(m0: Machine, m: Machine, one: Access, k: Access, r: Resolution)
    requires |m0.meta| == |m.meta| == |m0.clean| == |m.clean| == NUM_PAGES
    requires OnlyReads(m0, m, k) && one.Within(k) && !k.isWrite && EndsIn(m, one, r)
    ensures EndsIn(m0, k, r)
  {
    hide Walked, EndsIn, ShouldTrap, PageMapped;
    forall y: nat | one.Covers(y) && TrapsAt(m, y, one.isWrite, one.isUser)
      ensures TrapsAt(m0, y, one.isWrite, one.isUser)
    {
      assert PageRead(m0, m, y / PAGE_SIZE, k);
    }
    EndsLater(m0, m, one, k, r);
  }

  // What stops a read after some reads would have stopped it before them.
  lemma StopBefore(m0: Machine, m: Machine, y: nat, k: Access, r: ReadResult)
    requires |m0.meta| == |m.meta| == |m0.clean| == NUM_PAGES && |m0.ram| <= MAX_RAM && y < MAX_RAM
    requires Aligned(m0.control.paging) && OnlyReads(m0, m, k) && (r.Value? || ReadFits(m, y, 1, k.isUser, r))
    ensures StopFitsAt(m0, y, k.isUser, r)
  {
    hide Denies, Fails, Physical, ShouldTrap, SameButMarks, LeafDirty, OnlyMarks, PageMapped, Walked;
    WalkedMarks(m0, k, m.ram);
    MarksKeepPhysical(m0.control, m0.ram, m.ram, y, false, k.isUser);
    assert PageRead(m0, m, y / PAGE_SIZE, k);
  }

  // Reading one byte more.
  lemma SliceStep(m0: Machine, m: Machine, t: Machine, x: nat, i: nat, k: Access, bytes: seq<Byte>, b: Byte,
                  answer: seq<Byte>)
    requires |m0.meta| == |m.meta| == |t.meta| == |m0.clean| == |m.clean| == NUM_PAGES && |m0.ram| <= MAX_RAM
    requires x + i + 1 <= MAX_RAM && |bytes| == i < |answer|
    requires OnlyReads(m0, m, k) && OnlyReads(m, t, k)
    requires BytesDelivered(m0, m, x, k, bytes, answer) && ByteDelivered(m, t, x + i, k, b, answer[i])
    ensures OnlyReads(m0, t, k) && BytesDelivered(m0, t, x, k, bytes + [b], answer)
  {
    hide OnlyReads, ByteDelivered;
    OnlyReadsTrans(m0, m, t, k);
    SameControl(m0, m, k);
    forall y: nat | x <= y < x + i + 1
      ensures ByteDelivered(m0, t, y, k, Nth(bytes + [b], x, y), Nth(answer, x, y))
    {
      if y < x + i {
        assert Nth(bytes + [b], x, y) == Nth(bytes, x, y);
        DeliveredBefore(m0, m, t, y, k, Nth(bytes, x, y), Nth(answer, x, y));
      } else {
        DeliveredAfter(m0, m, t, y, k, b, answer[i]);
      }
    }
  }

  lemma SliceFault(m: Machine, before: Machine, t: Machine, x: nat, answer: seq<Byte>, isUser: bool, bytes: seq<Byte>,
                   r: ReadResult)
    requires Sizes(m) && |before.meta| == |t.meta| == NUM_PAGES && |bytes| < |answer| && x + |answer| <= MAX_RAM
    requires var k := ReadOf(x, |answer|, isUser);
             && OnlyReads(m, before, k) && BytesDelivered(m, before, x, k, bytes, answer) && OnlyReads(m, t, k)
    requires !Untrapped(m, x, |answer|, false, isUser) && !r.Value?
    requires ReadEndsIn(m, ReadOf(x, |answer|, isUser), r)
    requires Aligned(m.control.paging) ==> StopFitsAt(m, x + |bytes|, isUser, r)
    ensures ReadOutcome(m, t, x, answer, isUser, r)
  {
    hide OnlyReads, StopsAt, Untrapped, SameByte, Backed, Destination, Unbacked, BytesDelivered, ReadFits, StopFitsAt;
    hide ReadEndsIn;
    if Aligned(m.control.paging) {
      BytesDeliveredAreRead(m, before, x, ReadOf(x, |answer|, isUser), bytes, answer);
      forall y: nat | x <= y < x + |bytes| ensures !StopsAt(m, y, false, isUser) {
        assert ByteRead(m, before, y, isUser, Nth(bytes, x, y), Nth(answer, x, y));
      }
      StopFits(m, x, |answer|, isUser, r, x + |bytes|);
    }
  }

  lemma SliceDone(m: Machine, t: Machine, x: nat, answer: seq<Byte>, isUser: bool, bytes: seq<Byte>)
    requires Sizes(m) && |t.meta| == NUM_PAGES && x + |answer| <= MAX_RAM && |bytes| == |answer| && Crosses(x, |answer|)
    requires var k := ReadOf(x, |answer|, isUser); OnlyReads(m, t, k) && BytesDelivered(m, t, x, k, bytes, answer)
    requires !Untrapped(m, x, |answer|, false, isUser)
    ensures ReadOutcome(m, t, x, answer, isUser, Value(bytes))
  {
    hide OnlyReads, BytesDelivered, BytesRead, ReadFits;
    if Aligned(m.control.paging) {
      BytesDeliveredAreRead(m, t, x, ReadOf(x, |answer|, isUser), bytes, answer);
      ReadNeverStops(m, t, x, isUser, bytes, answer);
    }
  }

  // ----- Written and read back

  // A read of bytes that are held for writing delivers them and changes nothing.
  lemma ReadBackAfterWrite(t: Machine, t': Machine, x: nat, val: seq<Byte>, answer: seq<Byte>, isUser: bool,
                           r: ReadResult)
    requires |t.meta| == |t'.meta| == |t.clean| == NUM_PAGES && x + |val| <= MAX_RAM && |answer| == |val|
    requires forall n: nat :: n < |val| ==> ByteHeld(t, x + n, val[n], isUser)
    requires ReadOutcome(t, t', x, answer, isUser, r)
    ensures r == Value(val) && t' == t
  {
    hide OnlyReads, BytesRead, BytesDelivered;
    forall y: nat | x <= y < x + |val| ensures !TrapsAt(t, y, false, isUser) {
      assert ByteHeld(t, x + (y - x), val[y - x], isUser);
      TrapsWhenRequired(t.meta[y / PAGE_SIZE], true, isUser);
      TrapsWhenRequired(t.meta[y / PAGE_SIZE], false, isUser);
    }
    forall i | 0 <= i < |val| ensures HostBytes(t, x, |val|)[i] == val[i] {
      assert ByteHeld(t, x + i, val[i], isUser);
    }
  }

  lemma ReadIsUnlogged(m: Machine, t: Machine, x: nat, answer: seq<Byte>, isUser: bool, r: ReadResult)
    requires |m.meta| == |m.clean| == |t.meta| == NUM_PAGES && x + |answer| <= MAX_RAM
    requires ReadOutcome(m, t, x, answer, isUser, r)
    ensures t.log == m.log
  {
  }
}
