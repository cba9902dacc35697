/**
 When accesses that do not trap agree with translation. With an aligned base, whatever reads and writes do, every
 mapping in use stays current as long as the page tables translate as before. That an untrapped access is granted as
 well can fail for writes by user code, and exactly when is shown here. Module Switches has what becomes of both when
 control state changes.
 */
module Agreement {
  import opened Accesses
  import opened Bytes
  import opened Histories
  import opened Metadata
  import opened Memory
  import opened Options
  import opened PageTables
  import opened Reads
  import opened Writes

  // Every mapping in use is the one that a walk would find now, for user code if the walk would grant it, and for
  // writing only if the walk would grant that to the system and the entry is marked dirty.
  ghost predicate Current(m: Machine)
    requires |m.meta| == NUM_PAGES
  {
    forall p: nat :: p < NUM_PAGES && m.meta[p] & TRAP_ACCESS == 0 ==> PageInstalled(m, m.ram, m, p, false)
  }

  // No page is open to writes by user code that translation denies.
  ghost predicate Strict(m: Machine)
    requires |m.meta| == NUM_PAGES
  {
    forall p: nat :: p < NUM_PAGES && !Traps(m, p, true, true) ==> !Denies(m.control, m.ram, p * PAGE_SIZE, true, true)
  }

  // The system may write whatever user code may.
  lemma SystemInstalled(m: Machine, ram: seq<Byte>, t: Machine, p: nat, isUser: bool)
    requires |m.meta| == |t.meta| == NUM_PAGES && p < NUM_PAGES && PageInstalled(m, ram, t, p, isUser)
    ensures PageInstalled(m, ram, t, p, false)
  {
    hide Physical, LeafDirty, UserAllowed, Translate;
  }

  // An untrapped read is granted by translation and goes where translation says.
  lemma CurrentReadsAgree(m: Machine, y: nat, isUser: bool)
    requires Inv(m) && Current(m) && y < MAX_RAM && !TrapsAt(m, y, false, isUser)
    ensures !Denies(m.control, m.ram, y, false, isUser) && Physical(m.control, m.ram, y) == Some(Target(m.host, y))
  {
    hide Translate;
    TrapsWhenRequired(m.meta[y / PAGE_SIZE], false, isUser);
    assert PageInstalled(m, m.ram, m, y / PAGE_SIZE, false);
    PhysicalIsPagewise(m.control, m.ram, y / PAGE_SIZE * PAGE_SIZE, y);
    TranslationIsPagewise(m.control.paging, m.ram, y);
  }

  // A page that user code may read and only the system may write.
  predicate ReadOnlyForUser(control: Control, ram: seq<Byte>, x: nat) {
    control.enabled && var w := Translate(ram, control.paging, x); w.Mapped? && w.user && !w.writable
  }

  // An untrapped write goes where translation says, through an entry marked dirty. It is granted to the system, and to
  // user code unless the page is read-only for it, which takes write protection to be off.
  lemma CurrentWritesAgree(m: Machine, y: nat, isUser: bool)
    requires Inv(m) && Current(m) && y < MAX_RAM && !TrapsAt(m, y, true, isUser)
    ensures Physical(m.control, m.ram, y) == Some(Target(m.host, y)) && LeafDirty(m.control, m.ram, y)
    ensures !Denies(m.control, m.ram, y, true, false)
    ensures Denies(m.control, m.ram, y, true, isUser) <==> isUser && ReadOnlyForUser(m.control, m.ram, y)
    ensures Denies(m.control, m.ram, y, true, isUser) ==> !m.control.writeProtect
  {
    TrapsWhenRequired(m.meta[y / PAGE_SIZE], true, isUser);
    TrapsWhenRequired(m.meta[y / PAGE_SIZE], false, isUser);
    CurrentReadsAgree(m, y, isUser);
    assert PageInstalled(m, m.ram, m, y / PAGE_SIZE, false);
    PagewiseDenial(m.control, m.ram, y, true, false);
    PagewiseDirt(m.control, m.ram, y);
    hide Translate;
  }

  // The state is strict exactly if every untrapped access of any kind is one that translation grants.
  lemma StrictExactly(m: Machine)
    requires Inv(m) && Current(m)
    ensures Strict(m) <==> forall y: nat, isWrite, isUser :: y < MAX_RAM && !TrapsAt(m, y, isWrite, isUser) ==>
                             !Denies(m.control, m.ram, y, isWrite, isUser)
  {
    SizesOf(m);
    hide Inv, Current, Denies, Traps;
    if Strict(m) {
      forall y: nat, isWrite, isUser | y < MAX_RAM && !TrapsAt(m, y, isWrite, isUser)
        ensures !Denies(m.control, m.ram, y, isWrite, isUser)
      {
        if isWrite {
          CurrentWritesAgree(m, y, isUser);
          PagewiseDenial(m.control, m.ram, y, true, true);
        } else {
          CurrentReadsAgree(m, y, isUser);
        }
      }
    }
    forall p: nat | p < NUM_PAGES && !Traps(m, p, true, true) ensures !TrapsAt(m, p * PAGE_SIZE, true, true) {
      assert p * PAGE_SIZE / PAGE_SIZE == p;
    }
  }

  // Then a write that succeeds is granted by translation on both its pages; without it, if the system makes it.
  lemma SuccessIsGranted(m: Machine, x: nat, n: nat, isUser: bool)
    requires Inv(m) && Current(m) && (Strict(m) || !isUser)
    requires IsWidth(n) && x + n <= MAX_RAM && !WriteDenied(m, x, n, isUser)
    ensures !Denies(m.control, m.ram, x, true, isUser)
    ensures Crosses(x, n) ==> !Denies(m.control, m.ram, NextPage(x), true, isUser)
  {
    SizesOf(m);
    hide Inv, Current, Strict, Denies, TrapsAt;
    PageOfByte(x, n);
    if Strict(m) { StrictExactly(m); }
    if !TrapsAt(m, x, true, isUser) { CurrentWritesAgree(m, x, isUser); }
    if Crosses(x, n) && !TrapsAt(m, NextPage(x), true, isUser) { CurrentWritesAgree(m, NextPage(x), isUser); }
  }

  // ----- Keeping mappings current

  // Whatever device or advice its bytes met: its walks having left RAM as fin, an access leaves mappings current.
  lemma AccessStaysCurrent(m: Machine, fin: seq<Byte>, t: Machine, k: Access)
    requires Sizes(m) && |t.meta| == NUM_PAGES && Aligned(m.control.paging) && t.control == m.control
    requires Walked(m, k, fin) && PagesAgree(m, fin, t, k) && Current(m)
    ensures Current(t.(ram := fin))
  {
    hide Physical, UserAllowed, Denies, ShouldTrap, SameButMarks, LeafDirty, OnlyMarks, PageMapped, Walked;
    WalkedMarks(m, k, fin);
    var u := t.(ram := fin);
    forall p: nat | p < NUM_PAGES && u.meta[p] & TRAP_ACCESS == 0 ensures PageInstalled(u, fin, u, p, false) {
      MarksKeepPhysical(m.control, m.ram, fin, p * PAGE_SIZE, true, false);
      DirtStays(m.control, m.ram, fin, p * PAGE_SIZE);
      if !PageKept(m, t, p) {
        MappedIsInstalled(m, fin, t, p, k);
        SystemInstalled(m, fin, t, p, k.isUser);
      }
    }
  }

  // No page that the access mapped has become open to writes by user code while it is read-only for it.
  ghost predicate OpensNone(m: Machine, t: Machine)
    requires |m.meta| == |t.meta| == NUM_PAGES
  {
    forall p: nat :: p < NUM_PAGES && !PageKept(m, t, p) && !Traps(t, p, true, true) ==>
      !ReadOnlyForUser(m.control, m.ram, p * PAGE_SIZE)
  }

  // Then, and only then, it leaves a strict state strict.
  lemma AccessStaysStrict(m: Machine, fin: seq<Byte>, t: Machine, k: Access)
    requires Sizes(m) && |t.meta| == NUM_PAGES && Aligned(m.control.paging) && t.control == m.control
    requires Walked(m, k, fin) && PagesAgree(m, fin, t, k) && Strict(m)
    ensures Strict(t.(ram := fin)) <==> OpensNone(m, t)
  {
    hide Physical, UserAllowed, Denies, ShouldTrap, SameButMarks, LeafDirty, OnlyMarks, PageMapped, ReadOnlyForUser;
    hide Walked;
    WalkedMarks(m, k, fin);
    var u := t.(ram := fin);
    forall p: nat | p < NUM_PAGES && !Traps(t, p, true, true)
      ensures PageKept(m, t, p) ==> !Denies(m.control, m.ram, p * PAGE_SIZE, true, true)
      ensures !PageKept(m, t, p) ==>
                (Denies(m.control, m.ram, p * PAGE_SIZE, true, true) <==>
                   ReadOnlyForUser(m.control, m.ram, p * PAGE_SIZE))
      ensures Denies(u.control, u.ram, p * PAGE_SIZE, true, true) == Denies(m.control, m.ram, p * PAGE_SIZE, true, true)
    {
      MarksKeepPhysical(m.control, m.ram, fin, p * PAGE_SIZE, true, true);
      if !PageKept(m, t, p) {
        MappedIsInstalled(m, fin, t, p, k);
        DeniedIfReadOnly(m, fin, t, p, k.isUser);
      }
    }
    if Strict(u) {
      forall p: nat | p < NUM_PAGES && !PageKept(m, t, p) && !Traps(t, p, true, true)
        ensures !ReadOnlyForUser(m.control, m.ram, p * PAGE_SIZE)
      {
        assert !Traps(u, p, true, true);
      }
    }
  }

  lemma DeniedIfReadOnly(m: Machine, ram: seq<Byte>, t: Machine, p: nat, isUser: bool)
    requires |m.meta| == |t.meta| == NUM_PAGES && p < NUM_PAGES && PageInstalled(m, ram, t, p, isUser)
    requires !Traps(t, p, true, true)
    ensures Denies(m.control, m.ram, p * PAGE_SIZE, true, true) <==> ReadOnlyForUser(m.control, m.ram, p * PAGE_SIZE)
    ensures isUser || m.control.writeProtect || !m.control.enabled ==>
              !ReadOnlyForUser(m.control, m.ram, p * PAGE_SIZE)
  {
    TrapsWhenRequired(t.meta[p], true, true);
    hide Translate, ShouldTrap;
  }

  // Accesses by user code open no page, nor does any with write protection on or paging off.
  lemma NoneOpened(m: Machine, fin: seq<Byte>, t: Machine, k: Access)
    requires Sizes(m) && |t.meta| == NUM_PAGES && Aligned(m.control.paging) && PagesAgree(m, fin, t, k)
    requires k.isUser || m.control.writeProtect || !m.control.enabled
    ensures OpensNone(m, t)
  {
    hide ShouldTrap, PageInstalled, ReadOnlyForUser, PageMapped;
    forall p: nat | p < NUM_PAGES && !PageKept(m, t, p) && !Traps(t, p, true, true)
      ensures !ReadOnlyForUser(m.control, m.ram, p * PAGE_SIZE)
    {
      MappedIsInstalled(m, fin, t, p, k);
      DeniedIfReadOnly(m, fin, t, p, k.isUser);
    }
  }

  // Every page translates in both memories alike.
  ghost predicate Alike(control: Control, ram: seq<Byte>, ram': seq<Byte>) {
    control.enabled ==> forall p: nat :: p < NUM_PAGES ==>
      Translate(ram, control.paging, p * PAGE_SIZE) == Translate(ram', control.paging, p * PAGE_SIZE)
  }

  // So it is if no entry that a page's translation goes through was changed.
  lemma KeptTablesAreAlike(control: Control, ram: seq<Byte>, ram': seq<Byte>)
    requires |ram'| == |ram|
    requires forall p: nat :: p < NUM_PAGES ==> EntriesKept(control.paging, ram, ram', p * PAGE_SIZE)
    ensures Alike(control, ram, ram')
  {
    hide Translate, EntriesKept;
    forall p: nat | p < NUM_PAGES
      ensures Translate(ram, control.paging, p * PAGE_SIZE) == Translate(ram', control.paging, p * PAGE_SIZE)
    {
      KeptEntriesTranslate(control.paging, ram, ram', p * PAGE_SIZE);
    }
  }

  lemma AlikeAgree(m: Machine, ram: seq<Byte>)
    requires |m.meta| == NUM_PAGES && Alike(m.control, m.ram, ram)
    ensures Current(m) <==> Current(m.(ram := ram))
    ensures Strict(m) <==> Strict(m.(ram := ram))
  {
    hide Translate, ShouldTrap;
    var t := m.(ram := ram);
    assert forall p: nat :: p < NUM_PAGES ==>
      (PageInstalled(m, m.ram, m, p, false) <==> PageInstalled(t, t.ram, t, p, false));
    assert forall p: nat :: p < NUM_PAGES ==> (Traps(m, p, true, true) <==> Traps(t, p, true, true));
  }

  // How an access from m to t whose walks left RAM as fin keeps agreement: up to what its own bytes did to page tables.
  ghost predicate Agrees(m: Machine, fin: seq<Byte>, t: Machine)
    requires |m.meta| == |t.meta| == NUM_PAGES
  {
    var u := t.(ram := fin);
    && (Current(m) ==> Current(u))
    && (Strict(m) ==> (Strict(u) <==> OpensNone(m, t)))
    && (Alike(t.control, fin, t.ram) ==> (Current(u) <==> Current(t)) && (Strict(u) <==> Strict(t)))
  }

  lemma AccessAgrees(m: Machine, fin: seq<Byte>, t: Machine, k: Access)
    requires Sizes(m) && |t.meta| == NUM_PAGES && Aligned(m.control.paging) && t.control == m.control
    requires Walked(m, k, fin) && PagesAgree(m, fin, t, k)
    ensures Agrees(m, fin, t)
    ensures k.isUser || m.control.writeProtect || !m.control.enabled ==> OpensNone(m, t)
  {
    hide Current, Strict, OpensNone, Walked, PagesAgree, Alike;
    if Current(m) { AccessStaysCurrent(m, fin, t, k); }
    if Strict(m) { AccessStaysStrict(m, fin, t, k); }
    if Alike(t.control, fin, t.ram) { AlikeAgree(t.(ram := fin), t.ram); }
    if k.isUser || m.control.writeProtect || !m.control.enabled { NoneOpened(m, fin, t, k); }
  }

  // Reads keep mappings current, and open a page only as OpensNone says.
  ghost predicate ReadAgrees(m: Machine, t: Machine, isUser: bool)
    requires |m.meta| == |t.meta| == NUM_PAGES
  {
    && (Current(m) ==> Current(t))
    && (Strict(m) ==> (Strict(t) <==> OpensNone(m, t)))
    && (isUser || m.control.writeProtect || !m.control.enabled ==> OpensNone(m, t))
  }

  lemma ReadsAgree(m: Machine, t: Machine, x: nat, answer: seq<Byte>, isUser: bool, r: ReadResult)
    requires Sizes(m) && |t.meta| == NUM_PAGES && x + |answer| <= MAX_RAM && ReadOutcome(m, t, x, answer, isUser, r)
    ensures Aligned(m.control.paging) ==> ReadAgrees(m, t, isUser)
  {
    hide Current, Strict, OpensNone, Walked, PagesAgree, PageMapped, Alike, BytesDelivered, BytesRead;
    if Aligned(m.control.paging) {
      ReadPagesAgree(m, t, ReadOf(x, |answer|, isUser));
      AccessAgrees(m, t.ram, t, ReadOf(x, |answer|, isUser));
      assert t.(ram := t.ram) == t;
    }
  }

  // So do writes, whether or not RAM backs them and whatever the device advises, before their bytes reach page tables;
  // and after that too if the bytes leave every translation as it was.
  ghost predicate WriteAgrees(m: Machine, t: Machine, k: Access, advise: (nat, nat) -> Advice)
    requires |m.meta| == |m.clean| == |t.meta| == NUM_PAGES
  {
    && (exists marked: seq<Byte> :: Written(m, marked, t, k, advise) && Agrees(m, marked, t))
    && (k.isUser || m.control.writeProtect || !m.control.enabled ==> OpensNone(m, t))
  }

  lemma WritesAgree(m: Machine, t: Machine, x: nat, val: seq<Byte>, isUser: bool, advise: (nat, nat) -> Advice,
                    r: WriteResult)
    requires Sizes(m) && |t.meta| == NUM_PAGES && IsWidth(|val|) && x + |val| <= MAX_RAM
    requires WriteOutcome(m, t, x, val, isUser, advise, r)
    ensures Aligned(m.control.paging) ==> WriteAgrees(m, t, Access(x, |val|, true, isUser), advise)
  {
    hide Agrees, OpensNone, Walked, PagesAgree, Traced, CleanFramesAdvised, MadeAs, Arrived, ByteArrived;
    if Aligned(m.control.paging) {
      var k := Access(x, |val|, true, isUser);
      var marked: seq<Byte> :| Written(m, marked, t, k, advise);
      AccessAgrees(m, marked, t, k);
    }
  }

  // Cleaning frames and invalidating a page only add traps.
  lemma MoreTrapsStayCurrent(m: Machine, t: Machine)
    requires |m.meta| == |t.meta| == NUM_PAGES && Current(m)
    requires t.control == m.control && t.ram == m.ram && t.host == m.host
    requires forall p: nat :: p < NUM_PAGES ==>
               t.meta[p] == m.meta[p] || t.meta[p] == m.meta[p] | TRAP_WRITE || t.meta[p] == 0xff
    ensures Current(t) && (Strict(m) ==> Strict(t))
  {
    hide Physical, UserAllowed, Denies, LeafDirty, ShouldTrap;
    forall p: nat | p < NUM_PAGES
      ensures t.meta[p] & TRAP_ACCESS == 0 ==> PageInstalled(t, t.ram, t, p, false)
      ensures !Traps(t, p, true, true) ==> !Traps(m, p, true, true)
    {
      TrapsWhenRequired(m.meta[p], true, true);
      TrapsWhenRequired(t.meta[p], true, true);
      assert m.meta[p] & TRAP_ACCESS == 0 ==> PageInstalled(m, m.ram, m, p, false);
    }
  }

  // ----- When a page is opened to denied writes

  // The state after access a, resolved for x, has been mapped; its walk left ram', and its frame may have become dirty.
  ghost predicate MappedFor(m: Machine, t: Machine, x: nat, isWrite: bool, isUser: bool)
    requires |m.clean| == NUM_PAGES && x < MAX_RAM && |m.meta| == NUM_PAGES
  {
    var (r, ram') := Resolve(m.ram, m.clean, m.control, x, isWrite, isUser);
    && r.Resolved? && r.access.Page() < NUM_PAGES
    && t.control == m.control && t.ram == ram'
    && t.meta == Install(m, r.access).meta && t.host == Install(m, r.access).host
  }

  lemma MappingStaysCurrent(m: Machine, t: Machine, x: nat, isWrite: bool, isUser: bool)
    requires Sizes(m) && Aligned(m.control.paging) && x < MAX_RAM && MappedFor(m, t, x, isWrite, isUser) && Current(m)
    ensures |t.meta| == NUM_PAGES && Current(t)
  {
    hide Resolve, SameButMarks, LeafDirty, ShouldTrap, MetadataBits, Denies, Physical, UserAllowed;
    var a := Resolve(m.ram, m.clean, m.control, x, isWrite, isUser).0.access;
    var page := x / PAGE_SIZE;
    ResolveIsProper(m.ram, m.clean, m.control, x, isWrite, isUser);
    ResolveFollowsTranslation(m.ram, m.clean, m.control, x, isWrite, isUser);
    ResolveGrantsWrites(m.ram, m.clean, m.control, x, isWrite, isUser);
    MetadataBitsMeaning(!a.user, !a.writable);
    PhysicalIsPagewise(m.control, m.ram, x, page * PAGE_SIZE);
    PagewiseDenial(m.control, m.ram, x, true, isUser);
    PagewiseDirt(m.control, t.ram, x);
    assert PageInstalled(m, t.ram, t, page, isUser);
    SystemInstalled(m, t.ram, t, page, isUser);
    forall p: nat | p < NUM_PAGES && t.meta[p] & TRAP_ACCESS == 0 ensures PageInstalled(t, t.ram, t, p, false) {
      MarksKeepPhysical(m.control, m.ram, t.ram, p * PAGE_SIZE, true, false);
      DirtStays(m.control, m.ram, t.ram, p * PAGE_SIZE);
      assert p != page ==> PageInstalled(m, m.ram, m, p, false);
    }
  }

  // The access opens its page exactly if the system makes it, with write protection off, to a page that is read-only
  // for user code; and, if it is a read, through an entry and to a frame that are dirty already.
  ghost predicate OpensPage(m: Machine, x: nat, isWrite: bool, isUser: bool)
    requires |m.clean| == NUM_PAGES
  {
    && !isUser && !m.control.writeProtect && ReadOnlyForUser(m.control, m.ram, x)
    && (isWrite ||
        (LeafDirty(m.control, m.ram, x)
         && var p := Physical(m.control, m.ram, x);
            p.Some? && p.value / PAGE_SIZE < NUM_PAGES && !m.clean[p.value / PAGE_SIZE]))
  }

  lemma OpensExactly(m: Machine, t: Machine, x: nat, isWrite: bool, isUser: bool)
    requires Sizes(m) && Aligned(m.control.paging) && x < MAX_RAM && MappedFor(m, t, x, isWrite, isUser)
    ensures !TrapsAt(t, x, true, true) && Denies(t.control, t.ram, x, true, true) <==> OpensPage(m, x, isWrite, isUser)
  {
    hide Resolve, SameButMarks, LeafDirty, ShouldTrap, MetadataBits;
    var (r, ram') := Resolve(m.ram, m.clean, m.control, x, isWrite, isUser);
    var a := r.access;
    ResolveIsProper(m.ram, m.clean, m.control, x, isWrite, isUser);
    ResolveFollowsTranslation(m.ram, m.clean, m.control, x, isWrite, isUser);
    ResolveGrantsWrites(m.ram, m.clean, m.control, x, isWrite, isUser);
    MarksKeepPhysical(m.control, m.ram, ram', x, true, true);
    MetadataBitsMeaning(!a.user, !a.writable);
    TrapsWhenRequired(t.meta[x / PAGE_SIZE], true, true);
    hide Translate;
  }

  // A strict state stays strict exactly if the access does not open its page.
  lemma StaysStrictExactly(m: Machine, t: Machine, x: nat, isWrite: bool, isUser: bool)
    requires Sizes(m) && Aligned(m.control.paging) && x < MAX_RAM && MappedFor(m, t, x, isWrite, isUser) && Strict(m)
    ensures |t.meta| == NUM_PAGES && (Strict(t) <==> !OpensPage(m, x, isWrite, isUser))
  {
    hide Resolve, SameButMarks, ShouldTrap, Denies, OpensPage;
    OpensExactly(m, t, x, isWrite, isUser);
    ResolveIsProper(m.ram, m.clean, m.control, x, isWrite, isUser);
    ResolveFollowsTranslation(m.ram, m.clean, m.control, x, isWrite, isUser);
    PagewiseDenial(t.control, t.ram, x, true, true);
    forall p: nat | p < NUM_PAGES && p != x / PAGE_SIZE && !Traps(t, p, true, true)
      ensures !Denies(t.control, t.ram, p * PAGE_SIZE, true, true)
    {
      MarksKeepPhysical(m.control, m.ram, t.ram, p * PAGE_SIZE, true, true);
    }
  }

  // ----- Which pages an access opens, judged before it is made

  // A write opens the trapped pages that are read-only for user code and that some byte of it goes through.
  ghost predicate WriteOpens(m: Machine, x: nat, len: nat, isUser: bool, advise: (nat, nat) -> Advice)
    requires |m.meta| == |m.clean| == NUM_PAGES && x + len <= MAX_RAM
  {
    exists n: nat :: n < len && ByteOpens(m, x, n, len, isUser, advise)
  }

  predicate ByteOpens(m: Machine, x: nat, n: nat, len: nat, isUser: bool, advise: (nat, nat) -> Advice)
    requires |m.meta| == |m.clean| == NUM_PAGES && x + n < MAX_RAM
  {
    && TrapsAt(m, x + n, true, isUser) && DestinationOf(m, x, n, len, isUser, advise).Through?
    && ReadOnlyForUser(m.control, m.ram, x + n)
  }

  lemma WriteOpensExactly(m: Machine, t: Machine, x: nat, val: seq<Byte>, isUser: bool, advise: (nat, nat) -> Advice)
    requires Sizes(m) && |t.meta| == NUM_PAGES && Aligned(m.control.paging) && IsWidth(|val|) && x + |val| <= MAX_RAM
    requires WriteOutcome(m, t, x, val, isUser, advise, Done)
    ensures OpensNone(m, t) <==> !WriteOpens(m, x, |val|, isUser, advise)
  {
    hide WriteTraced, Arrived, DestinationOf, ReadOnlyForUser, ShouldTrap, ByteHeld, HandedOver, MadeAs, PageKept;
    hide WriteDenied;
    WriteIsLogged(m, t, x, val, isUser, advise, Done);
    if n: nat :| n < |val| && ByteOpens(m, x, n, |val|, isUser, advise) {
      assert ByteArrived(m, t, x, val, n, isUser, advise);
      OpenedByWrite(m, t, x, val, n, isUser, advise);
    }
    if !OpensNone(m, t) {
      var p: nat :| p < NUM_PAGES && !PageKept(m, t, p) && !Traps(t, p, true, true) &&
        ReadOnlyForUser(m.control, m.ram, p * PAGE_SIZE);
      var n := MappedThrough(m, t, x, val, p, isUser, advise);
      PagewiseReadOnly(m.control, m.ram, x + n);
      assert ByteOpens(m, x, n, |val|, isUser, advise);
    }
  }

  lemma PagewiseReadOnly(control: Control, ram: seq<Byte>, x: nat)
    ensures ReadOnlyForUser(control, ram, x / PAGE_SIZE * PAGE_SIZE) == ReadOnlyForUser(control, ram, x)
  {
    hide Translate;
    TranslationIsPagewise(control.paging, ram, x);
  }

  // A mapped page that was trapped and is read-only for user code, but is now open to writes of some kind, is open to
  // those of user code.
  lemma OpenToUser(m: Machine, fin: seq<Byte>, t: Machine, p: nat, k: Access)
    requires Sizes(m) && |t.meta| == NUM_PAGES && p < NUM_PAGES && Aligned(m.control.paging)
    requires PageMapped(m, fin, t, p, k) && ReadOnlyForUser(m.control, m.ram, p * PAGE_SIZE)
    requires !Traps(t, p, true, k.isUser)
    ensures !Traps(t, p, true, true)
  {
    hide PageMapped, Physical, Denies, LeafDirty, Backed, Translate, ShouldTrap;
    MappedIsInstalled(m, fin, t, p, k);
    TrapsWhenRequired(t.meta[p], true, k.isUser);
    TrapsWhenRequired(t.meta[p], true, true);
  }

  lemma OpenedByWrite(m: Machine, t: Machine, x: nat, val: seq<Byte>, n: nat, isUser: bool,
                      advise: (nat, nat) -> Advice)
    requires Sizes(m) && |t.meta| == NUM_PAGES && Aligned(m.control.paging) && IsWidth(|val|) && x + |val| <= MAX_RAM
    requires WriteTraced(m, t, Access(x, |val|, true, isUser), advise) && n < |val|
    requires ByteOpens(m, x, n, |val|, isUser, advise) && ByteHeld(t, x + n, val[n], isUser)
    ensures !OpensNone(m, t)
  {
    hide Walked, Traced, CleanFramesAdvised, DestinationOf, ReadOnlyForUser, ShouldTrap, PageMapped, SameAt, Target;
    var k, p := Access(x, |val|, true, isUser), (x + n) / PAGE_SIZE;
    var marked: seq<Byte> :| Written(m, marked, t, k, advise);
    PagewiseReadOnly(m.control, m.ram, x + n);
    assert !PageKept(m, t, p);
    OpenToUser(m, marked, t, p, k);
  }

  lemma MappedThrough(m: Machine, t: Machine, x: nat, val: seq<Byte>, p: nat, isUser: bool,
                      advise: (nat, nat) -> Advice)
    returns (n: nat)
    requires Sizes(m) && |t.meta| == NUM_PAGES && Aligned(m.control.paging) && IsWidth(|val|) && x + |val| <= MAX_RAM
    requires WriteOutcome(m, t, x, val, isUser, advise, Done) && p < NUM_PAGES && !PageKept(m, t, p)
    ensures n < |val| && (x + n) / PAGE_SIZE == p && TrapsAt(m, x + n, true, isUser)
    ensures DestinationOf(m, x, n, |val|, isUser, advise).Through?
  {
    hide Arrived, ByteArrived, Walked, Traced, CleanFramesAdvised, PlaceOf, DestinationOf, PageKept, ByteMade, PutFirst;
    hide ShouldTrap, WriteDenied, PageMapped, PagesWritten, Resolves;
    var k := Access(x, |val|, true, isUser);
    var marked: seq<Byte>, w: PreparedWrite :| w.addr == x && w.val == val && MadeAs(m, marked, t, w, isUser, advise);
    var s := m.(ram := marked);
    KeptElsewhere(m, s, t, p);
    n :| n < |val| && PageThrough(s, w, n, p, advise);
    var marked': seq<Byte> :| Written(m, marked', t, k, advise);
    PlacesAreDestinations(m, s, w, isUser, advise);
    assert Places(s, w, advise)[n] == Destinations(m, x, |val|, isUser, advise)[n];
  }

  lemma KeptElsewhere(m: Machine, s: Machine, t: Machine, p: nat)
    requires |m.meta| == |t.meta| == NUM_PAGES && s == m.(ram := s.ram)
    ensures PageKept(s, t, p) == PageKept(m, t, p)
  {
  }

  // A read opens the trapped pages that RAM backs, that are read-only for user code, and whose entry and frame are
  // dirty.
  ghost predicate ReadOpens(m: Machine, x: nat, len: nat, isUser: bool)
    requires |m.meta| == |m.clean| == NUM_PAGES && x + len <= MAX_RAM
  {
    exists y: nat :: x <= y < x + len && ByteReadOpens(m, y, isUser)
  }

  ghost predicate ByteReadOpens(m: Machine, y: nat, isUser: bool)
    requires |m.meta| == |m.clean| == NUM_PAGES && y < MAX_RAM
  {
    TrapsAt(m, y, false, isUser) && Backed(m, y, false, isUser) && OpensPage(m, y, false, isUser)
  }

  // What a read resolves may be written exactly if a write would be granted too, and entry and frame were dirty before
  // it.
  lemma ReadGrantsWrites(m: Machine, fin: seq<Byte>, a: ResolvedAccess, x: nat, k: Access)
    requires Sizes(m) && Aligned(m.control.paging) && AccessFrom(m, fin, a, x, k) && !k.isWrite
    ensures a.Frame() < NUM_PAGES
    ensures a.writable <==> !Denies(m.control, m.ram, x, true, k.isUser) && LeafDirty(m.control, m.ram, x) &&
                            !m.clean[a.Frame()]
  {
    hide Resolve, SameButMarks, OnlyMarks, Denies, LeafDirty, Physical, UserAllowed, Walked, SameDirt;
    var ram: seq<Byte> :| ResolvedIn(m, ram, fin, a, x, k);
    WalkedMarks(m, k, ram);
    WalkedLength(m, k, ram);
    ReadWalksSameDirt(m, k, ram);
    MarksKeepPhysical(m.control, m.ram, ram, x, true, k.isUser);
    ResolveIsProper(ram, m.clean, m.control, x, false, k.isUser);
    ResolveGrantsWrites(ram, m.clean, m.control, x, false, k.isUser);
    SameLeafDirt(m.control, m.ram, ram, x);
  }

  lemma SameLeafDirt(control: Control, ram: seq<Byte>, ram': seq<Byte>, x: nat)
    requires |ram| <= MAX_RAM && Aligned(control.paging) && SameButMarks(control.paging, ram, ram')
    requires SameDirt(ram, ram')
    ensures LeafDirty(control, ram', x) == LeafDirty(control, ram, x)
  {
    hide SameButMarks, Dirty;
    MarksAreTransparent(control.paging, ram, ram', x);
    assert Translate(ram, control.paging, x).Mapped? ==>
        Translate(ram', control.paging, x).leaf == Translate(ram, control.paging, x).leaf;
    hide Translate;
  }

  lemma ReadOpensExactly(m: Machine, t: Machine, x: nat, answer: seq<Byte>, isUser: bool, r: ReadResult)
    requires Sizes(m) && |t.meta| == NUM_PAGES && Aligned(m.control.paging) && x + |answer| <= MAX_RAM
    requires ReadOutcome(m, t, x, answer, isUser, r)
    ensures !ReadOpens(m, x, |answer|, isUser) ==> OpensNone(m, t)
    ensures r.Value? ==> (OpensNone(m, t) <==> !ReadOpens(m, x, |answer|, isUser))
  {
    hide OnlyReads, BytesDelivered, ByteRead, OpensPage, Backed, ShouldTrap, ReadOnlyForUser, PageKept;
    if !OpensNone(m, t) {
      var p: nat :| p < NUM_PAGES && !PageKept(m, t, p) && !Traps(t, p, true, true) &&
        ReadOnlyForUser(m.control, m.ram, p * PAGE_SIZE);
      var y := OpenedPageRead(m, t, p, ReadOf(x, |answer|, isUser));
      assert ByteReadOpens(m, y, isUser);
    }
    if r.Value? {
      if y: nat :| x <= y < x + |answer| && ByteReadOpens(m, y, isUser) {
        assert ByteRead(m, t, y, isUser, Nth(r.bytes, x, y), Nth(answer, x, y));
        OpenedByRead(m, t, y, ReadOf(x, |answer|, isUser), Nth(r.bytes, x, y), Nth(answer, x, y));
      }
    }
  }

  lemma OpenedPageRead(m: Machine, t: Machine, p: nat, k: Access) returns (y: nat)
    requires Sizes(m) && |t.meta| == NUM_PAGES && Aligned(m.control.paging) && !k.isWrite && OnlyReads(m, t, k)
    requires p < NUM_PAGES && !PageKept(m, t, p) && !Traps(t, p, true, true)
    requires ReadOnlyForUser(m.control, m.ram, p * PAGE_SIZE)
    ensures k.Covers(y) && TrapsAt(m, y, false, k.isUser) && Backed(m, y, false, k.isUser)
    ensures OpensPage(m, y, false, k.isUser)
  {
    hide AccessFrom, Walked, LeafDirty, Physical, PageKept, MetadataBits, ShouldTrap, UserAllowed, ReadOnlyForUser;
    hide Denies;
    assert PageRead(m, t, p, k);
    var a: ResolvedAccess :| MappedBy(m, t.ram, t, a, p, k);
    y := a.emuAddr;
    AccessIsProper(m, t.ram, a, y, k);
    AccessFollows(m, t.ram, a, y, k);
    ReadGrantsWrites(m, t.ram, a, y, k);
    MetadataBitsMeaning(!a.user, !a.writable);
    TrapsWhenRequired(t.meta[p], true, true);
    PagewiseReadOnly(m.control, m.ram, y);
    ReadOnlyGrants(m.control, m.ram, y, k.isUser);
  }

  // Of a page that is read-only for user code, writes are granted exactly to the system with write protection off.
  lemma ReadOnlyGrants(control: Control, ram: seq<Byte>, x: nat, isUser: bool)
    requires ReadOnlyForUser(control, ram, x)
    ensures Denies(control, ram, x, true, isUser) <==> isUser || control.writeProtect
    ensures UserAllowed(control, ram, x)
  {
    hide Translate;
  }

  lemma OpenedByRead(m: Machine, t: Machine, y: nat, k: Access, b: Byte, answer: Byte)
    requires Sizes(m) && |t.meta| == NUM_PAGES && Aligned(m.control.paging) && !k.isWrite && OnlyReads(m, t, k)
    requires y < MAX_RAM && ByteRead(m, t, y, k.isUser, b, answer)
    requires TrapsAt(m, y, false, k.isUser) && Backed(m, y, false, k.isUser) && OpensPage(m, y, false, k.isUser)
    ensures !OpensNone(m, t)
  {
    hide AccessFrom, Walked, LeafDirty, Physical, MetadataBits, ShouldTrap, UserAllowed, ReadOnlyForUser, Denies;
    hide Backed;
    hide SameByte, SameAt, Target;
    var p := y / PAGE_SIZE;
    assert PageRead(m, t, p, k);
    assert !PageKept(m, t, p);
    var a: ResolvedAccess :| MappedBy(m, t.ram, t, a, p, k);
    var z := a.emuAddr;
    AccessIsProper(m, t.ram, a, z, k);
    AccessFollows(m, t.ram, a, z, k);
    ReadGrantsWrites(m, t.ram, a, z, k);
    PhysicalIsPagewise(m.control, m.ram, z, y);
    PagewiseReadOnly(m.control, m.ram, y);
    PagewiseReadOnly(m.control, m.ram, z);
    PagewiseDirt(m.control, m.ram, y);
    PagewiseDirt(m.control, m.ram, z);
    ReadOnlyGrants(m.control, m.ram, z, k.isUser);
    SameFrameOfPage(a.physAddr, z, y, m, k);
    MetadataBitsMeaning(!a.user, !a.writable);
    TrapsWhenRequired(t.meta[p], true, true);
  }

  lemma SameFrameOfPage(a: nat, z: nat, y: nat, m: Machine, k: Access)
    requires z / PAGE_SIZE == y / PAGE_SIZE && a % PAGE_SIZE == z % PAGE_SIZE
    requires Physical(m.control, m.ram, z) == Some(a) && Physical(m.control, m.ram, y).Some?
    ensures Physical(m.control, m.ram, y).value / PAGE_SIZE == a / PAGE_SIZE
  {
    hide Physical;
    PhysicalIsPagewise(m.control, m.ram, z, y);
    assert Physical(m.control, m.ram, y).value == a / PAGE_SIZE * PAGE_SIZE + y % PAGE_SIZE;
  }

  // ----- Read back where a frame stays clean

  // Bytes that agree in everything but what marks change.
  predicate SameButMark(b: Byte, b': Byte) { b % 32 == b' % 32 && b / 128 == b' / 128 }

  lemma SameByteAgrees(c: Paging, a: nat, b: Byte, b': Byte, marked: Byte)
    requires SameByte(c, a, b, marked) && SameByte(c, a, b', marked)
    ensures SameButMark(b, b')
  {
    LowBits(b, marked);
    LowBits(b', marked);
  }

  lemma LowBits(b: Byte, b': Byte)
    ensures b == b' || SameFlags(b, b') ==> SameButMark(b, b')
  {
    FiveBits(b);
    FiveBits(b');
  }

  lemma FiveBits(v: int)
    requires v >= 0
    ensures v % 32 == v % 16 + 16 * (v / 16 % 2)
    ensures v % 16 == v % 2 + 2 * (v / 2 % 2) + 4 * (v / 4 % 2) + 8 * (v / 8 % 2)
  {
    Nibble(v);
    assert v / 32 == v / 16 / 2;
  }

  // A write of which no byte goes away from RAM, or past the mapping of a second page, reads back up to marks, even if
  // the device wanted the frame to stay clean, in a state whose mappings are current and whose tables still say where
  // the bytes are.
  lemma ReadBackUpToMarks(m: Machine, t: Machine, t': Machine, x: nat, val: seq<Byte>, answer: seq<Byte>, isUser: bool,
                          advise: (nat, nat) -> Advice, r: ReadResult, n: nat)
    requires Sizes(m) && Inv(t) && |t'.meta| == NUM_PAGES && Aligned(m.control.paging) && Current(t)
    requires IsWidth(|val|) && x + |val| <= MAX_RAM && |answer| == |val| && n < |val|
    requires WriteOutcome(m, t, x, val, isUser, advise, Done) && ReadOutcome(t, t', x, answer, isUser, r) && r.Value?
    requires Physical(t.control, t.ram, x + n) == Physical(m.control, m.ram, x + n)
    requires var d := DestinationOf(m, x, n, |val|, isUser, advise); d.Through? || (d.Past? && StartOf(x, n) == x)
    ensures SameButMark(val[n], r.bytes[n])
  {
    hide Inv, Current, WriteTraced, Arrived, MadeAs, Physical, WriteDenied, HandedOver, ShouldTrap, SameByte;
    hide SameButMark;
    hide OnlyReads, BytesDelivered, DestinationOf;
    var y, d, k := x + n, DestinationOf(m, x, n, |val|, isUser, advise), ReadOf(x, |val|, isUser);
    SizesOf(t);
    SameMachine(m, t, x, val, isUser, advise);
    WriteIsLogged(m, t, x, val, isUser, advise, Done);
    assert ByteArrived(m, t, x, val, n, isUser, advise);
    assert ByteRead(t, t', y, isUser, Nth(r.bytes, x, y), Nth(answer, x, y));
    PlaceIsDestinationOfRead(m, t, x, val, n, isUser, advise);
    WalkedByte(t, t', k, d.addr);
    SameByteAgrees(t.control.paging, d.addr, val[n], r.bytes[n], t'.ram[d.addr]);
  }

  lemma SameMachine(m: Machine, t: Machine, x: nat, val: seq<Byte>, isUser: bool, advise: (nat, nat) -> Advice)
    requires |m.meta| == |m.clean| == |t.meta| == NUM_PAGES && IsWidth(|val|) && x + |val| <= MAX_RAM
    requires WriteOutcome(m, t, x, val, isUser, advise, Done)
    ensures t.control == m.control && t.devices == m.devices && |t.ram| == |m.ram|
  {
    hide Arrived, ByteArrived, Walked, Traced, CleanFramesAdvised, PagesAgree, MadeAs;
  }

  lemma WalkedByte(m: Machine, t: Machine, k: Access, a: nat)
    requires |m.meta| == |m.clean| == |t.meta| == NUM_PAGES && a < |m.ram| <= MAX_RAM && OnlyReads(m, t, k)
    requires Aligned(m.control.paging)
    ensures |t.ram| == |m.ram| && SameByte(m.control.paging, a, m.ram[a], t.ram[a])
  {
    hide Walked, PageRead, SameByte;
    WalkedMarks(m, k, t.ram);
  }

  // A read of the byte finds it in its place.
  lemma PlaceIsDestinationOfRead(m: Machine, t: Machine, x: nat, val: seq<Byte>, n: nat, isUser: bool,
                                 advise: (nat, nat) -> Advice)
    requires Sizes(m) && Inv(t) && |t.meta| == NUM_PAGES && Current(t) && x + |val| <= MAX_RAM && n < |val| <= 8
    requires t.control == m.control && t.devices == m.devices && |t.ram| == |m.ram| && m.log <= t.log
    requires Physical(t.control, t.ram, x + n) == Physical(m.control, m.ram, x + n)
    requires ByteArrived(m, t, x, val, n, isUser, advise)
    requires var d := DestinationOf(m, x, n, |val|, isUser, advise); d.Through? || (d.Past? && StartOf(x, n) == x)
    ensures var d := DestinationOf(m, x, n, |val|, isUser, advise);
            && d.addr < |t.ram| && t.ram[d.addr] == val[n]
            && Backed(t, x + n, false, isUser) && Destination(t, x + n, false, isUser) == Some(d.addr)
  {
    hide Inv, Current, Physical, HandedOver, ShouldTrap, Target;
    var y, d := x + n, DestinationOf(m, x, n, |val|, isUser, advise);
    TrapsWhenRequired(t.meta[y / PAGE_SIZE], true, isUser);
    TrapsWhenRequired(t.meta[y / PAGE_SIZE], false, isUser);
    if d.Past? {
      PageOfByte(x, n);
      PhysicalIsPagewise(m.control, m.ram, x, y);
      PhysicalOffset(m.control, m.ram, x);
      MovedWithin(Physical(m.control, m.ram, x).value, x, n);
      if !TrapsAt(t, y, false, isUser) { CurrentReadsAgree(t, y, isUser); }
    }
  }

  lemma MovedWithin(a: nat, x: nat, n: nat)
    requires a % PAGE_SIZE == x % PAGE_SIZE && x % PAGE_SIZE + n < PAGE_SIZE
    ensures a - x % PAGE_SIZE + (x + n) % PAGE_SIZE == a + n && (a + n) / PAGE_SIZE == a / PAGE_SIZE
  {
  }

  // ----- A page that is opened

  // A page directory at 0 and a table at 0x1000 map page 0 to frame 2, for user code to read only.
  function ReadOnlyPage(): seq<Byte> {
    seq(0x3000, i => if i == 0 || i == 0x1000 then 5 else if i == 1 then 0x10 else if i == 0x1001 then 0x20 else 0)
  }

  // Before any access.
  function Fresh(ram: seq<Byte>, control: Control): Machine {
    Machine(control, ram, seq(NUM_PAGES, _ => 0xff), AllClean(), map[], map[], map[], map[], [])
  }

  lemma FreshIsStrict(ram: seq<Byte>, control: Control)
    requires 0 < |ram| <= MAX_RAM && |ram| % PAGE_SIZE == 0
    ensures Inv(Fresh(ram, control)) && Current(Fresh(ram, control)) && Strict(Fresh(ram, control))
  {
    var m := Fresh(ram, control);
    forall p: nat | p < NUM_PAGES ensures Traps(m, p, true, true) && m.meta[p] & TRAP_ACCESS != 0 {
      TrapsWhenRequired(m.meta[p], true, true);
    }
  }

  lemma ReadOnlyPageTranslates(c: Paging)
    requires c == Paging(0, false, false)
    ensures Translate(ReadOnlyPage(), c, 0) == Mapped(0x2000, false, true, false, false, false, 0x1000)
  {
    var ram := ReadOnlyPage();
    assert InRam(ram, c, 0) && InRam(ram, c, 0x1000);
    assert ram[0] == 5 && ram[1] == 0x10 && ram[2] == 0 && ram[3] == 0;
    assert ram[0x1000] == 5 && ram[0x1001] == 0x20 && ram[0x1002] == 0 && ram[0x1003] == 0;
    hide ReadOnlyPage, BigBase;
    assert TableBase(ram, c, 0) == 0x1000 && TableBase(ram, c, 0x1000) == 0x2000;
    hide TableBase;
    assert PdeIndex(c, 0) == 0 && PteIndex(c, 0) == 0;
    assert TranslatePte(ram, c, 0, 0, 0x1000) == Mapped(0x2000, false, true, false, false, false, 0x1000);
  }

  // The system writes to that page, with write protection off. From then on user code writes to it without a trap,
  // although translation denies it.
  lemma SystemWriteOpensPage(v: Byte, advise: (nat, nat) -> Advice)
    requires advise(0x2000, 1) == DirtyOk
    ensures var m := Fresh(ReadOnlyPage(), Control(true, false, Paging(0, false, false)));
            var (r, ram') := Resolve(m.ram, m.clean, m.control, 0, true, false);
            && Inv(m) && Current(m) && Strict(m)
            && r.Resolved? && r.access.Page() < |m.meta| && r.access.Frame() < |m.clean|
            && var t := TrappedWrite(m.(ram := ram'), r.access, [v], advise).1;
               && Inv(t) && Current(t) && !TrapsAt(t, 0, true, true) && Denies(t.control, t.ram, 0, true, true)
  {
    var c := Paging(0, false, false);
    var m := Fresh(ReadOnlyPage(), Control(true, false, c));
    var (r, ram') := Resolve(m.ram, m.clean, m.control, 0, true, false);
    FreshIsStrict(m.ram, m.control);
    ReadOnlyPageTranslates(c);
    WalkIsTranslation(c, m.ram, 0, true);
    hide ReadOnlyPage, Translate, WalkTables;
    ResolveIsProper(m.ram, m.clean, m.control, 0, true, false);
    var s := m.(ram := ram');
    RamKeepsInv(m, ram');
    TrappedWriteIsTraced(s, r.access, [v], advise);
    var t := TrappedWrite(s, r.access, [v], advise).1;
    assert MappedFor(m, t, 0, true, false);
    OpensExactly(m, t, 0, true, false);
    MappingStaysCurrent(m, t, 0, true, false);
  }

  // ----- A byte that goes astray

  // With paging off and a device on the second frame, a write of two bytes at 0xFFF is prepared with both pages
  // resolved. The second byte belongs at 0x1000. Whatever the write does, the device receives that byte at 0x1001.
  lemma SecondByteGoesAstray(ram: seq<Byte>, b0: Byte, b1: Byte, isUser: bool, advise: (nat, nat) -> Advice)
    requires 0 < |ram| <= MAX_RAM && |ram| % PAGE_SIZE == 0
    ensures var m := Fresh(ram, Control(false, false, Paging(0, false, false))).(devices := map[1 := 0]);
            var first := Resolve(ram, m.clean, m.control, 0xFFF, true, isUser).0;
            var second := Resolve(ram, m.clean, m.control, 0x1000, true, isUser).0;
            && first.Resolved? && second.Resolved?
            && var w := PreparedWrite(true, Some(first.access), Some(second.access), [b0, b1], 0xFFF);
               && Inv(m) && Prepared(m, w, isUser) && MatchesPhysical(m, w, isUser)
               && Physical(m.control, ram, 0x1000) == Some(0x1000)
               && forall t: Machine :: m.log <= t.log && HandedOn(m, t, w, 1, advise) ==>
                    ToDevice(0x1001, [b1]) in t.log
  {
    var m := Fresh(ram, Control(false, false, Paging(0, false, false))).(devices := map[1 := 0]);
    FreshIsStrict(ram, Control(false, false, Paging(0, false, false)));
    forall t: Machine | m.log <= t.log ensures t.log[|m.log|..] == t.log {
    }
  }
}
