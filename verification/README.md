# Proofs about the emulator's core algorithms

This project states, in Dafny 4.11, what five independent parts of the emulator promise, and proves it for every input,
every run and every reachable state. Verify it with `dafny verify dfyconfig.toml`.

- **Strongly connected components** (`Graphs.dfy`, `Components.dfy`). Tarjan's algorithm without recursion: a frontier
  of half-consumed transition iterators, a node stack, and index, lowlink and on-stack marks. The class carries out the
  loops; each turn is a step on a state value that keeps one invariant (segments of the stack are mutually reachable,
  lowlinks bound every consumed transition that ends on the stack and are attained, emitted slices are components). From
  it follow maximality of every slice, reverse topological order, exactly-once emission and termination.
- **The software MMU** (`PageTables.dfy`, `Layouts.dfy`, `Metadata.dfy`, `Histories.dfy`, `Memory.dfy`,
  `Accesses.dfy`, `Writes.dfy`, `Reads.dfy`, `Agreement.dfy`, `Switches.dfy`, `Mem32.dfy`). Page walks over RAM bytes
  in the 32-bit and PAE layouts of the Intel SDM, Volume 3A, sections 4.3, 4.4 and 4.8; a lazily cleared map of trap
  bits; a table of host mappings that outlives invalidation; a set of clean frames; prepared writes that may span two
  pages; and a fast path around all of it. `Layouts` writes every walk out on little-endian words, marks included.
  `Memory` holds the state as a value and the invariant of every run, `Mem32` the methods that update it in place;
  `Writes` and `Reads` say what whole accesses may do, for every base of the tables, device and advice. A ghost table
  records what each page was last resolved to. A ghost history records advice, dirty marks, notifications, cleaning
  and stores in their order; it accounts for every clean bit, and for every RAM byte that a write changes apart from
  accessed and dirty marks. `Agreement` says when accesses that do not trap agree with translation, and how every
  access keeps that; `Switches` says what becomes of it when control state changes.
- **Encoding bit patterns** (`Bits.dfy`, `Instructions.dfy`, `InstructionOrder.dfy`, `Encodings.dfy`). Part values are
  scattered over an instruction's bits from right to left, with a fast path for whole bytes, and gathered again bit by
  bit. The two builders refine one description of each bit, and building and extracting are inverse.
- **Prefix automaton and decoder** (`Prefixes.dfy`, `Decoder.dfy`, `Packing.dfy`). The worklist over x86 prefix states,
  canonical prefix strings, the two memo tables of the decoder, and the interning of shared encoding components.
- **Wrap-around arithmetic** (`Areas.dfy`, `Deposit.dfy`). Intervals of 64-bit addresses that may wrap, and a PDEP loop
  that skips from one selected bit to the next.

Numbers are unbounded, so each wrap-around, truncation and width of the source is written out. A panic, an arithmetic
overflow that a checked build reports, and a failed `expect` are results (`None`, or a constructor of their own), not
preconditions, except where the source asserts the same of its callers.

## Main results

- `Components.StronglyConnectedComponents.IterateWithRoots`: exactly the strongly connected components of what the roots
  reach, once each, in reverse topological order.
- `Layouts.WalkExactly32`, `WalkExactlyPae`, `SmallPage32`, `SmallPagePae`, `WalkMarks`: what every walk finds, which
  rights the two levels give, and which marks it makes, in plain numbers for all memories and addresses.
- `PageTables.HistoryIsTransparent`: no history of accessed and dirty marks changes a translation.
- `MemoryUnit.Mem32.Write`, with `Writes.ExecutedIsMade`: whatever the base, the devices and their advice, a write that
  succeeds puts every byte in its place, through the mapping, past it, or into a device, and changes nothing else in RAM
  but marks; one that faults changes marks only. With an aligned base the places are those that translation says
  (`Writes.PlacesAreDestinations`). Every page is kept, or mapped by what the access's own walks resolved for it.
- `MemoryUnit.Mem32.Read` and `Write` also say exactly when they deliver or succeed, fault, or end the emulator, judged
  beforehand from the tables (`Reads.ReadFits`, `Writes.WriteFits`), and `Writes.WriteTells` what the device hears.
- `MemoryUnit.Mem32.ReadBack` and `Agreement.ReadBackUpToMarks`: what was written is read back, exactly if nothing was
  held back, and up to marks where a device wanted a frame to stay clean.
- `Histories.ChangedIsAdvised`: nothing in a clean frame changes before the device is asked.
- `Agreement.CurrentReadsAgree` and `CurrentWritesAgree`: what the fast path does is what a walk would grant, in every
  state whose mappings are current. `AccessStaysCurrent`, `AccessStaysStrict`: every read and write keeps it so,
  whatever devices its bytes meet.
- `Encodings.ExtractOfBuilt`, `BuiltOfExtracted` and `Instructions.BytesAreBits`: building and extracting are inverse,
  and the byte path is the bit path.
- `Prefixes.EdgesFollowFold` and `BytesAreShortest`: the automaton computes prefix states, and its strings are shortest.
- `Decoding.Decoder.LookupIteratively`, `Packing.UnpackOfPack`: whatever the memo tables hold, decoding looks at exactly
  the beginnings of the bytes that may be long enough and ends in the one way these call for; packing loses nothing.
- `Areas.OverlapsExactly`, `SharesPageExactly`, `Deposit.DepositBits`: what the arithmetic means, and when it fails.

Eight properties hold only under a condition, and each condition is proved exact:

- Accessed and dirty marks leave every translation alone exactly if the base is a multiple of 4 (32-bit paging) or at
  most 4 above a multiple of 8 (PAE), or lies so high that no entry can be read there. The base register is used as
  written, without masking, so other bases occur (`PageTables.TransparentIffAligned`).
- A write on the fast path is one that translation grants, except on a page that is read-only for user code and that the
  system made writable while write protection was off: from then on user code writes to it without a trap. Mapping an
  access opens its page in this way exactly under the condition in `Agreement.OpensExactly`, a whole write under that
  in `WriteOpensExactly`, and a read under that in `ReadOpensExactly`; `SystemWriteOpensPage` is a memory in which it
  happens.
- Switching paging, write protection or the page size extension invalidates nothing, and neither do their callers
  (sem86-core/src/emulator/mod.rs:1605-1643), so mappings made before may disagree with translation afterwards. After
  paging is switched they are current exactly if the tables map every page in use to itself (`Switches.PagingExactly`).
  After write protection is switched on they are exactly if the entries of every page open to writes grant them;
  switching it off does no harm (`WriteProtectExactly`). The extension matters with paging on in 32-bit mode only, and
  then they are current exactly if every page in use whose directory entry has the big-page bit is found at the same
  place with the same grants (`ExtensionExactly`). `PageOutlivesPaging`, `PageOutlivesProtection` and
  `PageOutlivesExtension` are memories in which mappings go stale.
- A byte of a split write that is handed to a device, or stored past the mapping on `DoNotMark` advice, is offset from
  the start of the write. It goes to its translated address exactly if it lies on the first page
  (`Writes.OffsetRightOnFirstPage`); `Agreement.SecondByteGoesAstray` is a write in which one does not.
- `overlaps_with` reaches its `expect` exactly if one of two areas wraps and each reaches the other's different start.
  That needs an area of more than 2^63 - 1 bytes, which its documentation excludes (`Areas.OverlapsExactly`).
- `crosses_page_bounds` is right exactly if the area is no larger than a page or its ends lie on different pages; its
  comment excludes sizes above 2^63 (`Areas.CrossesExactly`, `CrossesFailsWhenHuge`).
- `deposit_bits_u128` shifts out of range exactly for the selector 2^127 (`Deposit.DepositBits`).
- `pack` panics exactly if some kind of component has more than 2^16 different values, and `unpack` restores a list
  exactly if no encoding had metadata (`Packing.Pack`, `Packing.UnpackOfPack`).

Where code and documentation differ the model follows the code: `notify_memory_dirty` is documented to be called before
a page is marked dirty, but `mark_phys_frame_dirty` resets the clean bit first (sem86-arch/src/mem/mod.rs:68-71 and
526-530). In the history `Notified` therefore follows `MarkedDirty`, at once and before any store
(`Histories.NotifiedBeforeStore`).

## Model

| member | source | states |
|---|---|---|
| `Components.StronglyConnectedComponents.constructor` | sem86-core/src/codegen/components.rs:82-94 | A new run has visited nothing, emitted nothing, and satisfies the invariant. |
| `Components.StronglyConnectedComponents.StrongConnectNorec` | sem86-core/src/codegen/components.rs:19-74 | One search terminates, keeps the whole Tarjan invariant, visits its root, un-visits nothing, and only appends to what was emitted. |
| `Components.StronglyConnectedComponents.Tail` | sem86-core/src/codegen/components.rs:54-71 | Leaving the top of the frontier, with or without emitting, keeps the invariant, shortens the frontier by one and changes neither the index counter nor the visited nodes. |
| `Components.StronglyConnectedComponents.EmitSlice` | sem86-core/src/codegen/components.rs:57-65 | The callback gets exactly the topmost `num` stack nodes, which leave the stack; nothing else changes. |
| `Components.StronglyConnectedComponents.Drain` | sem86-core/src/codegen/components.rs:60-62 | Exactly the nodes of the slice lose their on-stack mark. |
| `Components.StronglyConnectedComponents.TakeOver` | sem86-core/src/codegen/components.rs:66-68 | The parent's lowlink becomes the smaller of its own and the child's. |
| `Components.StronglyConnectedComponents.IterateWithRoots` | sem86-core/src/codegen/components.rs:81-101 | For every finite graph and root list: each emitted slice is one strongly connected component, no node is emitted twice, components come in reverse topological order, and the emitted nodes are exactly those reachable from the roots. |
| `Components.StronglyConnectedComponents.Iterate` | sem86-core/src/codegen/components.rs:77-79 | The same with every node emitted exactly once. |
| `Components.EnterKeepsInv` | sem86-core/src/codegen/components.rs:38-47 | Entering an unvisited node, as a root or along a transition of the top, keeps the invariant. |
| `Components.PushKeepsInv` | sem86-core/src/codegen/components.rs:38-47 | Consuming a transition to an unvisited node keeps the invariant, and the index counter stays within the number of nodes. |
| `Components.TouchKeepsInv` | sem86-core/src/codegen/components.rs:48-50 | Consuming a transition to a node on the stack, lowering the lowlink to its index, keeps the invariant. |
| `Components.SkipKeepsInv` | sem86-core/src/codegen/components.rs:51-52 | Consuming a transition to an emitted node keeps the invariant. |
| `Components.LeaveReachesParent` | sem86-core/src/codegen/components.rs:65-68 | A node that leaves with a lowlink below its index is mutually reachable with the frontier node below it. |
| `Components.SliceClosed` | sem86-core/src/codegen/components.rs:56-63 | Every transition out of the slice ends in the slice or in a component emitted before. |
| `Components.SliceIsComponent` | sem86-core/src/codegen/components.rs:56-63 | When lowlink equals index, the stack above the node is exactly one strongly connected component. |
| `Components.EmitKeepsInv` | sem86-core/src/codegen/components.rs:56-65 | Emitting keeps the invariant. |
| `Components.OnlyUpperNodesLeave` | sem86-core/src/codegen/components.rs:56-68 | The bottom of the frontier always roots a component, so a node that does not has a parent. |
| `Components.IndexBounded` | sem86-core/src/codegen/components.rs:26-42 | The index counter never exceeds the number of nodes, so a 32-bit counter suffices for graphs of fewer nodes. |
| `Components.AllEmitted` | sem86-core/src/codegen/components.rs:96-100 | With an empty frontier everything visited is emitted, which is what the roots reach. |
| `Components.ReachesOnlyEarlier` | sem86-core/src/codegen/components.rs:76-101 | A component is emitted only after every other component it can reach. |
| `Components.SlicesAreMaximal` | sem86-core/src/codegen/components.rs:76-101 | Two emitted nodes are in one slice exactly when they are mutually reachable. |
| `Layouts.WalkExactly32` | sem86-arch/src/mem/mod.rs:670-771 | In 32-bit paging a walk, marking or not, is for every address and RAM the one written out on little-endian words: what it finds, with the flags of both levels, and every byte it stores. |
| `Layouts.WalkExactlyPae` | sem86-arch/src/mem/mod.rs:547-668 | The same in PAE mode, with a pointer level that is neither marked nor restricts access. |
| `Layouts.PdeExactly` | sem86-arch/src/mem/mod.rs:682-722 | The directory level on words: the entry is marked before it is looked at any further, so a big page is marked too. |
| `Layouts.PteExactly` | sem86-arch/src/mem/mod.rs:737-770 | The table level on words: writing and user access take the flag of both levels. |
| `Layouts.UnmarkedWalk` | sem86-arch/src/mem/mod.rs:538-545 | A walk that makes no marks changes nothing, and finds what translation says. |
| `Layouts.SmallPage32` | sem86-arch/src/mem/mod.rs:670-771 | Tables that map a page to frame n with flags f and g, as numbers: every address of it translates to n * 4096 plus its offset, writable exactly if bit 1 of both is set, for user code exactly if bit 2 of both is. |
| `Layouts.BigPage32` | sem86-arch/src/mem/mod.rs:701-722 | A directory entry for a 4 MiB page: bits 22 to 31 of the address are in place, bits 32 to 39 come from bits 13 to 20 of the entry. |
| `Layouts.SmallPagePae` | sem86-arch/src/mem/mod.rs:547-668 | The same for PAE tables, whose bits 52 and up are ignored, whatever the flags of the pointer. |
| `Layouts.BigPagePae` | sem86-arch/src/mem/mod.rs:584-608 | A PAE directory entry for a 2 MiB page. |
| `Layouts.AnyPage32` | sem86-arch/src/mem/mod.rs:670-771 | For every page, table, frame and flags whose two entries lie apart in RAM there are tables that map it so. |
| `Layouts.AnyPagePae` | sem86-arch/src/mem/mod.rs:547-668 | The same for the three entries of PAE tables. |
| `Layouts.WalkMarks` | sem86-arch/src/mem/mod.rs:547-771 | After a marking walk the accessed bit is set in every present directory entry it met, and in the leaf it found, small page or big; every byte that changed is the first of one of the two and has that bit. |
| `PageTables.WalkIsTranslation` | sem86-arch/src/mem/mod.rs:547-771 | With an aligned base a marking walk finds what translation says and writes nothing but marks, even when tables alias each other or themselves. |
| `PageTables.MarksAreTransparent` | sem86-arch/src/mem/mod.rs:121-127 | Memories that differ in accessed and dirty marks of present entries translate every address alike: same address, permissions and kind of fault. |
| `PageTables.TranslationIsPagewise` | sem86-arch/src/mem/mod.rs:652-770 | All addresses of a page translate alike up to the offset, big pages included. |
| `PageTables.HistoryOnlyMarks` | sem86-arch/src/mem/mod.rs:121-127 | Any history of walks and dirty marks writes nothing but marks. |
| `PageTables.HistoryIsTransparent` | sem86-arch/src/mem/mod.rs:121-127 | After any history of walks and dirty marks every address translates as before. |
| `PageTables.Misaligned32` | sem86-arch/src/mem/mod.rs:670-699 | For every 32-bit base that is not a multiple of 4, and whose first entry is addressable, there is a RAM of whole pages in which an accessed bit moves a page. |
| `PageTables.MisalignedPae` | sem86-arch/src/mem/mod.rs:547-650 | For every PAE base more than four bytes above a multiple of 8, and whose first pointer is addressable, there is a RAM of whole pages in which an accessed bit moves a directory. |
| `PageTables.TransparentIffAligned` | sem86-arch/src/mem/mod.rs:547-771 | For every value of the base register and RAM of whole pages: no walk disturbs a translation exactly when base mod 4 is 0 (32-bit) or base mod 8 is at most 4 (PAE), or no entry at the base is addressable. |
| `PageTables.WalkOnlyMarks` | sem86-arch/src/mem/mod.rs:547-771 | Whatever the base, a walk does no more than set accessed bits. |
| `PageTables.DirtyStays` | sem86-arch/src/mem/mod.rs:121-127 | With an aligned base a translation once dirty stays dirty. |
| `Histories.ChangedIsAdvised` | sem86-arch/src/mem/mod.rs:954-1059 | In an announced history, of a frame that was clean neither a byte nor the clean bit changes before the device is asked about the frame. |
| `Histories.TouchedIsAdvised` | sem86-arch/src/mem/mod.rs:954-1059 | Whatever touches a frame that was clean, advice for the frame came before the first touch. |
| `Histories.UntouchedKeeps` | sem86-arch/src/mem/mod.rs:954-1059 | Up to the first touch the frame holds what it held. |
| `Histories.AnnouncedConcat` | sem86-arch/src/mem/mod.rs:954-1059 | Announced histories follow each other. |
| `Histories.NotifiedBeforeStore` | sem86-arch/src/mem/mod.rs:65-71 | Between a frame being marked dirty and the next store of any kind the device is notified of the frame; every history that a write leaves is of this kind. |
| `Metadata.TrapsWhenRequired` | sem86-arch/src/mem/metadata.rs:17-62 | An access is trapped exactly when a bit that it requires to be clear is set. |
| `Metadata.MetadataMap.constructor` | sem86-arch/src/mem/metadata.rs:150-179 | The map starts out with every page trapping everything. |
| `Metadata.MetadataMap.Initialize` | sem86-arch/src/mem/metadata.rs:174-179 | Initializing arbitrary bytes gives all entries 0xff and no modified chunk. |
| `Metadata.MetadataMap.Set` | sem86-arch/src/mem/metadata.rs:165-171 | One entry changes and its chunk is flagged; an unflagged chunk stays all 0xff. |
| `Metadata.MetadataMap.Clear` | sem86-arch/src/mem/metadata.rs:182-192 | All 2^20 entries are 0xff afterwards although only flagged chunks are rewritten, and no flag remains. |
| `Metadata.MetadataMap.EnableForAll` | sem86-arch/src/mem/metadata.rs:194-205 | Every entry gains the extra bits although only flagged chunks are touched. |
| `Memory.ResolveIsProper` | sem86-arch/src/mem/mod.rs:773-846 | A resolved access keeps the page offset, is writable without a write only if its frame is dirty, and needs a dirty mark exactly for a write to a clean frame. |
| `Memory.ResolveFollowsTranslation` | sem86-arch/src/mem/mod.rs:773-846 | Resolving faults exactly when translation denies the access, with that fault's code; otherwise it finds the translated address and user permission, and writes only marks. |
| `Memory.ResolveGrantsWrites` | sem86-arch/src/mem/mod.rs:800-840 | A resolved page may be written exactly if the access is a write, or a write would be granted too, the entry is dirty and the frame is dirty; then a write is granted at that privilege and the entry is left dirty. |
| `Memory.ResolveOnlyMarks` | sem86-arch/src/mem/mod.rs:773-846 | Whatever the base, resolving sets accessed and dirty bits only. |
| `Memory.ResolveFailsExactly` | sem86-arch/src/mem/mod.rs:773-846 | Whatever the base, resolving ends the emulator exactly if the walk meets an entry beyond RAM, or grants the access to a frame at or above 2^20; with an aligned base, exactly if translation does. |
| `Memory.ResolveMarksDirty` | sem86-arch/src/mem/mod.rs:826-830 | Whatever the base, beside its walk a resolution stores only the dirty bit of the leaf: for a write that is granted and found it clear; after a write that resolves, it is set. |
| `Memory.WalkedMarks` | sem86-arch/src/mem/mod.rs:547-846 | Whatever addresses of an access are resolved in whatever order, accessed and dirty bits are all that changes, and with an aligned base only in present entries. |
| `Memory.ReadWalksSameDirt` | sem86-arch/src/mem/mod.rs:547-846 | The walks of a read set no dirty bit. |
| `Memory.InstallKeepsInv` | sem86-arch/src/mem/mod.rs:930-944 | Installing a mapping keeps soft-TLB coherence, and the page then traps no access that the resolution permits. |
| `Memory.InvalidatedKeepsInv` | sem86-arch/src/mem/mod.rs:465-470 | Invalidating all pages keeps coherence although the host mappings and their table stay; every page then traps. |
| `Memory.InvalidatePageKeepsInv` | sem86-arch/src/mem/mod.rs:473-477 | Invalidating one page keeps coherence. |
| `Memory.CleaningKeepsInv` | sem86-arch/src/mem/mod.rs:500-519 | Frames may be made clean once every page traps writes. |
| `Memory.HappenedKeepsInv` | sem86-arch/src/mem/mod.rs:526-535 | Any announced event keeps the invariant: the history accounts for every clean bit, and everything that touched a clean frame was announced. |
| `Memory.RamKeepsInv` | sem86-arch/src/mem/mod.rs:676-678 | The unrecorded stores of walks keep the invariant. |
| `Memory.TrappedWriteIsTraced` | sem86-arch/src/mem/mod.rs:954-1059 | A trapped write keeps the invariant, and RAM and clean frames change as its announced events say. |
| `Writes.TrappedWriteMaps` | sem86-arch/src/mem/mod.rs:1018-1057 | If it leaves the write to be made, RAM backs the access, the page is mapped by it, no frame becomes clean, and this access no longer traps. |
| `Writes.PartResolved` | sem86-arch/src/mem/mod.rs:1164-1189 | One part of a prepared write: announced; through the mapping, past it or not to RAM exactly as devices, RAM size, dirty mark and the advice for this part say; RAM changes in those bytes only; its page is mapped by its access or kept accordingly, and every other page is kept. |
| `Writes.WrittenAgree` | sem86-arch/src/mem/mod.rs:1150-1191 | Making a prepared write maps pages only by what was resolved for them, whatever device or advice its bytes meet and whatever the base. |
| `Writes.PartHandsOn` | sem86-arch/src/mem/mod.rs:954-1044 | What a part does not leave to the mapping is handed to its device, to nowhere, or past the mapping after the device was asked and said `DoNotMark`. |
| `Writes.ExecutedIsMade` | sem86-arch/src/mem/mod.rs:1150-1191 | A prepared write, in one piece or byte by byte, for every base, device and advice: RAM afterwards holds each byte in its place and is otherwise unchanged; each byte that goes through is held where its page is mapped, each that does not is handed on; a page is mapped only if a byte goes through it. |
| `Writes.PutFirstMeaning` | sem86-arch/src/mem/mod.rs:1164-1178 | A RAM byte is what was put there last, and what it was before if no byte of the write has its place there. |
| `Writes.PlacesApart` | sem86-arch/src/mem/mod.rs:1164-1178 | No later byte of a write is put where an earlier one went through the mapping, or past it on the first page. |
| `Memory.UntrappedStoreIsTraced` | sem86-arch/src/mem/mod.rs:1441-1445 | A store to pages that do not trap reaches no clean frame and is recorded. |
| `Memory.TracedIsAdvised` | sem86-arch/src/mem/mod.rs:954-1059 | Of a frame that was clean, nothing but marks changes before the device is asked about it. |
| `Accesses.AccessFollows` | sem86-arch/src/mem/mod.rs:773-846 | With an aligned base, what is resolved for an address amid the other walks of an access is what translation called for before them, permissions included. |
| `Accesses.UntouchedPageKept` | sem86-arch/src/mem/mod.rs:848-890 | A page in which an access covers no address keeps its mapping, trap bits and recorded resolution, whatever the access met elsewhere. |
| `Accesses.MappedIsInstalled` | sem86-arch/src/mem/mod.rs:848-890 | A page that such a resolution mapped is mapped where translation said, with its permissions, and translation grants the access. |
| `Accesses.FailureIsOutOfRange` | sem86-arch/src/mem/mod.rs:773-846 | Whatever the base, an access that fails made a walk, of an address that trapped, that was out of range. |
| `Memory.UntrappedTarget` | sem86-arch/src/mem/mod.rs:1409-1445 | An untrapped byte is host-mapped to the RAM frame of its page's latest resolution, and to a dirty one for a write: a stale mapping is never read through. |
| `Memory.UntrappedReachesDirty` | sem86-arch/src/mem/mod.rs:1448-1457 | No write on the fast path reaches a clean frame. |
| `Accesses.EndsUntrapped` | sem86-arch/src/mem/mod.rs:1409-1426 | Checking the first byte, and the last unless the access is aligned, covers every byte of the access. |
| `Writes.PlacesAreDestinations` | sem86-arch/src/mem/mod.rs:1150-1191 | With an aligned base the places of a prepared write are those that translation, devices and advice give beforehand: an untrapped byte where the host maps it, a trapped one at its translated address or where it is handed on. |
| `Writes.OffsetRightOnFirstPage` | sem86-arch/src/mem/mod.rs:1164-1178 | The address to which a byte of a split write is handed on is its translated one exactly if it lies on the first page. |
| `Writes.HeldByHistory` | sem86-arch/src/mem/mod.rs:1448-1457 | Whatever the base, if the history shows no device write, no dropped write and no `DoNotMark` answer, every byte of a successful write is mapped for writing to a RAM byte that holds it. |
| `Writes.HeldByTranslation` | sem86-arch/src/mem/mod.rs:1448-1457 | With an aligned base the same follows beforehand, if every byte goes through the mapping by translation, devices and this write's advice. |
| `Writes.ExecutedTells` | sem86-arch/src/mem/mod.rs:1150-1191 | Whatever the base, a prepared write tells exactly this, in this order: each piece for a device is sent to it once, each for no memory is lost once, and for each piece that needs a dirty mark the device is asked once and, if it agrees and the frame is still clean, notified once. |
| `Writes.PreparedAsTranslated` | sem86-arch/src/mem/mod.rs:1150-1191 | With an aligned base what a prepared write tells is what translation, devices and clean frames say beforehand. |
| `Writes.WriteTells` | sem86-arch/src/mem/mod.rs:954-1059 | With an aligned base a successful write tells no more and no less than that, and exactly the frames so marked are no longer clean. |
| `Reads.ReadBackAfterWrite` | sem86-arch/src/mem/mod.rs:1429-1457 | A read of bytes that are mapped for writing and held delivers them and changes nothing. |
| `Reads.DeliveredIsRead` | sem86-arch/src/mem/mod.rs:1087-1109 | With an aligned base a delivered byte is the one at its translated address, up to marks, or what the device there answers, or ones; and translation grants it. |
| `Reads.SliceStep` | sem86-arch/src/mem/mod.rs:1219-1225 | Whatever the base, one byte more keeps what a split read says of its pages and of the bytes delivered before. |
| `Agreement.CurrentReadsAgree` | sem86-arch/src/mem/mod.rs:1429-1433 | While mappings are current, an untrapped read is one that translation grants, and goes to the translated address. |
| `Agreement.CurrentWritesAgree` | sem86-arch/src/mem/mod.rs:1441-1457 | While mappings are current, an untrapped write goes to the translated address through a dirty entry and is granted to the system; to user code it is denied exactly on a page that is read-only for it, and then write protection is off. |
| `Agreement.StrictExactly` | sem86-arch/src/mem/mod.rs:1409-1457 | A current state is strict exactly if translation grants every access that does not trap. |
| `Agreement.SuccessIsGranted` | sem86-arch/src/mem/mod.rs:1193-1207 | A write that succeeds is granted by translation on both pages, for the system in any current state, for user code in a strict one. |
| `Agreement.OpensExactly` | sem86-arch/src/mem/mod.rs:797-840 | Mapping a resolved access opens its page to denied user writes exactly if the system made the access, with write protection off, to a page read-only for user code; for a read, also through a dirty entry to a dirty frame. |
| `Agreement.StaysStrictExactly` | sem86-arch/src/mem/mod.rs:797-840 | A strict state stays strict exactly if the access does not open its page in that way. |
| `Agreement.WriteOpensExactly` | sem86-arch/src/mem/mod.rs:1193-1207 | A successful write opens a page to denied user writes exactly if, judged before it, some trapped byte on a page read-only for user code goes through the mapping. |
| `Agreement.ReadOpensExactly` | sem86-arch/src/mem/mod.rs:1087-1109 | A read that delivers opens one exactly if some trapped byte that RAM backs lies on a page that the system could write, read-only for user code, with entry and frame dirty; a faulting read opens none unless that is so. |
| `Agreement.ReadGrantsWrites` | sem86-arch/src/mem/mod.rs:800-840 | What a read resolves amid its walks may be written exactly if, before the read, a write was granted and entry and frame were dirty. |
| `Agreement.ReadBackUpToMarks` | sem86-arch/src/mem/mod.rs:1025-1044 | A byte that a device wanted stored without marking its frame, on the first page, is read back up to marks while mappings are current and translation of the byte has not changed. |
| `Agreement.SystemWriteOpensPage` | sem86-arch/src/mem/mod.rs:797-802 | A memory in which one system write leaves user code able to write, without a trap, to a page whose translation denies it. |
| `Agreement.MappingStaysCurrent` | sem86-arch/src/mem/mod.rs:930-944 | Mapping a resolved access keeps every mapping current. |
| `Agreement.AccessStaysCurrent` | sem86-arch/src/mem/mod.rs:848-890 | Whatever devices, missing memory or advice an access meets: once its walks have set their marks, every mapping is current, write permission and dirty entries included. |
| `Agreement.AccessStaysStrict` | sem86-arch/src/mem/mod.rs:797-840 | It leaves a strict state strict exactly if no page that it mapped became open to writes by user code while read-only for it. |
| `Agreement.NoneOpened` | sem86-arch/src/mem/mod.rs:797-802 | An access by user code opens no page in this way, nor does any with write protection on or paging off. |
| `Agreement.KeptTablesAreAlike` | sem86-arch/src/mem/mod.rs:652-770 | Stores that change no entry a translation goes through leave every translation, and so agreement, as it was. |
| `Agreement.ReadsAgree` | sem86-arch/src/mem/mod.rs:1087-1109 | Every read with an aligned base keeps mappings current, and keeps strict exactly under that condition. |
| `Agreement.WritesAgree` | sem86-arch/src/mem/mod.rs:1193-1207 | So does every write, faulting or not, to RAM, devices or nothing, held back or not, before its bytes reach page tables; and after that if they leave every translation as it was. |
| `Agreement.MoreTrapsStayCurrent` | sem86-arch/src/mem/mod.rs:473-519 | Cleaning frames and invalidating a page keep current and strict. |
| `Switches.PagingExactly` | sem86-arch/src/mem/mod.rs:439-441 | After paging is switched, mappings are current exactly if nothing changed or the tables map every page in use to itself, for user code, granting the writes it is open to. |
| `Switches.WriteProtectExactly` | sem86-arch/src/mem/mod.rs:447-449 | After write protection is switched, they are current exactly if it is off now or the entries of every page open to writes grant them; strictness does not change. |
| `Switches.ExtensionExactly` | sem86-arch/src/mem/mod.rs:451-453 | After the page size extension is switched, they are current exactly if nothing changed, paging is off, the mode is PAE, or every page in use with a big-page directory entry is found alike. |
| `Switches.StrictUnlessReadOnly` | sem86-arch/src/mem/mod.rs:1409-1457 | A current state is strict exactly if no page open to writes by user code is read-only for it; this holds after a switch too. |
| `Switches.PageOutlivesPaging` | sem86-core/src/emulator/mod.rs:1633-1643 | A page read with paging off stays readable after paging is switched on over tables that deny it. |
| `Switches.PageOutlivesProtection` | sem86-core/src/emulator/mod.rs:1633-1643 | A page written by the system stays writable for it after write protection is switched on and denies it. |
| `Switches.PageOutlivesExtension` | sem86-core/src/emulator/mod.rs:1605-1617 | A page read through its table goes on being read there after the extension makes its directory entry a big page elsewhere. |
| `Agreement.SecondByteGoesAstray` | sem86-arch/src/mem/mod.rs:1164-1178 | A prepared two-byte write at 0xFFF with a device on the second frame: the byte for 0x1000 reaches the device at 0x1001. |
| `MemoryUnit.Mem32.constructor` | sem86-arch/src/mem/mod.rs:220-322 | The unit starts with every frame clean, every page trapped, RAM as given, and a current and strict state. |
| `MemoryUnit.Mem32.InvalidateAllPages` | sem86-arch/src/mem/mod.rs:465-470 | All pages trap and nothing else changes; the state is current and strict. |
| `MemoryUnit.Mem32.InvalidatePage` | sem86-arch/src/mem/mod.rs:473-477 | One page traps and its resolution is forgotten; nothing else changes, and current and strict states stay so. |
| `MemoryUnit.Mem32.CleanPhysFrameRange` | sem86-arch/src/mem/mod.rs:510-519 | Exactly the frames of the range become clean, which is recorded, and every page traps writes; current and strict states stay so. |
| `MemoryUnit.Mem32.SetPageDirectoryBase` | sem86-arch/src/mem/mod.rs:431-437 | The base is set as written and every page invalidated. |
| `MemoryUnit.Mem32.EnablePaging` | sem86-arch/src/mem/mod.rs:439-441 | Paging is switched and no page invalidated; the invariant holds, and mappings stay current exactly under the stated condition. |
| `MemoryUnit.Mem32.SetSystemWriteProtect` | sem86-arch/src/mem/mod.rs:447-449 | Write protection is switched and no page invalidated; mappings stay current exactly under the stated condition, and strictness does not change. |
| `MemoryUnit.Mem32.SetPageSizeExtension` | sem86-arch/src/mem/mod.rs:451-453 | The page size extension is switched and no page invalidated; mappings stay current exactly under the stated condition. |
| `MemoryUnit.Mem32.EnablePhysicalAddressExtension` | sem86-arch/src/mem/mod.rs:455-463 | Pages are invalidated exactly when the mode changes. |
| `MemoryUnit.Mem32.MapPhysicalMemory` | sem86-arch/src/mem/mod.rs:382-423 | The frames change owner, become clean, and every page is invalidated. |
| `MemoryUnit.MapFrames` | sem86-arch/src/mem/mod.rs:382-423 | Exactly the frames of the range change owner. |
| `MemoryUnit.Mem32.PageWalk` | sem86-arch/src/mem/mod.rs:538-545 | The walk of the mode in force, with its stores, on little-endian words. |
| `MemoryUnit.Mem32.PageWalkPae` | sem86-arch/src/mem/mod.rs:547-668 | The in-place PAE walk computes the walk written out on words, result and stores. |
| `MemoryUnit.Mem32.PageWalkNonPae` | sem86-arch/src/mem/mod.rs:670-771 | The in-place 32-bit walk computes the walk written out on words, result and stores. |
| `MemoryUnit.Mem32.WalkDirectory` | sem86-arch/src/mem/mod.rs:682-722 | The directory level on words: missing entry, accessed mark, and then big page or table level. |
| `MemoryUnit.Mem32.WalkTable` | sem86-arch/src/mem/mod.rs:737-770 | The table level on words: the page may be written, or used by user code, exactly if both levels say so; then the accessed mark. |
| `MemoryUnit.Mem32.ResolveAccessAddress` | sem86-arch/src/mem/mod.rs:773-846 | The in-place resolution computes the resolution function. |
| `MemoryUnit.Mem32.MapAddressBeforeAccess` | sem86-arch/src/mem/mod.rs:848-890 | The host maps the page to the frame, whether or not the mapping had to be made again. |
| `MemoryUnit.Mem32.InstallMapping` | sem86-arch/src/mem/mod.rs:1046-1051 | Trap bits, host mapping and recorded resolution change together, keeping the invariant. |
| `MemoryUnit.Mem32.HandleTrappedLinearMemoryRead` | sem86-arch/src/mem/mod.rs:903-951 | Devices answer, addresses beyond RAM read as all ones, and RAM is mapped; exactly one of the three. |
| `MemoryUnit.Mem32.HandleTrappedLinearMemoryWrite` | sem86-arch/src/mem/mod.rs:954-1059 | It is the step TrappedWrite, events included: a device or missing memory takes the write; a write that needs a dirty mark asks the device first and, by its answer, stores past the mapping or marks the frame and maps the page. |
| `MemoryUnit.Mem32.MarkPhysFrameDirty` | sem86-arch/src/mem/mod.rs:526-535 | The frame is dirty afterwards; if it was clean this is recorded, right after the advice for it, the device is notified next, and the change is reported. |
| `MemoryUnit.Mem32.StorePhysical` | sem86-arch/src/mem/mod.rs:1033-1043 | Exactly these bytes change, which is recorded, right after the advice for them. |
| `MemoryUnit.Mem32.Advise` | sem86-arch/src/mem/mod.rs:1025-1030 | The device is asked about this address and length, its answer is recorded, and no memory changes. |
| `MemoryUnit.Mem32.PreparePage` | sem86-arch/src/mem/mod.rs:1118-1143 | A page of a write is resolved exactly if it traps, which is all that changes RAM; it faults exactly if translation denies it, with that fault, and fails exactly if translation is out of range. |
| `MemoryUnit.Mem32.PrepareWrite` | sem86-arch/src/mem/mod.rs:1113-1147 | Both pages are resolved before any byte is written, which is all that changes RAM. With an aligned base the write can be made exactly if no page that traps is denied or out of range; otherwise the first that is decides between fault and failure. Whatever the base, a fault or failure is that of one of the two walks. |
| `MemoryUnit.Mem32.WritePart` | sem86-arch/src/mem/mod.rs:1164-1189 | One part of a prepared write, as the step PartAfter: trapped first if its access was resolved, and stored through the mapping unless that took care of it. |
| `MemoryUnit.Mem32.ExecutePreparedWrite` | sem86-arch/src/mem/mod.rs:1150-1191 | The in-place write computes the step function of a prepared write, in one piece or byte by byte; every byte goes where its access was resolved to or its page mapped before, for every device and advice, and RAM changes nowhere else. |
| `MemoryUnit.Mem32.WriteSlow` | sem86-arch/src/mem/mod.rs:1193-1207 | Same outcome as Write. |
| `MemoryUnit.Mem32.Write` | sem86-arch/src/mem/mod.rs:1448-1457 | All or nothing: with an aligned base it succeeds exactly if no page that traps is denied, has tables beyond RAM or a frame at or above 2^20, and the first page that is decides between fault and failure; whatever the base, a fault or failure is that of one of its walks, and changes marks only. If it succeeds then, whatever the base, devices and advice, every byte is in its place, through the mapping, past it, or handed to a device or to nowhere, and nothing else in RAM has changed but by the write's own walks; with an aligned base the places are those that translation says, and the device hears what translation says, no more and no less. RAM changes by recorded stores, of a clean frame not before the device is asked. Every page is kept, or trapped and is mapped by what was resolved for it; current mappings stay current, and pages open to user code exactly under the stated condition. |
| `MemoryUnit.Mem32.MultibyteAccessCanUseFastPath` | sem86-arch/src/mem/mod.rs:1409-1426 | The fast-path test holds exactly if no byte of the access traps. |
| `MemoryUnit.Mem32.WriteUnchecked` | sem86-arch/src/mem/mod.rs:1441-1445 | The bytes land at the host mapping of their pages, which is recorded, and nothing else changes. |
| `MemoryUnit.Mem32.Read` | sem86-arch/src/mem/mod.rs:1429-1438 | Untrapped reads deliver what the host maps and change nothing. Whatever the base, RAM changes only by the read's own walks, every page is kept or mapped by what was resolved for it, and every byte is the one mapped there, up to marks, or the answer of the device, or 0xFF where there is no memory; with an aligned base the one translation calls for. With an aligned base it delivers exactly if every byte that traps is granted, has tables in RAM and a frame below 2^20; the first byte of which this fails decides between fault and failure; and current mappings stay current. Whatever the base, a fault or failure is that of one of its walks. |
| `MemoryUnit.Mem32.ReadSlow` | sem86-arch/src/mem/mod.rs:1087-1109 | Same outcome as Read. |
| `MemoryUnit.Mem32.ReadPage` | sem86-arch/src/mem/mod.rs:1093-1102 | A trapped read within a page has the same outcome. |
| `MemoryUnit.Mem32.ReadSlice` | sem86-arch/src/mem/mod.rs:1219-1225 | A read across pages, byte by byte, has the same outcome for all its bytes. |
| `MemoryUnit.Mem32.ReadBack` | sem86-arch/src/mem/mod.rs:1077-1084 | A successful write followed by a read of the same width and privilege delivers the value, also across a page boundary: for every base if the history shows that no device, missing memory or `DoNotMark` answer held a byte back, and with an aligned base if none does by translation and this write's advice. |
| `Instructions.Instruction.SetNthBitFromRight` | liblisa/src/instr/mod.rs:167-171 | Exactly the bit counted from the right changes. |
| `Instructions.SetBitsMeaning` | liblisa/src/instr/mod.rs:173-186 | Placing bits one at a time puts bit i of the data at index + i and keeps all other bits. |
| `Instructions.BytesAreBits` | liblisa/src/instr/mod.rs:176-186 | Bytes placed whole, from right to left, are the same instruction as their bits placed one at a time. |
| `Instructions.SetMultipleBitsFromRight` | liblisa/src/instr/mod.rs:176-186 | The byte-run routine leaves what the single-bit routine leaves when called that many times. |
| `InstructionOrder.Cmp` | liblisa/src/instr/mod.rs:261-294 | The loop decides the first difference of the zero-padded strings. |
| `InstructionOrder.Trichotomy` | liblisa/src/instr/mod.rs:261-294 | At most one of less, equal and greater holds. |
| `InstructionOrder.BelowTrans` | liblisa/src/instr/mod.rs:261-294 | The order is transitive, also mixed with equality. |
| `InstructionOrder.AtMostTotal` | liblisa/src/instr/mod.rs:261-294 | Any two instructions are comparable. |
| `InstructionOrder.Next` | liblisa/src/instr/mod.rs:203-222 | The result is at most as long, does not end in a zero, is above the instruction and every extension of it, and least among those above; there is none exactly when all bytes are 0xFF. |
| `Encodings.Instr` | liblisa/src/encoding/mod.rs:942-961 | The current instruction has the parts' values, fixed bits and zeros in their places. |
| `Encodings.PlaceRun` | liblisa/src/encoding/mod.rs:541-557 | A run of a part, placed at once, leaves the instruction and the residual value that single bits leave. |
| `Encodings.ShiftRun` | liblisa/src/encoding/mod.rs:545-553 | What is left of the values after a run at once is what single bits leave. |
| `Encodings.WordUsedUp` | liblisa/src/encoding/mod.rs:549-553 | A run of 64 bits uses up its value, so setting the residual to zero is the shift that cannot be made. |
| `Encodings.PartValuesToInstrInternal` | liblisa/src/encoding/mod.rs:524-568 | The builder for optional values leaves each bit as the pattern says and of each value what its part did not take. |
| `Encodings.PartValuesToInstr` | liblisa/src/encoding/mod.rs:504-515 | It panics exactly when a value does not fit its part. |
| `Encodings.AllPartValuesToInstr` | liblisa/src/encoding/mod.rs:570-610 | The builder for all values: same instruction, and a panic exactly when a value does not fit. |
| `Encodings.TryExtractParts` | liblisa/src/encoding/mod.rs:994-1053 | It succeeds exactly on covered instructions, with the gathered values; otherwise it names the length, the first differing fixed bit, or, if all fixed bits match, the first invalid value. |
| `Encodings.ExtractOfBuilt` | liblisa/src/encoding/mod.rs:570-1053 | Extracting from the built instruction gives back valid values that fit. |
| `Encodings.ExtractOfChosen` | liblisa/src/encoding/mod.rs:524-1053 | From any built instruction the values chosen are extracted, and the current values of parts that were not chosen, as far as they fit; its fixed bits match. |
| `Encodings.ExtractOfCurrent` | liblisa/src/encoding/mod.rs:942-1053 | The current instruction of an encoding whose part values fit and are valid is covered by it, and gives these values. |
| `Encodings.BuiltOfExtracted` | liblisa/src/encoding/mod.rs:570-1053 | Rebuilding from extracted parts gives the instruction with its DontCare bits zeroed. |
| `Encodings.BuiltIsUnique` | liblisa/src/encoding/mod.rs:524-610 | Both builders give the same instruction. |
| `Deposit.DepositBits` | liblisa/src/utils/mod.rs:59-74 | The loop terminates and gives PDEP, except for the single bit 2^127, whose last shift is out of range. |
| `Prefixes.FoldIsSummary` | semgen/src/context.rs:246-271 | The state after a string is its last segment byte, last rep byte and the presence of 66, 67 and F0, as far as the encoding uses them. |
| `Prefixes.AgreeingStringsMeet` | semgen/src/context.rs:246-271 | Strings that agree on these reach the same state. |
| `Prefixes.BytesReplay` | semgen/src/context.rs:273-281 | Replaying the bytes of a reached state reaches it again. |
| `Prefixes.BytesAreShortest` | semgen/src/context.rs:273-281 | No shorter string reaches the state. |
| `Prefixes.BytesInOrder` | semgen/src/context.rs:273-281 | The bytes of a reached state come in the order segment, 66, 67, F0, rep, at most one of each. |
| `Prefixes.ComputeStates` | semgen/src/context.rs:284-306 | The worklist terminates with exactly the reachable states, which are closed under the next byte. |
| `Prefixes.EdgesFrom` | semgen/src/context.rs:396-399 | The index lookup never misses, and every prefix byte has an edge to the node of the next state. |
| `Prefixes.ComputeAutomaton` | semgen/src/context.rs:284-401 | Nodes are the reachable states and edges the transitions between them. |
| `Prefixes.EdgesFollowFold` | semgen/src/context.rs:396-401 | Following the edges over any prefix string ends at the node of its state and nowhere else. |
| `Prefixes.LabelNodes` | semgen/src/context.rs:360-395 | Each node gets the first possible string that reaches it, or none; the encoding is dropped exactly when a possible string is longer than needed. |
| `Prefixes.LabelsAreEquivalent` | semgen/src/context.rs:362-401 | The label of the node that a prefix string leads to is an equivalent string that is no longer. |
| `Decoding.Decoder.Lookup` | sem86-core/src/decoder.rs:327-381 | For any contents of the tables: a found encoding is the one of the instruction map, with nothing missing; otherwise the map has none, or the answer is what is wrong with its encoding. Exactly that answer is recorded. |
| `Decoding.Decoder.LookupIteratively` | sem86-core/src/decoder.rs:405-478 | For any contents of the tables and any byte source the bytes taken are those delivered, in order. A beginning of them is looked up exactly unless a shorter one was and asked for more bytes than there are; every shorter one that was looked up had no encoding or asked for more; and each of the five results comes in its case. What asked for more, and what was found, is in the tables afterwards. |
| `Decoding.Decoder.LookupOnce` | sem86-core/src/decoder.rs:439-473 | One lookup of the loop: the answer without tables, whether an encoding was found at all, and exactly that recorded; the vacant entry is never occupied. |
| `Decoding.IterateEnds` | sem86-core/src/decoder.rs:405-478 | Feeding bytes ends in this way from every state that the loop can be in. |
| `Decoding.EndsOnce` | sem86-core/src/decoder.rs:405-478 | Only one result and one number of bytes taken end in this way. |
| `Decoding.Decoder.Remember` | sem86-core/src/decoder.rs:374-375 | A found index is recorded for this instruction and these segment sizes only. |
| `Decoding.Decoder.RememberTooShort` | sem86-core/src/decoder.rs:365-368 | A too-short answer is recorded unchanged, its count truncated to a byte. |
| `Decoding.TablesDisjoint` | sem86-core/src/decoder.rs:320-324 | No instruction is in both tables of a pair of segment sizes. |
| `Packing.Pack` | sem86-core/src/decoder.rs:73-158 | Packing fails exactly when some kind has more than 2^16 different components; otherwise every index is in range, leads to its component, and no table holds duplicates or anything unused. |
| `Packing.Unpack` | sem86-core/src/decoder.rs:216-241 | Each entry is the encoding its indices stand for. |
| `Packing.UnpackOfPack` | sem86-core/src/decoder.rs:73-241 | Unpacking a packed list gives it back exactly when no encoding had metadata. |
| `Packing.SharedExactly` | sem86-core/src/decoder.rs:73-158 | Two encodings share an index exactly when they share the component. |
| `Areas.Area.Contains` | liblisa/src/state/addr.rs:231-242 | It holds exactly when (x - start) mod 2^64 is below the size, for every size. |
| `Areas.WrappingIsModular` | liblisa/src/state/addr.rs:97-122 | The address operators add and subtract modulo 2^64. |
| `Areas.OverlapsExactly` | liblisa/src/state/addr.rs:314-344 | The comparison fails exactly for an empty area, or when one of the areas wraps and each reaches the other's different start; otherwise it says whether they share an address. |
| `Areas.OverlapsWhenSmall` | liblisa/src/state/addr.rs:314-344 | Below 2^63 bytes it never fails and says whether they share an address. |
| `Areas.OverlapsFailsWhenLarge` | liblisa/src/state/addr.rs:314-344 | Two areas of 2^63 + 1 bytes that overlap, for which it fails. |
| `Areas.ExpandedCovers` | liblisa/src/state/addr.rs:283-297 | Rounded to pages, an area covers exactly the pages it meets. |
| `Areas.ExpandFailsExactly` | liblisa/src/state/addr.rs:283-297 | Rounding overflows exactly if the area meets every page. |
| `Areas.Area.ExpandToPage` | liblisa/src/state/addr.rs:283-297 | Rounding overflows exactly if size, offset in the page and 4095 add up to 2^64 or more. |
| `Areas.SharesPageExactly` | liblisa/src/state/addr.rs:299-303 | When it fails, for all sizes; otherwise it says whether some page meets both areas. |
| `Areas.SharesPageWhenSmall` | liblisa/src/state/addr.rs:299-303 | With rounded sizes below 2^63 it says whether some page meets both areas. |
| `Areas.CrossesExactly` | liblisa/src/state/addr.rs:272-281 | For every size above 0 it says whether the area meets two pages exactly if the area is no larger than a page or its ends lie on different pages. |
| `Areas.CrossesWhenSmall` | liblisa/src/state/addr.rs:272-281 | Up to 2^63 bytes it says whether the area meets two different pages. |
| `Areas.CrossesFailsWhenHuge` | liblisa/src/state/addr.rs:272-281 | An area of 2^64 - 1 bytes that meets two pages, for which it says no. |

## Left out

The memory unit:

- Address line 20 is taken to be enabled: with it disabled reads wrap and writes do not.
- RAM is the only shared memory behind the linear region: further backings are not modelled, because the table of
  mappings keeps an offset without the backing it belongs to. Device frames, and RAM that is given back, are modelled by
  frame number.
- What a device returns for a read is a parameter, what it is sent is an event of the history, and the advice callback
  is a function of address and length that does not call back into memory.
- An access satisfies addr + N <= 2^32 and has a width of 1, 2, 4 or 8 bytes.
- Bitmaps are arrays of single bits (`AtomicBitmap`, `PtrBitmap`): packing into words, and atomicity, are not modelled.
- A walk or a clean bit beyond the host's reservation ends the emulator. Here that is an outcome of its own, and when it
  comes is proved; nothing is claimed of what the host does then.
- The recorded resolution of a page is the latest one that installed a mapping: resolutions that end at a device or with
  `DoNotMark` advice install none. It records the write permission of the resolving access.
- The stores of page walks are not events of the history; like the source, nobody is told of them.
- While the bytes of a write change page tables, mappings stay as they were until they are invalidated, as on hardware;
  agreement is then claimed for the tables as they were before the bytes.
- MemoryUnit.Mem32.ReadBack: says nothing of bytes that went to a device or to no memory, which a read may answer in any
  way, nor of those stored past the mapping of a second page, which lie elsewhere (`Agreement.SecondByteGoesAstray`).
- PageTables.MarksAreTransparent: needs RAM of at most 4 GiB, which the 2^20 clean bits imply.
- Physical slices, snapshots, statistics, logging, and the host's `mmap` itself.

Encodings, prefixes and decoder:

- Canonical prefixes are the identity in `TryExtractParts`: base instructions are taken to have them already.
- Encodings.TryExtractParts: leaves out the error for prefixes that do not match, for the same reason.
- Instructions are byte sequences; the fixed 15-byte buffer behind them, hashing and text forms are not modelled.
- The list of possible prefix strings of a bit pattern is a parameter of `LabelNodes`; the loop that multiplies out its
  bytes is not modelled.
- Prefix nodes after the first come in any order, as from a hash set.
- The instruction maps and the check of an encoding's prefixes are functions that nothing is known of, except that fewer
  than 256 bytes are ever missing, as the memo table's byte requires; instructions have at most 15.
- Decoding.Decoder.LookupIteratively: the source indexes past its buffer when a sixteenth byte is asked for, and
  declares an encoding that is too short unreachable; both are outcomes here (`Overrun`, `Unreachable`), and the byte
  source is a function of the number of its calls.
- Packing.Pack: the seven kinds of shared components are values of one type, in the order in which they are interned,
  and the instruction maps, which packing copies, are left out.

Arithmetic and graphs:

- Addresses are 64 bits wide and pages have 4096 bytes, as in every architecture of the repository.
- The callback of `iterate` is the list of slices it was given. Counters are unbounded and proved to stay within the
  number of nodes.
- Endianness and sign-extension helpers, the remaining address and instruction helpers, the intermediate languages, code
  generation, device models and user interfaces are not part of this model.
