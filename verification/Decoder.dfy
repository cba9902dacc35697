/** Decoding: looking up the encoding of an instruction, with two memo tables for each pair of segment sizes. */
module Decoding {
  import opened Bytes
  import opened Options
  import opened Instructions

  datatype SegmentSizes = Cs16Ss16 | Cs16Ss32 | Cs32Ss16 | Cs32Ss32
  {
    function Slot(): (k: nat)
      ensures k < 4
    {
      match this
      case Cs16Ss16 => 0
      case Cs16Ss32 => 1
      case Cs32Ss16 => 2
      case Cs32Ss32 => 3
    }
  }

  datatype BaseInstrError = NeedMoreBytes(n: nat) | TooManyBytes(n: nat) | NoMatch

  // The instruction maps and the check of an encoding's prefixes and length, as far as decoding sees them.
  datatype Semantics = Semantics(
    find: (SegmentSizes, Instruction) -> Option<nat>,
    extractBase: (nat, Instruction) -> Option<BaseInstrError>)
  {
    // The number of missing bytes is stored in a byte.
    ghost predicate Legal() {
      forall i: nat, instr: Instruction :: extractBase(i, instr).Some? && extractBase(i, instr).value.NeedMoreBytes?
        ==> extractBase(i, instr).value.n < 256
    }
  }

  datatype LookupResult = Found(index: nat) | Error(error: BaseInstrError)

  // A lookup without tables.
  function LookupFresh(semantics: Semantics, instr: Instruction, sizes: SegmentSizes): LookupResult {
    match semantics.find(sizes, instr)
    case None => Error(NoMatch)
    case Some(index) =>
      match semantics.extractBase(index, instr)
      case None => Found(index)
      case Some(e) => Error(e)
  }

  // The answer of the byte source to its n-th call.
  datatype Answer<E> = Next(b: Byte) | Failure(e: E)

  // Overrun: a sixteenth byte was asked for. Unreachable: an encoding was too short for the bytes that led to it.
  datatype Iterated<E> = Failed(e: E) | NoInstruction | Decoded(index: nat) | Overrun | Unreachable

  // Feeding bytes one at a time to lookups without tables, none of which is made before min bytes are there.
  function Iterate<E>(semantics: Semantics, next: nat -> Answer<E>, sizes: SegmentSizes, buf: seq<Byte>,
                      min: nat)
    : (Iterated<E>, Instruction)
    requires |buf| <= 15
    decreases 15 - |buf|
  {
    match next(|buf|)
    case Failure(e) => (Failed(e), Instruction(buf))
    case Next(b) =>
      if |buf| == 15 then (Overrun, Instruction(buf))
      else
        var instr := Instruction(buf + [b]);
        var n := |buf| + 1;
        if n < min then Iterate(semantics, next, sizes, instr.bytes, min)
        else
          match semantics.find(sizes, instr)
          case None => if n == 15 then (NoInstruction, instr) else Iterate(semantics, next, sizes, instr.bytes, min)
          case Some(index) =>
            match semantics.extractBase(index, instr)
            case None => (Decoded(index), instr)
            case Some(NeedMoreBytes(extra)) => Iterate(semantics, next, sizes, instr.bytes, n + extra)
            case Some(NoMatch) => (NoInstruction, instr)
            case Some(TooManyBytes(_)) => (Unreachable, instr)
  }

  // One byte, in terms of a lookup.
  lemma IterateStep<E>(semantics: Semantics, next: nat -> Answer<E>, sizes: SegmentSizes, buf: seq<Byte>, min: nat)
    requires |buf| <= 15
    ensures Iterate(semantics, next, sizes, buf, min) ==
            match next(|buf|)
            case Failure(e) => (Failed(e), Instruction(buf))
            case Next(b) =>
              if |buf| == 15 then (Overrun, Instruction(buf))
              else
                var instr, n := Instruction(buf + [b]), |buf| + 1;
                if n < min then Iterate(semantics, next, sizes, instr.bytes, min)
                else
                  match LookupFresh(semantics, instr, sizes)
                  case Found(index) => (Decoded(index), instr)
                  case Error(NeedMoreBytes(extra)) => Iterate(semantics, next, sizes, instr.bytes, n + extra)
                  case Error(NoMatch) =>
                    if semantics.find(sizes, instr).Some? || n == 15 then (NoInstruction, instr)
                    else Iterate(semantics, next, sizes, instr.bytes, min)
                  case Error(TooManyBytes(_)) => (Unreachable, instr)
  {
  }

  // ----- What feeding bytes comes to

  predicate AsksForMore(semantics: Semantics, sizes: SegmentSizes, bytes: seq<Byte>) {
    var answer := LookupFresh(semantics, Instruction(bytes), sizes);
    answer.Error? && answer.error.NeedMoreBytes?
  }

  // The length up to which a lookup of these bytes asks to wait.
  function WaitsFor(semantics: Semantics, sizes: SegmentSizes, bytes: seq<Byte>): nat {
    match LookupFresh(semantics, Instruction(bytes), sizes)
    case Error(NeedMoreBytes(extra)) => |bytes| + extra
    case _ => |bytes|
  }

  // Bytes are looked up, unless the first ones of them were and asked for more than there are.
  ghost predicate LookedUp(semantics: Semantics, sizes: SegmentSizes, bytes: seq<Byte>)
    decreases |bytes|
  {
    && 1 <= |bytes|
    && forall k: nat :: k < |bytes| && LookedUp(semantics, sizes, bytes[..k]) ==>
         WaitsFor(semantics, sizes, bytes[..k]) <= |bytes|
  }

  // If they are, there is no encoding yet, or one that needs more bytes.
  ghost predicate GoesOn(semantics: Semantics, sizes: SegmentSizes, bytes: seq<Byte>) {
    LookedUp(semantics, sizes, bytes) ==>
      || (semantics.find(sizes, Instruction(bytes)).None? && |bytes| < 15)
      || AsksForMore(semantics, sizes, bytes)
  }

  ghost predicate Delivered<E>(next: nat -> Answer<E>, bytes: seq<Byte>) {
    forall i: nat :: i < |bytes| ==> next(i) == Next(bytes[i])
  }

  // The bytes taken are those that the source delivered, in order; it went on after each of them but the last; and each
  // result comes in its case.
  ghost predicate Ends<E>(semantics: Semantics, next: nat -> Answer<E>, sizes: SegmentSizes, taken: seq<Byte>,
                          r: Iterated<E>)
  {
    && |taken| <= 15 && Delivered(next, taken)
    && (forall n: nat :: n < |taken| ==> GoesOn(semantics, sizes, taken[..n]))
    && var answer := LookupFresh(semantics, Instruction(taken), sizes);
       match r
       case Failed(e) => next(|taken|) == Failure(e) && GoesOn(semantics, sizes, taken)
       case Overrun => |taken| == 15 && next(15).Next? && GoesOn(semantics, sizes, taken)
       case Decoded(index) => LookedUp(semantics, sizes, taken) && answer == Found(index)
       case NoInstruction =>
         && LookedUp(semantics, sizes, taken) && answer == Error(NoMatch)
         && (semantics.find(sizes, Instruction(taken)).Some? || |taken| == 15)
       case Unreachable => LookedUp(semantics, sizes, taken) && answer.Error? && answer.error.TooManyBytes?
  }

  // From n bytes on nothing that was looked up asks to wait.
  ghost predicate NothingWaits(semantics: Semantics, sizes: SegmentSizes, buf: seq<Byte>, n: nat) {
    forall k: nat :: k <= |buf| && LookedUp(semantics, sizes, buf[..k]) ==>
      WaitsFor(semantics, sizes, buf[..k]) <= n
  }

  // min is the length at which the next lookup is made.
  ghost predicate MinIs(semantics: Semantics, sizes: SegmentSizes, buf: seq<Byte>, min: nat) {
    forall n: nat :: n > |buf| ==> (NothingWaits(semantics, sizes, buf, n) <==> n >= min)
  }

  lemma NextLookup(semantics: Semantics, sizes: SegmentSizes, buf: seq<Byte>, b: Byte, min: nat)
    requires MinIs(semantics, sizes, buf, min)
    ensures LookedUp(semantics, sizes, buf + [b]) <==> |buf| + 1 >= min
  {
    hide LookupFresh;
    assert forall k: nat :: k <= |buf| ==> (buf + [b])[..k] == buf[..k];
    assert NothingWaits(semantics, sizes, buf, |buf| + 1) <==> LookedUp(semantics, sizes, buf + [b]);
  }

  lemma NextWaits(semantics: Semantics, sizes: SegmentSizes, buf: seq<Byte>, b: Byte, n: nat)
    ensures var bytes := buf + [b];
            NothingWaits(semantics, sizes, bytes, n) <==>
              && NothingWaits(semantics, sizes, buf, n)
              && (LookedUp(semantics, sizes, bytes) ==> WaitsFor(semantics, sizes, bytes) <= n)
  {
    hide LookedUp, WaitsFor;
    var bytes := buf + [b];
    assert bytes[..|bytes|] == bytes && forall k: nat :: k <= |buf| ==> bytes[..k] == buf[..k];
  }

  lemma NextMin(semantics: Semantics, sizes: SegmentSizes, buf: seq<Byte>, b: Byte, min: nat)
    requires MinIs(semantics, sizes, buf, min)
    ensures var bytes := buf + [b];
            var waits := LookedUp(semantics, sizes, bytes) && AsksForMore(semantics, sizes, bytes);
            MinIs(semantics, sizes, bytes, if waits then WaitsFor(semantics, sizes, bytes) else min)
  {
    var bytes := buf + [b];
    NextLookup(semantics, sizes, buf, b, min);
    hide LookedUp, NothingWaits, LookupFresh;
    forall n: nat | n > |bytes|
      ensures NothingWaits(semantics, sizes, bytes, n) <==>
                n >= min && (LookedUp(semantics, sizes, bytes) ==> WaitsFor(semantics, sizes, bytes) <= n)
    {
      NextWaits(semantics, sizes, buf, b, n);
    }
  }

  lemma {:induction false} IterateEnds<E>(semantics: Semantics, next: nat -> Answer<E>, sizes: SegmentSizes,
                                          buf: seq<Byte>, min: nat)
    requires |buf| <= 15 && Delivered(next, buf) && MinIs(semantics, sizes, buf, min)
    requires forall n: nat :: n <= |buf| ==> GoesOn(semantics, sizes, buf[..n])
    ensures var (r, taken) := Iterate(semantics, next, sizes, buf, min); Ends(semantics, next, sizes, taken.bytes, r)
    decreases 15 - |buf|
  {
    hide LookedUp, MinIs;
    assert buf[..|buf|] == buf;
    match next(|buf|)
    case Failure(_) =>
    case Next(b) =>
      if |buf| < 15 {
        var bytes := buf + [b];
        NextLookup(semantics, sizes, buf, b, min);
        NextMin(semantics, sizes, buf, b, min);
        assert forall n: nat :: n <= |buf| ==> bytes[..n] == buf[..n];
        assert bytes[..|bytes|] == bytes;
        if GoesOn(semantics, sizes, bytes) {
          var waits := LookedUp(semantics, sizes, bytes) && AsksForMore(semantics, sizes, bytes);
          IterateEnds(semantics, next, sizes, bytes, if waits then WaitsFor(semantics, sizes, bytes) else min);
        }
      }
  }

  lemma FeedingEnds<E>(semantics: Semantics, next: nat -> Answer<E>, sizes: SegmentSizes)
    ensures var (r, taken) := Iterate(semantics, next, sizes, [], 1); Ends(semantics, next, sizes, taken.bytes, r)
  {
    hide LookupFresh;
    IterateEnds(semantics, next, sizes, [], 1);
  }

  lemma SamePrefix<E>(next: nat -> Answer<E>, bytes: seq<Byte>, bytes': seq<Byte>)
    requires Delivered(next, bytes) && Delivered(next, bytes') && |bytes| <= |bytes'|
    ensures bytes'[..|bytes|] == bytes && (|bytes| < |bytes'| ==> next(|bytes|).Next?)
  {
    assert forall i: nat :: i < |bytes| ==> next(i) == Next(bytes[i]) && next(i) == Next(bytes'[i]);
    assert |bytes| < |bytes'| ==> next(|bytes|) == Next(bytes'[|bytes|]);
  }

  lemma EndsHere<E>(semantics: Semantics, next: nat -> Answer<E>, sizes: SegmentSizes, taken: seq<Byte>,
                    r: Iterated<E>)
    requires Ends(semantics, next, sizes, taken, r)
    ensures !(GoesOn(semantics, sizes, taken) && |taken| < 15 && next(|taken|).Next?)
  {
    hide LookedUp;
  }

  // Nothing but the result of feeding bytes ends in this way.
  lemma EndsOnce<E>(semantics: Semantics, next: nat -> Answer<E>, sizes: SegmentSizes, taken: seq<Byte>,
                    r: Iterated<E>, taken': seq<Byte>, r': Iterated<E>)
    requires Ends(semantics, next, sizes, taken, r) && Ends(semantics, next, sizes, taken', r')
    ensures taken' == taken && r' == r
  {
    hide LookedUp;
    EndsHere(semantics, next, sizes, taken, r);
    EndsHere(semantics, next, sizes, taken', r');
    if |taken| <= |taken'| { SamePrefix(next, taken, taken'); } else { SamePrefix(next, taken', taken); }
  }

  type Table = map<Instruction, nat>

  // Each beginning of the bytes that was looked up and asked for more is in the table.
  ghost predicate AllNoted(semantics: Semantics, sizes: SegmentSizes, table: Table, bytes: seq<Byte>) {
    forall n: nat :: n <= |bytes| && LookedUp(semantics, sizes, bytes[..n]) && AsksForMore(semantics, sizes, bytes[..n])
      ==> Instruction(bytes[..n]) in table
  }

  lemma StartFeeding(semantics: Semantics, sizes: SegmentSizes, table: Table)
    ensures MinIs(semantics, sizes, [], 1) && AllNoted(semantics, sizes, table, [])
  {
    hide LookupFresh;
  }

  lemma NotedNext(semantics: Semantics, sizes: SegmentSizes, table: Table, table': Table, buf: seq<Byte>, b: Byte)
    requires AllNoted(semantics, sizes, table, buf) && table.Keys <= table'.Keys
    requires LookedUp(semantics, sizes, buf + [b]) && AsksForMore(semantics, sizes, buf + [b]) ==>
               Instruction(buf + [b]) in table'
    ensures AllNoted(semantics, sizes, table', buf + [b])
  {
    hide LookedUp, AsksForMore;
    var bytes := buf + [b];
    assert bytes[..|bytes|] == bytes && forall n: nat :: n <= |buf| ==> bytes[..n] == buf[..n];
  }

  function Recorded(tables: seq<Table>, sizes: SegmentSizes, instr: Instruction, v: nat): seq<Table>
    requires |tables| == 4
  {
    var table: Table := tables[sizes.Slot()][instr := v];
    tables[sizes.Slot() := table]
  }

  lemma RecordedAgain(tables: seq<Table>, sizes: SegmentSizes, instr: Instruction)
    requires |tables| == 4 && instr in tables[sizes.Slot()]
    ensures Recorded(tables, sizes, instr, tables[sizes.Slot()][instr]) == tables
  {
    var table := tables[sizes.Slot()];
    assert table[instr := table[instr]] == table;
  }

  class Decoder {
    const semantics: Semantics
    var cache: seq<Table>
    var cacheTooShort: seq<Table>

    // Every entry is what a lookup without tables answers.
    ghost predicate Valid()
      reads this
    {
      && |cache| == |cacheTooShort| == 4 && semantics.Legal()
      && (forall sizes: SegmentSizes, instr :: instr in cache[sizes.Slot()] ==>
            LookupFresh(semantics, instr, sizes) == Found(cache[sizes.Slot()][instr]))
      && (forall sizes: SegmentSizes, instr :: instr in cacheTooShort[sizes.Slot()] ==>
            LookupFresh(semantics, instr, sizes) == Error(NeedMoreBytes(cacheTooShort[sizes.Slot()][instr])))
    }

    constructor (s: Semantics)
      requires s.Legal()
      ensures Valid() && semantics == s
    {
      semantics := s;
      cache := [map[], map[], map[], map[]];
      cacheTooShort := [map[], map[], map[], map[]];
    }

    // The tables never change an answer.
    method Lookup(instr: Instruction, sizes: SegmentSizes) returns (r: LookupResult)
      requires Valid()
      modifies this
      ensures Valid()
      ensures r == LookupFresh(semantics, instr, sizes)
      ensures cache == if r.Found? then Recorded(old(cache), sizes, instr, r.index) else old(cache)
      ensures cacheTooShort == if r.Error? && r.error.NeedMoreBytes?
                               then Recorded(old(cacheTooShort), sizes, instr, r.error.n) else old(cacheTooShort)
      ensures r.Found? ==>
                semantics.find(sizes, instr) == Some(r.index) && semantics.extractBase(r.index, instr) == None
      ensures r.Error? ==>
                || (r.error == NoMatch && semantics.find(sizes, instr) == None)
                || exists index: nat ::
                     semantics.find(sizes, instr) == Some(index) && semantics.extractBase(index, instr) == Some(r.error)
    {
      var k := sizes.Slot();
      if instr in cacheTooShort[k] {
        RecordedAgain(cacheTooShort, sizes, instr);
        return Error(NeedMoreBytes(cacheTooShort[k][instr]));
      }
      if instr in cache[k] {
        RecordedAgain(cache, sizes, instr);
        return Found(cache[k][instr]);
      }
      var found := semantics.find(sizes, instr);
      if found.None? {
        return Error(NoMatch);
      }
      var failure := semantics.extractBase(found.value, instr);
      if failure.Some? {
        if failure.value.NeedMoreBytes? {
          RememberTooShort(instr, sizes, failure.value.n);
        }
        return Error(failure.value);
      }
      Remember(instr, sizes, found.value);
      return Found(found.value);
    }

    method RememberTooShort(instr: Instruction, sizes: SegmentSizes, extra: nat)
      requires Valid() && LookupFresh(semantics, instr, sizes) == Error(NeedMoreBytes(extra))
      modifies this`cacheTooShort
      ensures Valid() && cacheTooShort == Recorded(old(cacheTooShort), sizes, instr, extra)
    {
      assert extra < 256;
      hide LookupFresh;
      cacheTooShort := Recorded(cacheTooShort, sizes, instr, extra % 256);
    }

    method Remember(instr: Instruction, sizes: SegmentSizes, index: nat)
      requires Valid() && LookupFresh(semantics, instr, sizes) == Found(index)
      modifies this`cache
      ensures Valid() && cache == Recorded(old(cache), sizes, instr, index)
    {
      hide LookupFresh;
      cache := Recorded(cache, sizes, instr, index);
    }

    // One lookup of the loop below: like Lookup, but it says whether an encoding was found at all.
    method LookupOnce(instr: Instruction, sizes: SegmentSizes) returns (r: LookupResult, unknown: bool)
      requires Valid()
      modifies this
      ensures Valid() && r == LookupFresh(semantics, instr, sizes) && (unknown <==> semantics.find(sizes, instr).None?)
      ensures cache == if r.Found? then Recorded(old(cache), sizes, instr, r.index) else old(cache)
      ensures cacheTooShort == if r.Error? && r.error.NeedMoreBytes?
                               then Recorded(old(cacheTooShort), sizes, instr, r.error.n) else old(cacheTooShort)
    {
      var k := sizes.Slot();
      if instr in cacheTooShort[k] {
        RecordedAgain(cacheTooShort, sizes, instr);
        return Error(NeedMoreBytes(cacheTooShort[k][instr])), false;
      }
      if instr in cache[k] {
        RecordedAgain(cache, sizes, instr);
        return Found(cache[k][instr]), false;
      }
      var found := semantics.find(sizes, instr);
      if found.None? {
        return Error(NoMatch), true;
      }
      var failure := semantics.extractBase(found.value, instr);
      if failure.None? {
        assert instr !in cache[k];
        Remember(instr, sizes, found.value);
        return Found(found.value), false;
      }
      if failure.value.NeedMoreBytes? {
        RememberTooShort(instr, sizes, failure.value.n);
      }
      return Error(failure.value), false;
    }

    // Asks for bytes until they decode. The tables never change the answer or the number of bytes taken, and what was
    // found out about the bytes is in them afterwards.
    method LookupIteratively<E>(next: nat -> Answer<E>, sizes: SegmentSizes)
      returns (r: Iterated<E>, taken: Instruction)
      requires Valid()
      modifies this
      ensures Valid()
      ensures (r, taken) == Iterate(semantics, next, sizes, [], 1)
      ensures Ends(semantics, next, sizes, taken.bytes, r)
      ensures |cache| == |cacheTooShort| == 4 && (r.Decoded? ==> taken in cache[sizes.Slot()])
      ensures AllNoted(semantics, sizes, cacheTooShort[sizes.Slot()], taken.bytes)
    {
      hide Ends, LookedUp, AllNoted, MinIs;
      var buf: seq<Byte> := [];
      var minBytesNeeded: nat := 1;
      FeedingEnds(semantics, next, sizes);
      StartFeeding(semantics, sizes, cacheTooShort[sizes.Slot()]);
      FourTables();
      hide Valid, LookupFresh;
      while true
        invariant Valid() && |cache| == |cacheTooShort| == 4 && |buf| <= 15
        invariant Iterate(semantics, next, sizes, buf, minBytesNeeded) == Iterate(semantics, next, sizes, [], 1)
        invariant MinIs(semantics, sizes, buf, minBytesNeeded)
        invariant AllNoted(semantics, sizes, cacheTooShort[sizes.Slot()], buf)
        decreases 15 - |buf|
      {
        var answer := next(|buf|);
        IterateStep(semantics, next, sizes, buf, minBytesNeeded);
        if answer.Failure? {
          return Failed(answer.e), Instruction(buf);
        }
        if |buf| == 15 {
          return Overrun, Instruction(buf);
        }
        ghost var before, min, table := buf, minBytesNeeded, cacheTooShort[sizes.Slot()];
        NextLookup(semantics, sizes, buf, answer.b, min);
        NextMin(semantics, sizes, buf, answer.b, min);
        buf := buf + [answer.b];
        var n := |buf|;
        if n >= minBytesNeeded {
          var found, unknown := LookupOnce(Instruction(buf), sizes);
          FourTables();
          NotedNext(semantics, sizes, table, cacheTooShort[sizes.Slot()], before, answer.b);
          match found {
            case Found(index) => return Decoded(index), Instruction(buf);
            case Error(NeedMoreBytes(extra)) => minBytesNeeded := n + extra;
            case Error(NoMatch) =>
              if !unknown || n == 15 {
                return NoInstruction, Instruction(buf);
              }
            case Error(TooManyBytes(_)) => return Unreachable, Instruction(buf);
          }
        } else {
          NotedNext(semantics, sizes, table, table, before, answer.b);
        }
      }
    }

    lemma FourTables()
      requires Valid()
      ensures |cache| == |cacheTooShort| == 4
    {
    }
  }

  // No instruction is in both tables of a pair of segment sizes.
  lemma TablesDisjoint(d: Decoder, sizes: SegmentSizes, instr: Instruction)
    requires d.Valid()
    ensures !(instr in d.cache[sizes.Slot()] && instr in d.cacheTooShort[sizes.Slot()])
  {
  }
}
