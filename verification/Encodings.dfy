/**
 Bit patterns: the values of an encoding's parts are scattered over the bits of an instruction from right to left,
 and gathered from them again.
 */
module Encodings {
  import opened Bits
  import opened Instructions
  import opened Options

  datatype BitKind = Part(n: nat) | Fixed(v: nat) | DontCare

  // A part occupies size bits; value is its current value and valid the check of its mapping.
  datatype PartSpec = PartSpec(size: nat, value: nat, valid: nat -> bool)

  // Bits are listed from right to left.
  datatype Encoding = Encoding(bits: seq<BitKind>, parts: seq<PartSpec>)

  // The number of bits of part n among the first i.
  function Rank(bits: seq<BitKind>, i: nat, n: nat): nat
    requires i <= |bits|
  {
    if i == 0 then 0 else Rank(bits, i - 1, n) + if bits[i - 1] == Part(n) then 1 else 0
  }

  ghost predicate WellFormed(e: Encoding) {
    && |e.bits| % 8 == 0 && |e.bits| <= 120 && |e.parts| <= 32
    && (forall i :: 0 <= i < |e.bits| ==>
          && (e.bits[i].Part? ==> e.bits[i].n < |e.parts|)
          && (e.bits[i].Fixed? ==> e.bits[i].v <= 1))
    && (forall n :: 0 <= n < |e.parts| ==> e.parts[n].size == Rank(e.bits, |e.bits|, n) <= 64)
  }

  // The part values chosen for a build: None keeps the current value.
  type Choice = seq<Option<nat>>

  function Chosen(e: Encoding, choice: Choice, n: nat): nat
    requires n < |e.parts| == |choice|
  {
    match choice[n]
    case Some(v) => v
    case None => e.parts[n].value
  }

  // Values are 64-bit words.
  ghost predicate Words(choice: Choice) {
    forall n :: 0 <= n < |choice| && choice[n].Some? ==> choice[n].value < Pow2(64)
  }

  // What bit i of the built instruction is.
  ghost function BuiltBit(e: Encoding, choice: Choice, i: nat): nat
    requires WellFormed(e) && i < |e.bits| && |choice| == |e.parts|
  {
    match e.bits[i]
    case Part(n) => Bit(Chosen(e, choice, n), Rank(e.bits, i, n))
    case Fixed(v) => v
    case DontCare => 0
  }

  ghost predicate IsBuilt(e: Encoding, choice: Choice, instr: Instruction)
    requires WellFormed(e) && |choice| == |e.parts|
  {
    && instr.BitLen() == |e.bits|
    && forall i: nat :: i < |e.bits| ==> instr.NthBitFromRight(i) == BuiltBit(e, choice, i)
  }

  // ----- The current instruction of an encoding

  method Instr(e: Encoding) returns (r: Instruction)
    requires WellFormed(e)
    ensures IsBuilt(e, seq(|e.parts|, _ => None), r)
  {
    ghost var keep: Choice := seq(|e.parts|, _ => None);
    var k: seq<nat> := seq(|e.parts|, _ => 0);
    r := Instruction(seq(|e.bits| / 8, _ => 0));
    for i := 0 to |e.bits|
      invariant |k| == |e.parts| && r.BitLen() == |e.bits|
      invariant forall n :: 0 <= n < |k| ==> k[n] == Rank(e.bits, i, n)
      invariant forall j: nat :: j < i ==> r.NthBitFromRight(j) == BuiltBit(e, keep, j)
    {
      var bit := 0;
      match e.bits[i] {
        case Part(n) =>
          BitOfShr(e.parts[n].value, k[n], 0);
          bit := Shr(e.parts[n].value, k[n]) % 2;
          k := k[n := k[n] + 1];
        case Fixed(v) => bit := v;
        case DontCare => bit := 0;
      }
      r := r.SetNthBitFromRight(i, bit);
    }
  }

  // ----- Building

  // The number of bits from index on that are of the same kind.
  function RunLength(bits: seq<BitKind>, index: nat): (n: nat)
    requires index < |bits|
    ensures 1 <= n <= |bits| - index
    ensures forall i :: index <= i < index + n ==> bits[i] == bits[index]
    ensures index + n < |bits| ==> bits[index + n] != bits[index]
    decreases |bits| - index
  {
    if index + 1 < |bits| && bits[index + 1] == bits[index] then 1 + RunLength(bits, index + 1) else 1
  }

  lemma {:induction false} RankOfRun(bits: seq<BitKind>, index: nat, n: nat, len: nat, m: nat)
    requires index + len <= |bits| && forall i :: index <= i < index + len ==> bits[i] == Part(n)
    ensures Rank(bits, index + len, m) == Rank(bits, index, m) + if m == n then len else 0
    decreases len
  {
    if len > 0 {
      RankOfRun(bits, index, n, len - 1, m);
    }
  }

  lemma {:induction false} RankGrows(bits: seq<BitKind>, i: nat, j: nat, n: nat)
    requires i <= j <= |bits|
    ensures Rank(bits, i, n) <= Rank(bits, j, n)
    decreases j
  {
    if i < j {
      RankGrows(bits, i, j - 1, n);
    }
  }

  ghost predicate BuiltUpTo(e: Encoding, choice: Choice, instr: Instruction, index: nat)
    requires WellFormed(e) && |choice| == |e.parts|
  {
    && instr.BitLen() == |e.bits| && index <= |e.bits|
    && forall i: nat :: i < |e.bits| ==>
         instr.NthBitFromRight(i) ==
           if i < index then BuiltBit(e, choice, i) else BuiltBit(e, seq(|e.parts|, _ => None), i)
  }

  // The bits of the values that are still to be placed.
  ghost predicate ShiftedBy(e: Encoding, choice: Choice, shifts: Choice, index: nat)
    requires |choice| == |e.parts| && index <= |e.bits|
  {
    && |shifts| == |choice|
    && forall n :: 0 <= n < |choice| ==>
         if choice[n].Some? then shifts[n] == Some(Shr(choice[n].value, Rank(e.bits, index, n))) else shifts[n] == None
  }

  // The run of len bits of one part that starts at index.
  ghost predicate IsRun(e: Encoding, choice: Choice, index: nat, len: nat)
    requires |choice| == |e.parts|
  {
    && WellFormed(e) && 1 <= len && index + len <= |e.bits| && e.bits[index].Part? && choice[e.bits[index].n].Some?
    && forall i :: index <= i < index + len ==> e.bits[i] == e.bits[index]
  }

  // A run of len bits of a part placed at once.
  lemma PlaceRun(e: Encoding, choice: Choice, shifts: Choice, instr: Instruction, index: nat, len: nat)
    requires |choice| == |e.parts| && IsRun(e, choice, index, len)
    requires BuiltUpTo(e, choice, instr, index) && ShiftedBy(e, choice, shifts, index)
    ensures var n := e.bits[index].n;
            && BuiltUpTo(e, choice, SetBits(instr, index, shifts[n].value, len), index + len)
            && ShiftedBy(e, choice, shifts[n := Some(Shr(shifts[n].value, len))], index + len)
            && len <= 64
  {
    hide Rank, Shr, SetBits, Bit, BuiltBit;
    var n := e.bits[index].n;
    RankOfRun(e.bits, index, n, len, n);
    RankGrows(e.bits, index + len, |e.bits|, n);
    ShiftRun(e, choice, shifts, index, len);
    SetBitsMeaning(instr, index, shifts[n].value, len);
    forall i: nat | index <= i < index + len ensures Bit(shifts[n].value, i - index) == BuiltBit(e, choice, i) {
      BitOfRun(e, choice, shifts, index, len, i);
    }
  }

  // What is left of a value supplies the bits of a run in their order.
  lemma BitOfRun(e: Encoding, choice: Choice, shifts: Choice, index: nat, len: nat, i: nat)
    requires |choice| == |e.parts| && IsRun(e, choice, index, len) && ShiftedBy(e, choice, shifts, index)
    requires index <= i < index + len
    ensures Bit(shifts[e.bits[index].n].value, i - index) == BuiltBit(e, choice, i)
  {
    hide Rank, Shr, Bit;
    var n := e.bits[index].n;
    RankOfRun(e.bits, index, n, i - index, n);
    BitOfShr(choice[n].value, Rank(e.bits, index, n), i - index);
  }

  lemma ShiftRun(e: Encoding, choice: Choice, shifts: Choice, index: nat, len: nat)
    requires |choice| == |e.parts| && IsRun(e, choice, index, len) && ShiftedBy(e, choice, shifts, index)
    ensures var n := e.bits[index].n; ShiftedBy(e, choice, shifts[n := Some(Shr(shifts[n].value, len))], index + len)
  {
    hide Rank, Shr;
    var n := e.bits[index].n;
    forall m | 0 <= m < |choice|
      ensures Rank(e.bits, index + len, m) == Rank(e.bits, index, m) + if m == n then len else 0
    {
      RankOfRun(e.bits, index, n, len, m);
    }
    ShrOfShr(choice[n].value, Rank(e.bits, index, n), len);
  }

  lemma OneBit(instr: Instruction, index: nat, value: nat)
    requires index < instr.BitLen()
    ensures SetBits(instr, index, value, 1) == instr.SetNthBitFromRight(index, value % 2) && Shr(value, 1) == value / 2
  {
  }

  // A bit that takes nothing from the values.
  lemma SkipBit(e: Encoding, choice: Choice, shifts: Choice, instr: Instruction, index: nat)
    requires WellFormed(e) && |choice| == |e.parts| && BuiltUpTo(e, choice, instr, index)
    requires ShiftedBy(e, choice, shifts, index)
    requires index < |e.bits| && (e.bits[index].Part? ==> choice[e.bits[index].n].None?)
    ensures BuiltUpTo(e, choice, instr, index + 1) && ShiftedBy(e, choice, shifts, index + 1)
  {
  }

  lemma Bounds(e: Encoding, choice: Choice, shifts: Choice, instr: Instruction, index: nat)
    requires WellFormed(e) && |choice| == |e.parts| && BuiltUpTo(e, choice, instr, index)
    requires ShiftedBy(e, choice, shifts, index)
    ensures instr.BitLen() == |e.bits| && |shifts| == |choice|
    ensures index < |e.bits| && e.bits[index].Part? ==>
              var n := e.bits[index].n; n < |choice| && (shifts[n].Some? <==> choice[n].Some?)
  {
  }

  // A run of 64 bits is all of its part, and uses up the whole word.
  lemma WordUsedUp(e: Encoding, choice: Choice, shifts: Choice, instr: Instruction, index: nat)
    requires WellFormed(e) && |choice| == |e.parts| && BuiltUpTo(e, choice, instr, index)
    requires ShiftedBy(e, choice, shifts, index)
    requires Words(choice) && index + 64 <= |e.bits| && e.bits[index].Part? && choice[e.bits[index].n].Some?
    requires forall i :: index <= i < index + 64 ==> e.bits[i] == e.bits[index]
    ensures Shr(shifts[e.bits[index].n].value, 64) == 0
  {
    var n := e.bits[index].n;
    RankOfRun(e.bits, index, n, 64, n);
    RankGrows(e.bits, index + 64, |e.bits|, n);
    Fits(choice[n].value, 64);
  }

  // Places the chosen values, whole bytes at a time where a part allows it. Returns what is left of the values.
  method PartValuesToInstrInternal(e: Encoding, choice: Choice) returns (instr: Instruction, shifts: Choice)
    requires WellFormed(e) && |choice| == |e.parts| && Words(choice)
    ensures IsBuilt(e, choice, instr)
    ensures ShiftedBy(e, choice, shifts, |e.bits|)
  {
    instr := Instr(e);
    shifts := choice;
    var index := 0;
    while index < |e.bits|
      invariant index <= |e.bits|
      invariant BuiltUpTo(e, choice, instr, index)
      invariant ShiftedBy(e, choice, shifts, index)
    {
      index, instr, shifts := PlaceNext(e, choice, shifts, instr, index);
    }
  }

  // One turn of the building loop.
  method PlaceNext(e: Encoding, ghost choice: Choice, shifts0: Choice, instr0: Instruction, index0: nat)
    returns (index: nat, instr: Instruction, shifts: Choice)
    requires WellFormed(e) && |choice| == |e.parts| && Words(choice) && index0 < |e.bits|
    requires BuiltUpTo(e, choice, instr0, index0) && ShiftedBy(e, choice, shifts0, index0)
    ensures index0 < index <= |e.bits|
    ensures BuiltUpTo(e, choice, instr, index) && ShiftedBy(e, choice, shifts, index)
  {
    hide BuiltUpTo, ShiftedBy, Words, Shr, Pow2, SetBits;
    Bounds(e, choice, shifts0, instr0, index0);
    index, instr, shifts := index0, instr0, shifts0;
    var kind := e.bits[index];
    if kind.Part? && shifts[kind.n].Some? {
      var value := shifts[kind.n].value;
      var run := RunLength(e.bits, index);
      if index % 8 == 0 && run >= 8 {
        var num := run / 8 * 8;
        PlaceRun(e, choice, shifts, instr, index, num);
        if num == 64 { WordUsedUp(e, choice, shifts, instr, index); }
        instr := SetMultipleBitsFromRight(instr, index, value, num);
        shifts := shifts[kind.n := Some(if num < 64 then Shr(value, num) else 0)];
        index := index + num;
      } else {
        PlaceRun(e, choice, shifts, instr, index, 1);
        OneBit(instr, index, value);
        instr := instr.SetNthBitFromRight(index, value % 2);
        shifts := shifts[kind.n := Some(value / 2)];
        index := index + 1;
      }
    } else {
      SkipBit(e, choice, shifts, instr, index);
      index := index + 1;
    }
  }

  ghost predicate AllFit(e: Encoding, choice: Choice)
    requires |choice| == |e.parts|
  {
    forall n :: 0 <= n < |choice| && choice[n].Some? ==> choice[n].value < Pow2(e.parts[n].size)
  }

  // None: a value does not fit its part, which is a panic.
  method PartValuesToInstr(e: Encoding, choice: Choice) returns (r: Option<Instruction>)
    requires WellFormed(e) && |choice| == |e.parts| && Words(choice)
    ensures r.Some? <==> AllFit(e, choice)
    ensures r.Some? ==> IsBuilt(e, choice, r.value)
  {
    var instr, shifts := PartValuesToInstrInternal(e, choice);
    for n := 0 to |shifts|
      invariant forall m :: 0 <= m < n && choice[m].Some? ==> choice[m].value < Pow2(e.parts[m].size)
    {
      if choice[n].Some? {
        Fits(choice[n].value, e.parts[n].size);
      }
      if shifts[n].Some? && shifts[n].value != 0 {
        return None;
      }
    }
    return Some(instr);
  }

  function All(values: seq<nat>): (choice: Choice)
    ensures |choice| == |values| && forall n :: 0 <= n < |values| ==> choice[n] == Some(values[n])
  {
    seq(|values|, n requires 0 <= n < |values| => Some(values[n]))
  }

  // The builder for values of all parts.
  method AllPartValuesToInstr(e: Encoding, values: seq<nat>) returns (r: Option<Instruction>)
    requires WellFormed(e) && |values| == |e.parts| && forall n :: 0 <= n < |values| ==> values[n] < Pow2(64)
    ensures r.Some? <==> forall n :: 0 <= n < |values| ==> values[n] < Pow2(e.parts[n].size)
    ensures r.Some? ==> IsBuilt(e, All(values), r.value)
  {
    var instr := Instr(e);
    var shifts := values;
    var index := 0;
    assert All(shifts) == All(values);
    while index < |e.bits|
      invariant index <= |e.bits| && |shifts| == |values|
      invariant BuiltUpTo(e, All(values), instr, index) && ShiftedBy(e, All(values), All(shifts), index)
    {
      index, instr, shifts := PlaceNextOfAll(e, values, shifts, instr, index);
    }
    for n := 0 to |shifts|
      invariant forall m :: 0 <= m < n ==> values[m] < Pow2(e.parts[m].size)
    {
      assert All(shifts)[n] == Some(shifts[n]) && All(values)[n] == Some(values[n]);
      Fits(values[n], e.parts[n].size);
      if shifts[n] != 0 {
        return None;
      }
    }
    return Some(instr);
  }

  // One turn of its loop.
  method PlaceNextOfAll(e: Encoding, ghost values: seq<nat>, shifts0: seq<nat>, instr0: Instruction, index0: nat)
    returns (index: nat, instr: Instruction, shifts: seq<nat>)
    requires WellFormed(e) && |values| == |shifts0| == |e.parts| && Words(All(values)) && index0 < |e.bits|
    requires BuiltUpTo(e, All(values), instr0, index0) && ShiftedBy(e, All(values), All(shifts0), index0)
    ensures index0 < index <= |e.bits| && |shifts| == |e.parts|
    ensures BuiltUpTo(e, All(values), instr, index) && ShiftedBy(e, All(values), All(shifts), index)
  {
    hide BuiltUpTo, ShiftedBy, Words, Shr, Pow2, SetBits;
    ghost var choice := All(values);
    Bounds(e, choice, All(shifts0), instr0, index0);
    index, instr, shifts := index0, instr0, shifts0;
    var kind := e.bits[index];
    if kind.Part? {
      var value := shifts[kind.n];
      var run := RunLength(e.bits, index);
      if index % 8 == 0 && run >= 8 {
        var num := run / 8 * 8;
        PlaceRun(e, choice, All(shifts), instr, index, num);
        if num == 64 { WordUsedUp(e, choice, All(shifts), instr, index); }
        instr := SetMultipleBitsFromRight(instr, index, value, num);
        shifts := shifts[kind.n := if num < 64 then Shr(value, num) else 0];
        assert All(shifts) == All(shifts0)[kind.n := Some(shifts[kind.n])];
        index := index + num;
      } else {
        PlaceRun(e, choice, All(shifts), instr, index, 1);
        OneBit(instr, index, value);
        instr := instr.SetNthBitFromRight(index, value % 2);
        shifts := shifts[kind.n := value / 2];
        assert All(shifts) == All(shifts0)[kind.n := Some(shifts[kind.n])];
        index := index + 1;
      }
    } else {
      SkipBit(e, choice, All(shifts), instr, index);
      index := index + 1;
    }
  }

  // ----- Extracting

  datatype Extraction =
    | Extracted(parts: seq<nat>)
    | LengthMismatch
    | FixedBitMismatch(index: nat)
    | InvalidPartValue(part: nat, value: nat)

  // The value of part n among the first i bits of instr.
  function Gather(bits: seq<BitKind>, instr: Instruction, i: nat, n: nat): nat
    requires i <= |bits| == instr.BitLen()
  {
    if i == 0 then 0
    else
      Gather(bits, instr, i - 1, n) +
      if bits[i - 1] == Part(n) then Shl(instr.NthBitFromRight(i - 1), Rank(bits, i - 1, n)) else 0
  }

  function Gathered(e: Encoding, instr: Instruction): (values: seq<nat>)
    requires instr.BitLen() == |e.bits|
    ensures |values| == |e.parts|
  {
    seq(|e.parts|, n requires 0 <= n < |e.parts| => Gather(e.bits, instr, |e.bits|, n))
  }

  predicate BitFits(e: Encoding, instr: Instruction, i: nat)
    requires i < |e.bits| == instr.BitLen()
  {
    e.bits[i].Fixed? ==> instr.NthBitFromRight(i) == e.bits[i].v
  }

  // The encoding covers the instruction: its fixed bits match and its part values are valid.
  ghost predicate Covers(e: Encoding, instr: Instruction) {
    && instr.BitLen() == |e.bits|
    && (forall i: nat :: i < |e.bits| ==> BitFits(e, instr, i))
    && (forall n :: 0 <= n < |e.parts| ==> e.parts[n].valid(Gathered(e, instr)[n]))
  }

  // Bytes beyond the length of the encoding are dropped.
  function Cropped(e: Encoding, instr: Instruction): Instruction {
    if instr.BitLen() > |e.bits| then Instruction(instr.bytes[..|e.bits| / 8]) else instr
  }

  method TryExtractParts(e: Encoding, original: Instruction) returns (r: Extraction)
    requires WellFormed(e)
    ensures r.Extracted? <==> Covers(e, Cropped(e, original))
    ensures r.Extracted? ==> r.parts == Gathered(e, Cropped(e, original))
    ensures r.LengthMismatch? <==> original.BitLen() < |e.bits|
    ensures r.FixedBitMismatch? ==>
              && r.index < |e.bits| <= original.BitLen() && !BitFits(e, Cropped(e, original), r.index)
              && forall i: nat :: i < r.index ==> BitFits(e, Cropped(e, original), i)
    ensures r.InvalidPartValue? ==>
              && r.part < |e.parts| && |e.bits| <= original.BitLen()
              && r.value == Gathered(e, Cropped(e, original))[r.part] && !e.parts[r.part].valid(r.value)
              && (forall i: nat :: i < |e.bits| ==> BitFits(e, Cropped(e, original), i))
              && forall n :: 0 <= n < r.part ==> e.parts[n].valid(Gathered(e, Cropped(e, original))[n])
  {
    var instr := Cropped(e, original);
    if instr.BitLen() != |e.bits| {
      return LengthMismatch;
    }
    var parts: seq<nat> := seq(|e.parts|, _ => 0);
    var indices: seq<nat> := seq(|e.parts|, _ => 0);
    for i := 0 to |e.bits|
      invariant |parts| == |indices| == |e.parts|
      invariant forall n :: 0 <= n < |parts| ==>
                  indices[n] == Rank(e.bits, i, n) && parts[n] == Gather(e.bits, instr, i, n)
      invariant forall j: nat :: j < i ==> BitFits(e, instr, j)
    {
      match e.bits[i] {
        case Part(n) =>
          parts := parts[n := parts[n] + Shl(instr.NthBitFromRight(i), indices[n])];
          indices := indices[n := indices[n] + 1];
        case Fixed(v) =>
          if instr.NthBitFromRight(i) != v {
            assert !BitFits(e, instr, i);
            return FixedBitMismatch(i);
          }
        case DontCare =>
      }
    }
    assert parts == Gathered(e, instr);
    for n := 0 to |parts|
      invariant forall m :: 0 <= m < n ==> e.parts[m].valid(parts[m])
    {
      if !e.parts[n].valid(parts[n]) {
        return InvalidPartValue(n, parts[n]);
      }
    }
    return Extracted(parts);
  }

  // ----- Round trips

  // What is gathered from an instruction whose bits carry v is v, as far as it goes.
  lemma {:induction false} GatherBuilt(e: Encoding, choice: Choice, instr: Instruction, i: nat, n: nat)
    requires WellFormed(e) && |choice| == |e.parts| && IsBuilt(e, choice, instr) && i <= |e.bits| && n < |e.parts|
    ensures Gather(e.bits, instr, i, n) == Trunc(Chosen(e, choice, n), Rank(e.bits, i, n))
  {
    assert Trunc(Chosen(e, choice, n), 0) == 0;
    hide Pow2, Bit, Trunc, Chosen;
    if i > 0 {
      GatherBuilt(e, choice, instr, i - 1, n);
      TruncStep(Chosen(e, choice, n), Rank(e.bits, i - 1, n));
      assert e.bits[i - 1] == Part(n) ==> instr.NthBitFromRight(i - 1) == BuiltBit(e, choice, i - 1);
    }
  }

  // Extracting from a built instruction gives back the values it was built from.
  lemma ExtractOfBuilt(e: Encoding, values: seq<nat>, instr: Instruction)
    requires WellFormed(e) && |values| == |e.parts| && IsBuilt(e, All(values), instr)
    requires forall n :: 0 <= n < |values| ==> values[n] < Pow2(e.parts[n].size) && e.parts[n].valid(values[n])
    ensures Covers(e, instr) && Gathered(e, instr) == values
  {
    forall n | 0 <= n < |values| ensures Gathered(e, instr)[n] == values[n] {
      GatherBuilt(e, All(values), instr, |e.bits|, n);
      Fits(values[n], e.parts[n].size);
    }
    forall i: nat | i < |e.bits| ensures BitFits(e, instr, i) {
      assert instr.NthBitFromRight(i) == BuiltBit(e, All(values), i);
    }
  }

  // Extracting from any instruction built gives back the values chosen for its parts, and the current ones of the
  // others, as far as these fit.
  lemma ExtractOfChosen(e: Encoding, choice: Choice, instr: Instruction)
    requires WellFormed(e) && |choice| == |e.parts| && IsBuilt(e, choice, instr)
    ensures forall n :: 0 <= n < |choice| && choice[n].Some? && choice[n].value < Pow2(e.parts[n].size) ==>
              Gathered(e, instr)[n] == choice[n].value
    ensures forall n :: 0 <= n < |choice| && choice[n].None? && e.parts[n].value < Pow2(e.parts[n].size) ==>
              Gathered(e, instr)[n] == e.parts[n].value
    ensures forall i: nat :: i < |e.bits| ==> BitFits(e, instr, i)
  {
    hide Pow2;
    forall n | 0 <= n < |choice|
      ensures Chosen(e, choice, n) < Pow2(e.parts[n].size) ==> Gathered(e, instr)[n] == Chosen(e, choice, n)
    {
      GatherBuilt(e, choice, instr, |e.bits|, n);
      Fits(Chosen(e, choice, n), e.parts[n].size);
    }
    forall i: nat | i < |e.bits| ensures BitFits(e, instr, i) {
      assert instr.NthBitFromRight(i) == BuiltBit(e, choice, i);
    }
  }

  // So the current instruction of an encoding is one that it covers, with its own part values.
  lemma ExtractOfCurrent(e: Encoding, instr: Instruction)
    requires WellFormed(e) && IsBuilt(e, seq(|e.parts|, _ => None), instr)
    requires forall n :: 0 <= n < |e.parts| ==>
               e.parts[n].value < Pow2(e.parts[n].size) && e.parts[n].valid(e.parts[n].value)
    ensures Covers(e, instr)
    ensures forall n :: 0 <= n < |e.parts| ==> Gathered(e, instr)[n] == e.parts[n].value
  {
    hide Pow2, BitFits;
    ExtractOfChosen(e, seq(|e.parts|, _ => None), instr);
  }

  lemma {:induction false} GatherFits(bits: seq<BitKind>, instr: Instruction, i: nat, n: nat)
    requires i <= |bits| == instr.BitLen()
    ensures Gather(bits, instr, i, n) < Pow2(Rank(bits, i, n))
  {
    if i > 0 {
      GatherFits(bits, instr, i - 1, n);
    }
  }

  // The bit that the i-th position contributes to part n is where it should be.
  lemma {:induction false} BitOfGather(bits: seq<BitKind>, instr: Instruction, i: nat, n: nat, j: nat)
    requires j < i <= |bits| == instr.BitLen() && bits[j] == Part(n)
    ensures Bit(Gather(bits, instr, i, n), Rank(bits, j, n)) == instr.NthBitFromRight(j)
    decreases i
  {
    var g, r := Gather(bits, instr, i - 1, n), Rank(bits, i - 1, n);
    GatherFits(bits, instr, i - 1, n);
    var b := if bits[i - 1] == Part(n) then instr.NthBitFromRight(i - 1) else 0;
    RankGrows(bits, j, i - 1, n);
    BitOfSum(g, r, b, Rank(bits, j, n));
    if j < i - 1 {
      BitOfGather(bits, instr, i - 1, n, j);
      RankGrows(bits, j + 1, i - 1, n);
    }
  }

  // Rebuilding from extracted parts gives the instruction back, with its DontCare bits zeroed.
  lemma BuiltOfExtracted(e: Encoding, instr: Instruction, r: Instruction)
    requires WellFormed(e) && Covers(e, instr) && IsBuilt(e, All(Gathered(e, instr)), r)
    ensures forall n :: 0 <= n < |e.parts| ==> Gathered(e, instr)[n] < Pow2(e.parts[n].size)
    ensures r.BitLen() == instr.BitLen()
    ensures forall i: nat :: i < |e.bits| ==>
              r.NthBitFromRight(i) == if e.bits[i].DontCare? then 0 else instr.NthBitFromRight(i)
  {
    var values := Gathered(e, instr);
    forall n | 0 <= n < |e.parts| ensures values[n] < Pow2(e.parts[n].size) {
      GatherFits(e.bits, instr, |e.bits|, n);
    }
    forall i: nat | i < |e.bits|
      ensures r.NthBitFromRight(i) == if e.bits[i].DontCare? then 0 else instr.NthBitFromRight(i)
    {
      assert r.NthBitFromRight(i) == BuiltBit(e, All(values), i);
      assert BitFits(e, instr, i);
      if e.bits[i].Part? {
        BitOfGather(e.bits, instr, |e.bits|, e.bits[i].n, i);
      }
    }
  }

  // The instruction that is built is the only one with its bits.
  lemma BuiltIsUnique(e: Encoding, choice: Choice, r: Instruction, s: Instruction)
    requires WellFormed(e) && |choice| == |e.parts| && IsBuilt(e, choice, r) && IsBuilt(e, choice, s)
    ensures r == s
  {
    SameBits(r, s);
  }
}
