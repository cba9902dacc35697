/**
 What a device is asked and told about memory, and what happens to memory, as a history of events. The history accounts
 for every byte stored and every clean bit changed, so that it says what was announced before it happened.
 */
module Histories {
  import opened Bytes

  datatype Advice = DirtyOk | DoNotMark

  datatype Event =
    | Advised(addr: nat, len: nat, answer: Advice)
    | Cleaned(first: nat, end: nat)
    | MarkedDirty(frame: nat)
    | Notified(frame: nat)
    | Stored(bytes: map<nat, Byte>)
    | ToDevice(addr: nat, data: seq<Byte>)
    | Dropped(addr: nat, data: seq<Byte>)

  // ----- The effect of events on RAM and on the set of clean frames

  function Overlaid(ram: seq<Byte>, bytes: map<nat, Byte>): (r: seq<Byte>)
    ensures |r| == |ram|
  {
    seq(|ram|, a requires 0 <= a < |ram| => if a in bytes then bytes[a] else ram[a])
  }

  function RamStep(ram: seq<Byte>, e: Event): (r: seq<Byte>)
    ensures |r| == |ram|
  {
    if e.Stored? then Overlaid(ram, e.bytes) else ram
  }

  function RamAfter(ram: seq<Byte>, events: seq<Event>): (r: seq<Byte>)
    ensures |r| == |ram|
  {
    if events == [] then ram else RamStep(RamAfter(ram, events[..|events| - 1]), events[|events| - 1])
  }

  function CleanStep(clean: seq<bool>, e: Event): (c: seq<bool>)
    ensures |c| == |clean|
  {
    match e
    case MarkedDirty(frame) => seq(|clean|, f requires 0 <= f < |clean| => clean[f] && f != frame)
    case Cleaned(first, end) => seq(|clean|, f requires 0 <= f < |clean| => clean[f] || first <= f < end)
    case _ => clean
  }

  function CleanAfter(clean: seq<bool>, events: seq<Event>): (c: seq<bool>)
    ensures |c| == |clean|
  {
    if events == [] then clean else CleanStep(CleanAfter(clean, events[..|events| - 1]), events[|events| - 1])
  }

  lemma AfterAppend(ram: seq<Byte>, clean: seq<bool>, events: seq<Event>, e: Event)
    ensures RamAfter(ram, events + [e]) == RamStep(RamAfter(ram, events), e)
    ensures CleanAfter(clean, events + [e]) == CleanStep(CleanAfter(clean, events), e)
  {
    assert (events + [e])[..|events|] == events;
  }

  lemma {:induction false} AfterConcat(ram: seq<Byte>, clean: seq<bool>, x: seq<Event>, y: seq<Event>)
    ensures RamAfter(ram, x + y) == RamAfter(RamAfter(ram, x), y)
    ensures CleanAfter(clean, x + y) == CleanAfter(CleanAfter(clean, x), y)
  {
    if y == [] {
      assert x + y == x;
    } else {
      var rest, e := y[..|y| - 1], y[|y| - 1];
      AfterConcat(ram, clean, x, rest);
      assert x + y == (x + rest) + [e] && y == rest + [e];
      AfterAppend(ram, clean, x + rest, e);
    }
  }

  // ----- What is told

  // All events but stores: what the device hears, what is lost, and what is marked dirty.
  function Told(events: seq<Event>): seq<Event> {
    if events == [] then []
    else
      var last := events[|events| - 1];
      Told(events[..|events| - 1]) + if last.Stored? then [] else [last]
  }

  lemma {:induction false} ToldConcat(x: seq<Event>, y: seq<Event>)
    ensures Told(x + y) == Told(x) + Told(y)
  {
    if y == [] {
      assert x + y == x;
    } else {
      ToldConcat(x, y[..|y| - 1]);
      assert (x + y)[..|x + y| - 1] == x + y[..|y| - 1];
    }
  }

  lemma ToldOne(e: Event)
    ensures Told([e]) == if e.Stored? then [] else [e]
  {
    assert [e][..0] == [] && Told([e][..0]) == [];
  }

  // Stores leave clean frames alone.
  lemma {:induction false} ToldCleans(clean: seq<bool>, events: seq<Event>)
    ensures CleanAfter(clean, Told(events)) == CleanAfter(clean, events)
  {
    if events != [] {
      var init, last := events[..|events| - 1], events[|events| - 1];
      ToldCleans(clean, init);
      AfterAppend([], clean, Told(init), last);
      assert Told(init) + [] == Told(init);
    }
  }

  // ----- Announcements

  // Event e stores to the frame or marks it dirty.
  ghost predicate Touches(e: Event, frame: nat) {
    || (e.MarkedDirty? && e.frame == frame)
    || (e.Stored? && exists a: nat :: a in e.bytes && a / PAGE_SIZE == frame)
  }

  predicate Advises(e: Event, frame: nat) {
    e.Advised? && e.addr / PAGE_SIZE == frame
  }

  // Event e is the advice that e' acts on: to mark the frame, or to store the bytes without marking it.
  ghost predicate Announces(e: Event, e': Event) {
    && e.Advised?
    && (e'.MarkedDirty? ==> e.answer == DirtyOk && Advises(e, e'.frame))
    && (e'.Stored? ==> e.answer == DoNotMark &&
                       forall a: nat :: a in e'.bytes ==> e.addr <= a < e.addr + e.len && Advises(e, a / PAGE_SIZE))
  }

  // Event e touches a frame that is clean.
  ghost predicate TouchesClean(clean: seq<bool>, e: Event) {
    exists f: nat :: f < |clean| && clean[f] && Touches(e, f)
  }

  ghost predicate AnnouncedAt(clean: seq<bool>, events: seq<Event>, i: nat)
    requires i < |events|
  {
    TouchesClean(CleanAfter(clean, events[..i]), events[i]) ==> i > 0 && Announces(events[i - 1], events[i])
  }

  // Whatever touches a frame that is clean at the time comes right after the advice for it.
  ghost predicate Announced(clean: seq<bool>, events: seq<Event>) {
    forall i: nat :: i < |events| ==> AnnouncedAt(clean, events, i)
  }

  lemma AnnouncedAppend(clean: seq<bool>, events: seq<Event>, e: Event)
    requires Announced(clean, events)
    requires TouchesClean(CleanAfter(clean, events), e) ==> events != [] && Announces(events[|events| - 1], e)
    ensures Announced(clean, events + [e])
  {
    hide Announces, TouchesClean;
    var all := events + [e];
    forall i: nat | i < |all| ensures AnnouncedAt(clean, all, i) {
      if i < |events| {
        assert AnnouncedAt(clean, events, i);
        assert all[..i] == events[..i];
      } else {
        assert all[..i] == events;
      }
    }
  }

  lemma {:induction false} AnnouncedConcat(clean: seq<bool>, x: seq<Event>, y: seq<Event>)
    requires Announced(clean, x) && Announced(CleanAfter(clean, x), y)
    ensures Announced(clean, x + y)
  {
    hide Announces, TouchesClean;
    var all := x + y;
    forall i: nat | i < |all| ensures AnnouncedAt(clean, all, i) {
      if i < |x| {
        assert AnnouncedAt(clean, x, i);
        assert all[..i] == x[..i];
      } else {
        assert AnnouncedAt(CleanAfter(clean, x), y, i - |x|);
        assert all[..i] == x + y[..i - |x|];
        AfterConcat([], clean, x, y[..i - |x|]);
      }
    }
  }

  // Every advice is the device's own.
  ghost predicate Asked(events: seq<Event>, advise: (nat, nat) -> Advice) {
    forall i :: 0 <= i < |events| && events[i].Advised? ==> events[i].answer == advise(events[i].addr, events[i].len)
  }

  lemma AskedAppend(events: seq<Event>, e: Event, advise: (nat, nat) -> Advice)
    requires Asked(events, advise) && (e.Advised? ==> e.answer == advise(e.addr, e.len))
    ensures Asked(events + [e], advise)
  {
  }

  // ----- What the history says about a frame that was clean

  // The device was asked about the frame before anything touched it.
  ghost predicate AdvisedFirst(events: seq<Event>, frame: nat) {
    exists i: nat :: i < |events| && Advises(events[i], frame) && forall k: nat :: k <= i ==> !Touches(events[k], frame)
  }

  lemma {:induction false} StaysClean(clean: seq<bool>, events: seq<Event>, frame: nat)
    requires frame < |clean| && clean[frame] && forall k: nat :: k < |events| ==> !Touches(events[k], frame)
    ensures CleanAfter(clean, events)[frame]
  {
    if events != [] {
      var rest := events[..|events| - 1];
      forall k: nat | k < |rest| ensures !Touches(rest[k], frame) {
        assert rest[k] == events[k];
      }
      StaysClean(clean, rest, frame);
    }
  }

  lemma {:induction false} TouchedIsAdvised(clean: seq<bool>, events: seq<Event>, frame: nat, j: nat)
    requires Announced(clean, events) && frame < |clean| && clean[frame] && j < |events| && Touches(events[j], frame)
    ensures AdvisedFirst(events, frame)
  {
    if k: nat :| k < j && Touches(events[k], frame) {
      TouchedIsAdvised(clean, events, frame, k);
    } else {
      StaysClean(clean, events[..j], frame);
      assert AnnouncedAt(clean, events, j);
      assert Announces(events[j - 1], events[j]);
      assert Advises(events[j - 1], frame);
    }
  }

  // A byte or clean bit of the frame that differs was touched.
  lemma {:induction false} ChangedIsTouched(ram: seq<Byte>, clean: seq<bool>, events: seq<Event>, frame: nat)
    returns (j: nat)
    requires frame < |clean| && clean[frame]
    requires !CleanAfter(clean, events)[frame] ||
             exists a: nat :: a < |ram| && a / PAGE_SIZE == frame && RamAfter(ram, events)[a] != ram[a]
    ensures j < |events| && Touches(events[j], frame)
  {
    var rest, e := events[..|events| - 1], events[|events| - 1];
    if Touches(e, frame) {
      j := |events| - 1;
    } else {
      j := ChangedIsTouched(ram, clean, rest, frame);
    }
  }

  // Of a frame that was clean nothing changes before the device is asked about it.
  lemma ChangedIsAdvised(ram: seq<Byte>, clean: seq<bool>, events: seq<Event>, frame: nat)
    requires Announced(clean, events) && frame < |clean| && clean[frame]
    requires !CleanAfter(clean, events)[frame] ||
             exists a: nat :: a < |ram| && a / PAGE_SIZE == frame && RamAfter(ram, events)[a] != ram[a]
    ensures AdvisedFirst(events, frame)
  {
    var j := ChangedIsTouched(ram, clean, events, frame);
    TouchedIsAdvised(clean, events, frame, j);
  }

  // Up to its first touch the frame holds what it held.
  lemma {:induction false} UntouchedKeeps(ram: seq<Byte>, events: seq<Event>, frame: nat, a: nat)
    requires a < |ram| && a / PAGE_SIZE == frame && forall k: nat :: k < |events| ==> !Touches(events[k], frame)
    ensures RamAfter(ram, events)[a] == ram[a]
  {
    if events != [] {
      var rest, e := events[..|events| - 1], events[|events| - 1];
      forall k: nat | k < |rest| ensures !Touches(rest[k], frame) {
        assert rest[k] == events[k];
      }
      UntouchedKeeps(ram, rest, frame, a);
      assert !Touches(e, frame);
    }
  }

  // ----- Notification

  // The device is notified of every frame that becomes dirty, before anything else happens.
  ghost predicate Notifies(events: seq<Event>) {
    forall i: nat :: i < |events| && events[i].MarkedDirty? ==>
      i + 1 < |events| && events[i + 1] == Notified(events[i].frame)
  }

  lemma NotifiesConcat(x: seq<Event>, y: seq<Event>)
    requires Notifies(x) && Notifies(y)
    ensures Notifies(x + y)
  {
    forall i: nat | i < |x + y| && (x + y)[i].MarkedDirty?
      ensures i + 1 < |x + y| && (x + y)[i + 1] == Notified((x + y)[i].frame)
    {
      if i < |x| {
        assert x[i].MarkedDirty?;
      } else {
        assert y[i - |x|].MarkedDirty?;
      }
    }
  }

  lemma MarkNotifies(frame: nat)
    ensures Notifies([MarkedDirty(frame), Notified(frame)])
  {
  }

  // So whatever is stored once a frame was marked dirty, the device was notified in between.
  lemma NotifiedBeforeStore(events: seq<Event>, frame: nat, i: nat, j: nat)
    requires Notifies(events) && i < j < |events| && events[i] == MarkedDirty(frame) && events[j].Stored?
    ensures exists k: nat :: i < k < j && events[k] == Notified(frame)
  {
    assert events[i + 1] == Notified(frame);
  }
}
