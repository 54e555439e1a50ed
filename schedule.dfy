/** The playback scheduler as a function of its state: one tick of
    updateDisplay, and a run of ticks at given clock readings. */
module Schedule {
  import opened Wire
  import opened FrameStore

  /** `now - last` on 32-bit unsigned clock readings, wrapping past 2^32. */
  function Elapsed(now: U32, last: U32): (e: U32)
    ensures (last + e) % TWO_32 == now
    ensures last <= now ==> e == now - last
  {
    (now - last) % TWO_32
  }

  /** Outcome of one tick: whether playback is still on, the new cursor, and
      the slot latched to the strip, if any. */
  datatype Step = Step(animating: bool, counter: nat, latched: Option<nat>)

  /** One call of updateDisplay. A cursor past the last slot wraps to 0 and,
      in FrameBufferOnce mode, clears the playing flag; an unused slot is
      skipped; a used slot is latched once its delay has elapsed since the
      previous latch. Latching a used slot sets the playing flag again. */
  function Tick(mode: Byte, animating: bool, counter: nat, last: U32, slots: seq<Frame>, now: U32): (s: Step)
    requires |slots| == FRAME_COUNT && counter <= FRAME_COUNT
    ensures s.counter <= FRAME_COUNT
    ensures s.latched.Some? ==> s.latched.value < FRAME_COUNT && slots[s.latched.value].isUsed
    ensures !animating ==> s == Step(false, counter, None)
  {
    if !animating then Step(false, counter, None)
    else
      var wrapped := counter > FRAME_COUNT - 1;
      var playing := !(wrapped && mode == FRAME_BUFFER_ONCE);
      var c := if wrapped then 0 else counter;
      if !slots[c].isUsed then Step(playing, c + 1, None)
      else if Elapsed(now, last) >= slots[c].delay then Step(true, c + 1, Some(c))
      else Step(true, c, None)
  }

  lemma TickSkipsUnused(mode: Byte, counter: nat, last: U32, slots: seq<Frame>, now: U32)
    requires |slots| == FRAME_COUNT && counter < FRAME_COUNT && !slots[counter].isUsed
    ensures Tick(mode, true, counter, last, slots, now) == Step(true, counter + 1, None)
  {
  }

  lemma TickLatchesDueSlot(mode: Byte, counter: nat, last: U32, slots: seq<Frame>, now: U32)
    requires |slots| == FRAME_COUNT && counter < FRAME_COUNT && slots[counter].isUsed
    requires Elapsed(now, last) >= slots[counter].delay
    ensures Tick(mode, true, counter, last, slots, now) == Step(true, counter + 1, Some(counter))
  {
  }

  lemma TickWaitsForDelay(mode: Byte, counter: nat, last: U32, slots: seq<Frame>, now: U32)
    requires |slots| == FRAME_COUNT && counter < FRAME_COUNT && slots[counter].isUsed
    requires Elapsed(now, last) < slots[counter].delay
    ensures Tick(mode, true, counter, last, slots, now) == Step(true, counter, None)
  {
  }

  /** At the wrap, FrameBufferOnce stops only when slot 0 is unused: a used
      slot 0 turns the playing flag back on in the same tick. */
  lemma OnceModeStopsIffSlotZeroUnused(last: U32, slots: seq<Frame>, now: U32)
    requires |slots| == FRAME_COUNT
    ensures var s := Tick(FRAME_BUFFER_ONCE, true, FRAME_COUNT, last, slots, now);
            (!s.animating <==> !slots[0].isUsed) && s.counter <= 1
  {
  }

  /** Outside FrameBufferOnce a playing scheduler never stops by itself. */
  lemma OtherModesKeepPlaying(mode: Byte, counter: nat, last: U32, slots: seq<Frame>, now: U32)
    requires |slots| == FRAME_COUNT && counter <= FRAME_COUNT && mode != FRAME_BUFFER_ONCE
    ensures Tick(mode, true, counter, last, slots, now).animating
  {
  }

  /** Scheduler state kept between ticks. */
  datatype Cursor = Cursor(animating: bool, counter: nat, last: U32)

  function Advance(mode: Byte, c: Cursor, slots: seq<Frame>, now: U32): (d: Cursor)
    requires |slots| == FRAME_COUNT && c.counter <= FRAME_COUNT
    ensures d.counter <= FRAME_COUNT
  {
    var s := Tick(mode, c.animating, c.counter, c.last, slots, now);
    Cursor(s.animating, s.counter, if s.latched.Some? then now else c.last)
  }

  /** Ticks at the clock readings `nows`, in order: the final cursor and the
      slots latched, in the order they were latched. */
  function Run(mode: Byte, c: Cursor, slots: seq<Frame>, nows: seq<U32>): (r: (Cursor, seq<nat>))
    requires |slots| == FRAME_COUNT && c.counter <= FRAME_COUNT
    ensures r.0.counter <= FRAME_COUNT
    ensures forall k :: 0 <= k < |r.1| ==> r.1[k] < FRAME_COUNT && slots[r.1[k]].isUsed
    decreases |nows|
  {
    if nows == [] then (c, [])
    else
      var s := Tick(mode, c.animating, c.counter, c.last, slots, nows[0]);
      var rest := Run(mode, Advance(mode, c, slots, nows[0]), slots, nows[1..]);
      (rest.0, LatchedSlots(s) + rest.1)
  }

  /** The slot one tick latches, as a list of at most one element. */
  function LatchedSlots(s: Step): seq<nat> {
    if s.latched.Some? then [s.latched.value] else []
  }

  /** A run one tick longer is the run followed by one more tick: the view
      of a run as repeated passes of the main loop. */
  lemma {:induction false} RunAppend(mode: Byte, c: Cursor, slots: seq<Frame>, nows: seq<U32>, now: U32)
    requires |slots| == FRAME_COUNT && c.counter <= FRAME_COUNT
    ensures var r := Run(mode, c, slots, nows);
      Run(mode, c, slots, nows + [now]) ==
        (Advance(mode, r.0, slots, now),
         r.1 + LatchedSlots(Tick(mode, r.0.animating, r.0.counter, r.0.last, slots, now)))
    decreases |nows|
  {
    if nows == [] {
      assert [] + [now] == [now];
      assert [now][1..] == [];
      var e := LatchedSlots(Tick(mode, c.animating, c.counter, c.last, slots, now));
      assert Run(mode, c, slots, [now]) == (Advance(mode, c, slots, now), e + []);
      assert e + [] == [] + e;
    } else {
      var d := Advance(mode, c, slots, nows[0]);
      assert (nows + [now])[0] == nows[0];
      assert (nows + [now])[1..] == nows[1..] + [now];
      RunAppend(mode, d, slots, nows[1..], now);
      var s := Tick(mode, c.animating, c.counter, c.last, slots, nows[0]);
      var r := Run(mode, d, slots, nows[1..]);
      var e := LatchedSlots(Tick(mode, r.0.animating, r.0.counter, r.0.last, slots, now));
      assert LatchedSlots(s) + (r.1 + e) == (LatchedSlots(s) + r.1) + e;
    }
  }

  lemma {:induction false} StoppedStaysIdle(mode: Byte, c: Cursor, slots: seq<Frame>, nows: seq<U32>)
    requires |slots| == FRAME_COUNT && c.counter <= FRAME_COUNT && !c.animating
    ensures Run(mode, c, slots, nows) == (c, [])
    decreases |nows|
  {
    if nows != [] {
      assert Advance(mode, c, slots, nows[0]) == c;
      StoppedStaysIdle(mode, c, slots, nows[1..]);
      assert Tick(mode, c.animating, c.counter, c.last, slots, nows[0]).latched == None;
      assert [] + Run(mode, c, slots, nows[1..]).1 == [];
    }
  }

  lemma {:induction false} OtherModesNeverStop(mode: Byte, c: Cursor, slots: seq<Frame>, nows: seq<U32>)
    requires |slots| == FRAME_COUNT && c.counter <= FRAME_COUNT
    requires c.animating && mode != FRAME_BUFFER_ONCE
    ensures Run(mode, c, slots, nows).0.animating
    decreases |nows|
  {
    if nows != [] {
      OtherModesKeepPlaying(mode, c.counter, c.last, slots, nows[0]);
      OtherModesNeverStop(mode, Advance(mode, c, slots, nows[0]), slots, nows[1..]);
    }
  }

  lemma {:induction false} EmptyStoreNeverLatches(mode: Byte, c: Cursor, slots: seq<Frame>, nows: seq<U32>)
    requires |slots| == FRAME_COUNT && c.counter <= FRAME_COUNT && NoUsedSlot(slots)
    ensures Run(mode, c, slots, nows).1 == []
    ensures Run(mode, c, slots, nows).0.last == c.last
    decreases |nows|
  {
    if nows != [] {
      EmptyStoreNeverLatches(mode, Advance(mode, c, slots, nows[0]), slots, nows[1..]);
    }
  }
}
