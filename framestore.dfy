/** The frame store as a value: 30 slots, the default (unused) frame, the
    write of one slot, and the clear operation as the controller performs it. */
module FrameStore {
  import opened Wire

  /** A value-initialised Frame: unused, zero delay, every pixel black. */
  function DefaultFrame(): (f: Frame)
    ensures WellFormed(f) && !f.isUsed && f.delay == 0
    ensures forall i :: 0 <= i < |f.pixels| ==> f.pixels[i] == BLACK
  {
    Frame(seq(PIXEL_COUNT, _ => BLACK), 0, false)
  }

  /** Exactly FRAME_COUNT slots, each holding a full strip snapshot. */
  ghost predicate ValidStore(slots: seq<Frame>) {
    |slots| == FRAME_COUNT && forall i :: 0 <= i < |slots| ==> WellFormed(slots[i])
  }

  predicate NoUsedSlot(slots: seq<Frame>) {
    forall i :: 0 <= i < |slots| ==> !slots[i].isUsed
  }

  /** Writing `f` to `slot`, or nothing when there is no slot to write. */
  function StoreFrame(slots: seq<Frame>, slot: Option<nat>, f: Frame): (r: seq<Frame>)
    requires |slots| == FRAME_COUNT
    requires slot.Some? ==> slot.value < FRAME_COUNT
    ensures |r| == FRAME_COUNT
    ensures forall i :: 0 <= i < FRAME_COUNT ==> r[i] == (if slot == Some(i) then f else slots[i])
  {
    if slot.Some? then slots[slot.value := f] else slots
  }

  lemma StoreFrameKeepsValid(slots: seq<Frame>, slot: Option<nat>, f: Frame)
    requires ValidStore(slots) && WellFormed(f)
    requires slot.Some? ==> slot.value < FRAME_COUNT
    ensures ValidStore(StoreFrame(slots, slot, f))
  {
  }

  /** What clearing the store does as the source writes it: the loop runs
      thirty times but resets slot 0 on every iteration. */
  function ClearedAsWritten(slots: seq<Frame>): (r: seq<Frame>)
    requires |slots| == FRAME_COUNT
    ensures |r| == FRAME_COUNT && r[0] == DefaultFrame()
    ensures forall i :: 1 <= i < FRAME_COUNT ==> r[i] == slots[i]
  {
    slots[0 := DefaultFrame()]
  }

  lemma ClearedKeepsValid(slots: seq<Frame>)
    requires ValidStore(slots)
    ensures ValidStore(ClearedAsWritten(slots))
  {
  }

  lemma ClearedIdempotent(slots: seq<Frame>)
    requires |slots| == FRAME_COUNT
    ensures ClearedAsWritten(ClearedAsWritten(slots)) == ClearedAsWritten(slots)
  {
  }

  /** After a clear no slot is in use exactly when slots 1 to 29 were
      already unused: the clear itself only empties slot 0. */
  lemma ClearedEmptyIff(slots: seq<Frame>)
    requires |slots| == FRAME_COUNT
    ensures NoUsedSlot(ClearedAsWritten(slots)) <==> forall i :: 1 <= i < FRAME_COUNT ==> !slots[i].isUsed
  {
  }
}
