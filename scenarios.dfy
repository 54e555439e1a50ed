/** Client scenarios proved against the controller's contracts: concrete commands sent
    to a controller that has been through setup, and what they leave on the
    strip. Setup's own Show counts, so a first command's Show is the second. */
module Scenarios {
  import opened Wire
  import opened Pixels
  import opened FrameStore
  import opened Lights

  /** Sends the SetFrame command that stores `f` in `slot`. */
  method SendFrame(c: Controller, slot: Byte, f: Frame, now: U32)
    requires c.Valid() && WellFormed(f) && f.isUsed && slot < FRAME_COUNT
    modifies c`currentMode, c`isAnimating, c`lastFrameTime, c.frameBuffer, c.strip, c`shown, c`showCount
    ensures c.Valid() && c.frameBuffer[..] == old(c.frameBuffer[..])[slot := f]
    ensures c.currentMode == old(c.currentMode) && c.isAnimating == old(c.isAnimating)
    ensures if slot == 0 && c.currentMode == SINGLE_FRAME then
        c.strip[..] == f.pixels && c.shown == f.pixels &&
        c.showCount == old(c.showCount) + 1 && c.lastFrameTime == now
      else
        c.strip[..] == old(c.strip[..]) && c.shown == old(c.shown) &&
        c.showCount == old(c.showCount) && c.lastFrameTime == old(c.lastFrameTime)
  {
    DecodeEncodeFrame(slot, f);
    var p := EncodeFrame(slot, f);
    assert ([2] + p)[1..1 + FRAME_BYTES] == p;
    var _ := c.Dispatch([2] + p, now);
  }

  /** Opcode 0x04 with [5, 255, 0, 0]: pixel 5 turns red and is shown once. */
  method SetPixelScenario() returns (pixels: seq<RGB>, ghost shows: nat)
    ensures |pixels| == PIXEL_COUNT && pixels[5] == RGB(255, 0, 0)
    ensures forall i :: 0 <= i < PIXEL_COUNT && i != 5 ==> pixels[i] == BLACK
    ensures shows == 2
  {
    var c := new Controller();
    c.Setup();
    var _ := c.Dispatch([4, 5, 255, 0, 0], 0);
    pixels := c.strip[..];
    shows := c.showCount;
  }

  /** Opcode 0x05 with two items: both pixels set, one Show after both. */
  method SetPixelsScenario() returns (pixels: seq<RGB>, ghost shown: seq<RGB>, ghost shows: nat)
    ensures |pixels| == PIXEL_COUNT
    ensures pixels[0] == RGB(10, 0, 0) && pixels[1] == RGB(0, 20, 0)
    ensures shown == pixels && shows == 2
  {
    var c := new Controller();
    c.Setup();
    var _ := c.Dispatch([5, 2, 0, 10, 0, 0, 1, 0, 20, 0], 0);
    pixels := c.strip[..];
    shown := c.shown;
    shows := c.showCount;
  }

  /** The same command cut off inside the second item: the first item is in
      the pixel buffer, the second is not, and only setup has shown. */
  method TruncatedSetPixelsScenario() returns (pixels: seq<RGB>, ghost shown: seq<RGB>, ghost shows: nat)
    ensures |pixels| == PIXEL_COUNT
    ensures pixels[0] == RGB(10, 0, 0) && pixels[1] == BLACK
    ensures shown == Blank() && shows == 1
  {
    var c := new Controller();
    c.Setup();
    var _ := c.Dispatch([5, 2, 0, 10, 0, 0, 1, 0], 0);
    pixels := c.strip[..];
    shown := c.shown;
    shows := c.showCount;
  }

  /** In SingleFrame mode, a frame sent for slot 0 is stored and latched at
      once, without waiting for its delay: one Show after setup's, and the
      latch time is the time of the command. */
  method SingleFrameScenario(f: Frame, now: U32)
    returns (pixels: seq<RGB>, slotZero: Frame, ghost shown: seq<RGB>, ghost shows: nat, ghost latchTime: U32)
    requires WellFormed(f) && f.isUsed
    ensures pixels == f.pixels && slotZero == f
    ensures shown == f.pixels && shows == 2 && latchTime == now
  {
    var c := new Controller();
    c.Setup();
    var _ := c.Dispatch([1, SINGLE_FRAME], now);
    SendFrame(c, 0, f, now);
    pixels := c.strip[..];
    slotZero := c.frameBuffer[0];
    shown := c.shown;
    shows := c.showCount;
    latchTime := c.lastFrameTime;
  }

  /** Frames in slots 0 and 3 and a red pixel 5, then Sleep: slot 0 is reset
      and the strip is blanked with one more Show, but slot 3 keeps its frame. */
  method SleepScenario(f: Frame, g: Frame)
    returns (pixels: seq<RGB>, slotZero: Frame, slotThree: Frame,
             ghost before: (Frame, RGB, nat), ghost shown: seq<RGB>, ghost shows: nat)
    requires WellFormed(f) && f.isUsed && WellFormed(g) && g.isUsed
    ensures before.0 == f && before.1 == RGB(255, 0, 0)
    ensures pixels == Blank() && shown == Blank() && shows == before.2 + 1
    ensures slotZero == DefaultFrame() && slotThree == g
  {
    var c := new Controller();
    c.Setup();
    SendFrame(c, 0, f, 0);
    SendFrame(c, 3, g, 0);
    var _ := c.Dispatch([4, 5, 255, 0, 0], 0);
    before := (c.frameBuffer[0], c.strip[5], c.showCount);
    var _ := c.Dispatch([1, SLEEP], 0);
    pixels := c.strip[..];
    slotZero := c.frameBuffer[0];
    slotThree := c.frameBuffer[3];
    shown := c.shown;
    shows := c.showCount;
  }
}
