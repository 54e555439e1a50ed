/** The controller: its global state as the fields of one object, the command
    handlers, the opcode dispatcher and the playback scheduler. A connection
    is the sequence of bytes the peer sends; the clock is a `now` argument. */
module Lights {
  import opened Wire
  import opened Pixels
  import opened FrameStore
  import opened Schedule

  /** Everything a caller can observe of the controller, for stating what an
      operation leaves alone. */
  datatype State = State(
    mode: Byte,
    animating: bool,
    frames: seq<Frame>,
    counter: nat,
    last: U32,
    strip: seq<RGB>,
    shown: seq<RGB>,
    showCount: nat)

  /** What the strip shows after a run that latched the slots `latched`,
      from a start of `strip0`, `shown0` and `shows0`: untouched if nothing
      was latched, otherwise the last latched slot, shown once per latch. */
  ghost predicate ShowsLatches(latched: seq<nat>, slots: seq<Frame>,
                               strip0: seq<RGB>, shown0: seq<RGB>, shows0: nat,
                               strip: seq<RGB>, shown: seq<RGB>, shows: nat)
  {
    shows == shows0 + |latched| &&
    if latched == [] then
      strip == strip0 && shown == shown0
    else
      latched[|latched| - 1] < |slots| &&
      strip == slots[latched[|latched| - 1]].pixels && shown == strip
  }

  /** One more tick extends the latched slots by what it latched. */
  lemma ShowsOneMoreLatch(latched: seq<nat>, s: Step, slots: seq<Frame>,
                          strip0: seq<RGB>, shown0: seq<RGB>, shows0: nat,
                          stripA: seq<RGB>, shownA: seq<RGB>, showsA: nat,
                          stripB: seq<RGB>, shownB: seq<RGB>, showsB: nat)
    requires ShowsLatches(latched, slots, strip0, shown0, shows0, stripA, shownA, showsA)
    requires match s.latched
      case Some(k) => k < |slots| && stripB == slots[k].pixels && shownB == stripB && showsB == showsA + 1
      case None => stripB == stripA && shownB == shownA && showsB == showsA
    ensures ShowsLatches(latched + LatchedSlots(s), slots, strip0, shown0, shows0, stripB, shownB, showsB)
  {
    assert latched + [] == latched;
  }

  class Controller {
    var currentMode: Byte
    var isAnimating: bool
    const frameBuffer: array<Frame>
    var frameCounter: nat
    var lastFrameTime: U32
    /** The strip driver's pixel buffer; Show latches it to the LEDs. */
    const strip: array<RGB>
    /** The pixels most recently latched, and how many latches there were. */
    ghost var shown: seq<RGB>
    ghost var showCount: nat

    ghost predicate Valid()
      reads this, frameBuffer
    {
      frameBuffer.Length == FRAME_COUNT && strip.Length == PIXEL_COUNT &&
      ValidStore(frameBuffer[..]) && frameCounter <= FRAME_COUNT && |shown| == PIXEL_COUNT
    }

    ghost function Snapshot(): State
      reads this, frameBuffer, strip
    {
      State(currentMode, isAnimating, frameBuffer[..], frameCounter, lastFrameTime, strip[..], shown, showCount)
    }

    /** The scheduler's part of the state: playing flag, cursor, last latch time. */
    ghost function Scheduler(): Cursor
      reads this
    {
      Cursor(isAnimating, frameCounter, lastFrameTime)
    }

    /** Power-on state: Sleep, no playback, every slot default, cursor 0. */
    constructor ()
      ensures Valid() && fresh(frameBuffer) && fresh(strip)
      ensures currentMode == SLEEP && !isAnimating && frameCounter == 0 && lastFrameTime == 0
      ensures frameBuffer[..] == seq(FRAME_COUNT, _ => DefaultFrame())
      ensures strip[..] == Blank() && shown == Blank() && showCount == 0
    {
      currentMode := SLEEP;
      isAnimating := false;
      frameBuffer := new Frame[FRAME_COUNT](_ => DefaultFrame());
      frameCounter := 0;
      lastFrameTime := 0;
      strip := new RGB[PIXEL_COUNT](_ => BLACK);
      shown := Blank();
      showCount := 0;
    }

    /** setup(): clear the store and blank the strip. */
    method Setup()
      requires Valid()
      modifies frameBuffer, strip, this`shown, this`showCount
      ensures Valid()
      ensures frameBuffer[..] == ClearedAsWritten(old(frameBuffer[..]))
      ensures strip[..] == Blank() && shown == Blank() && showCount == old(showCount) + 1
    {
      ClearFrameBuffer();
      BlankOutput();
    }

    // -------------------------------------------------------------------
    // The strip driver

    /** Latch the pixel buffer to the LEDs. */
    method Show()
      requires Valid()
      modifies this`shown, this`showCount
      ensures Valid()
      ensures shown == strip[..] && showCount == old(showCount) + 1
    {
      shown := strip[..];
      showCount := showCount + 1;
    }

    /** Set one pixel of the buffer; an index past the strip is dropped. */
    method SetPixelColor(i: int, c: RGB)
      modifies strip
      ensures strip[..] == SetPixel(old(strip[..]), i, c)
    {
      if 0 <= i < strip.Length {
        strip[i] := c;
      }
    }

    method BlankOutput()
      requires Valid()
      modifies strip, this`shown, this`showCount
      ensures Valid()
      ensures strip[..] == Blank() && shown == Blank() && showCount == old(showCount) + 1
    {
      for i := 0 to PIXEL_COUNT
        modifies strip
        invariant forall k :: 0 <= k < i ==> strip[k] == BLACK
      {
        SetPixelColor(i, BLACK);
      }
      assert strip[..] == Blank();
      Show();
    }

    /** Copy a frame into the buffer, latch it, and note the latch time. */
    method WriteFrameToDisplay(f: Frame, now: U32)
      requires Valid() && WellFormed(f)
      modifies strip, this`shown, this`showCount, this`lastFrameTime
      ensures Valid()
      ensures strip[..] == f.pixels && shown == f.pixels
      ensures showCount == old(showCount) + 1 && lastFrameTime == now
    {
      for i := 0 to PIXEL_COUNT
        modifies strip
        invariant forall k :: 0 <= k < i ==> strip[k] == f.pixels[k]
      {
        SetPixelColor(i, f.pixels[i]);
      }
      assert strip[..] == f.pixels;
      Show();
      lastFrameTime := now;
    }

    // -------------------------------------------------------------------
    // The frame store

    /** The loop resets slot 0 on each of its thirty iterations. */
    method ClearFrameBuffer()
      requires Valid()
      modifies frameBuffer
      ensures Valid()
      ensures frameBuffer[..] == ClearedAsWritten(old(frameBuffer[..]))
    {
      ClearedKeepsValid(frameBuffer[..]);
      for i := 0 to FRAME_COUNT
        invariant frameBuffer[..] == if i == 0 then old(frameBuffer[..]) else ClearedAsWritten(old(frameBuffer[..]))
      {
        frameBuffer[0] := DefaultFrame();
      }
    }

    // -------------------------------------------------------------------
    // Command handlers; `pos` is the read cursor, the result the new one

    /** SetPixel: index, red, green, blue; shown at once. */
    method ReadPixel(conn: seq<Byte>, pos: nat) returns (next: nat)
      requires Valid() && pos <= |conn|
      modifies strip, this`shown, this`showCount
      ensures Valid()
      ensures !WaitForPackets(conn, pos, 4) ==>
        next == pos && strip[..] == old(strip[..]) && shown == old(shown) && showCount == old(showCount)
      ensures WaitForPackets(conn, pos, 4) ==>
        next == pos + 4 &&
        strip[..] == SetPixel(old(strip[..]), conn[pos], RGB(conn[pos + 1], conn[pos + 2], conn[pos + 3])) &&
        shown == strip[..] && showCount == old(showCount) + 1
    {
      if !WaitForPackets(conn, pos, 4) {
        return pos;
      }
      var buffer := conn[pos..pos + 4];
      SetPixelColor(buffer[0], RGB(buffer[1], buffer[2], buffer[3]));
      Show();
      next := pos + 4;
    }

    /** SetPixels: a count byte, then that many four-byte items applied in
        order and shown once at the end. An item that does not arrive ends
        the command: earlier items stay in the buffer and nothing is shown. */
    method ReadPixels(conn: seq<Byte>, pos: nat) returns (next: nat)
      requires Valid() && pos <= |conn|
      modifies strip, this`shown, this`showCount
      ensures Valid()
      ensures !WaitForPackets(conn, pos, 1) ==>
        next == pos && strip[..] == old(strip[..]) && shown == old(shown) && showCount == old(showCount)
      ensures WaitForPackets(conn, pos, 1) ==>
        var count, items := conn[pos], conn[pos + 1..];
        var n := AppliedItems(count, |items|);
        next == pos + 1 + 4 * n &&
        strip[..] == ApplyItems(old(strip[..]), items, n) &&
        if n == count then shown == strip[..] && showCount == old(showCount) + 1
        else shown == old(shown) && showCount == old(showCount)
    {
      if !WaitForPackets(conn, pos, 1) {
        return pos;
      }
      var numPixels := conn[pos];
      next := pos + 1;
      ghost var items := conn[pos + 1..];
      ghost var applied: nat := 0;
      while numPixels > 0
        modifies strip
        invariant applied + numPixels == conn[pos]
        invariant next == pos + 1 + 4 * applied && 4 * applied <= |items|
        invariant strip[..] == ApplyItems(old(strip[..]), items, applied)
      {
        if !WaitForPackets(conn, next, 4) {
          assert AppliedItems(conn[pos], |items|) == applied;
          return;
        }
        var buffer := conn[next..next + 4];
        assert buffer[0] == ItemIndex(items, applied);
        assert RGB(buffer[1], buffer[2], buffer[3]) == ItemColour(items, applied);
        SetPixelColor(buffer[0], RGB(buffer[1], buffer[2], buffer[3]));
        next := next + 4;
        applied := applied + 1;
        numPixels := numPixels - 1;
      }
      assert AppliedItems(conn[pos], |items|) == conn[pos] == applied;
      Show();
    }

    /** SetFrame: slot byte, big-endian delay, then every pixel. Nothing is
        read unless the whole payload is there. A slot past the store drops
        the frame; slot 0 in SingleFrame mode is latched at once. */
    method ReadFrame(conn: seq<Byte>, pos: nat, now: U32) returns (next: nat)
      requires Valid() && pos <= |conn|
      modifies frameBuffer, strip, this`shown, this`showCount, this`lastFrameTime
      ensures Valid()
      ensures !WaitForPackets(conn, pos, FRAME_BYTES) ==>
        next == pos && Snapshot() == old(Snapshot())
      ensures WaitForPackets(conn, pos, FRAME_BYTES) ==>
        var p := conn[pos..pos + FRAME_BYTES];
        next == pos + FRAME_BYTES &&
        frameBuffer[..] == StoreFrame(old(frameBuffer[..]), TargetSlot(p), DecodeFrame(p)) &&
        if p[0] == 0 && currentMode == SINGLE_FRAME then
          strip[..] == DecodeFrame(p).pixels && shown == strip[..] &&
          showCount == old(showCount) + 1 && lastFrameTime == now
        else
          strip[..] == old(strip[..]) && shown == old(shown) &&
          showCount == old(showCount) && lastFrameTime == old(lastFrameTime)
    {
      if !WaitForPackets(conn, pos, FRAME_BYTES) {
        return pos;
      }
      var buffer := conn[pos..pos + FRAME_BYTES];
      next := pos + FRAME_BYTES;
      var delay := BigEndian32(buffer[1], buffer[2], buffer[3], buffer[4]);
      var pixels := new RGB[PIXEL_COUNT];
      var i, j := 0, 4;
      while i < PIXEL_COUNT
        modifies pixels
        invariant 0 <= i <= PIXEL_COUNT && j == 4 + 3 * i
        invariant forall k :: 0 <= k < i ==> pixels[k] == DecodePixel(buffer, k)
      {
        pixels[i] := RGB(buffer[j + 1], buffer[j + 2], buffer[j + 3]);
        j := j + 3;
        i := i + 1;
      }
      var frame := Frame(pixels[..], delay, true);
      assert frame == DecodeFrame(buffer);
      var slot := TargetSlot(buffer);
      StoreFrameKeepsValid(frameBuffer[..], slot, frame);
      if slot.Some? {
        frameBuffer[slot.value] := frame;
      }
      assert frameBuffer[..] == StoreFrame(old(frameBuffer[..]), slot, frame);
      if buffer[0] == 0 && currentMode == SINGLE_FRAME {
        WriteFrameToDisplay(frameBuffer[0], now);
      }
    }

    /** ChangeMode: the mode byte is stored whatever it is. */
    method ChangeMode(conn: seq<Byte>, pos: nat) returns (next: nat)
      requires Valid() && pos < |conn|
      modifies this`currentMode, this`isAnimating, frameBuffer, strip, this`shown, this`showCount
      ensures Valid() && next == pos + 1
      ensures currentMode == conn[pos] && isAnimating == StartsPlayback(conn[pos])
      ensures StopsAndClears(conn[pos]) ==>
        frameBuffer[..] == ClearedAsWritten(old(frameBuffer[..])) &&
        strip[..] == Blank() && shown == Blank() && showCount == old(showCount) + 1
      ensures !StopsAndClears(conn[pos]) ==>
        frameBuffer[..] == old(frameBuffer[..]) && strip[..] == old(strip[..]) &&
        shown == old(shown) && showCount == old(showCount)
    {
      var buffer := conn[pos];
      next := pos + 1;
      currentMode := buffer;
      if buffer == SINGLE_FRAME {
        isAnimating := false;
      } else if buffer == FRAME_BUFFER_ONCE || buffer == FRAME_BUFFER_LOOP {
        isAnimating := true;
      } else if buffer == ANIMATION {
        // the animation parameters are not read: readAnimation is empty
        isAnimating := true;
      } else {
        isAnimating := false;
        ClearFrameBuffer();
        BlankOutput();
      }
    }

    // -------------------------------------------------------------------
    // The opcode switch and the main loop

    /** One connection: read the opcode, run its handler, stop. */
    method Dispatch(conn: seq<Byte>, now: U32) returns (consumed: nat)
      requires Valid() && |conn| >= 1 && (conn[0] == 1 ==> |conn| >= 2)
      modifies this`currentMode, this`isAnimating, this`lastFrameTime, frameBuffer, strip, this`shown, this`showCount
      ensures Valid() && 1 <= consumed <= |conn|
      ensures frameCounter == old(frameCounter)
      ensures Complete(conn) ==> consumed == CommandLength(conn).value
      ensures DecodeOpcode(conn[0]) == SetFramesOp || DecodeOpcode(conn[0]).InvalidOp? ==>
        consumed == 1 && Snapshot() == old(Snapshot())
      ensures DecodeOpcode(conn[0]) == ClearFrameBufferOp ==>
        consumed == 1 && Snapshot() == old(Snapshot()).(frames := ClearedAsWritten(old(frameBuffer[..])))
      ensures DecodeOpcode(conn[0]) == ChangeModeOp ==>
        consumed == 2 && currentMode == conn[1] && isAnimating == StartsPlayback(conn[1]) &&
        lastFrameTime == old(lastFrameTime) &&
        if StopsAndClears(conn[1]) then
          frameBuffer[..] == ClearedAsWritten(old(frameBuffer[..])) &&
          strip[..] == Blank() && shown == Blank() && showCount == old(showCount) + 1
        else
          frameBuffer[..] == old(frameBuffer[..]) && strip[..] == old(strip[..]) &&
          shown == old(shown) && showCount == old(showCount)
      ensures DecodeOpcode(conn[0]) == SetFrameOp ==>
        currentMode == old(currentMode) && isAnimating == old(isAnimating) &&
        if !WaitForPackets(conn, 1, FRAME_BYTES) then
          consumed == 1 && Snapshot() == old(Snapshot())
        else
          var p := conn[1..1 + FRAME_BYTES];
          consumed == 1 + FRAME_BYTES &&
          frameBuffer[..] == StoreFrame(old(frameBuffer[..]), TargetSlot(p), DecodeFrame(p)) &&
          if p[0] == 0 && currentMode == SINGLE_FRAME then
            strip[..] == DecodeFrame(p).pixels && shown == strip[..] &&
            showCount == old(showCount) + 1 && lastFrameTime == now
          else
            strip[..] == old(strip[..]) && shown == old(shown) &&
            showCount == old(showCount) && lastFrameTime == old(lastFrameTime)
      ensures DecodeOpcode(conn[0]) in {SetPixelOp, SetPixelsOp} ==>
        currentMode == old(currentMode) && isAnimating == old(isAnimating) &&
        frameBuffer[..] == old(frameBuffer[..]) && lastFrameTime == old(lastFrameTime)
      ensures DecodeOpcode(conn[0]) == SetPixelOp ==>
        if !WaitForPackets(conn, 1, 4) then
          consumed == 1 && strip[..] == old(strip[..]) && shown == old(shown) && showCount == old(showCount)
        else
          consumed == 5 &&
          strip[..] == SetPixel(old(strip[..]), conn[1], RGB(conn[2], conn[3], conn[4])) &&
          shown == strip[..] && showCount == old(showCount) + 1
      ensures DecodeOpcode(conn[0]) == SetPixelsOp ==>
        if !WaitForPackets(conn, 1, 1) then
          consumed == 1 && strip[..] == old(strip[..]) && shown == old(shown) && showCount == old(showCount)
        else
          var n := AppliedItems(conn[1], |conn| - 2);
          consumed == 2 + 4 * n &&
          strip[..] == ApplyItems(old(strip[..]), conn[2..], n) &&
          if n == conn[1] then shown == strip[..] && showCount == old(showCount) + 1
          else shown == old(shown) && showCount == old(showCount)
    {
      var opcode := conn[0];
      var next := 1;
      match DecodeOpcode(opcode) {
      case ChangeModeOp =>
        next := ChangeMode(conn, next);
      case SetFrameOp =>
        next := ReadFrame(conn, next, now);
      case SetFramesOp =>
        // readFrames has an empty body
      case SetPixelOp =>
        next := ReadPixel(conn, next);
      case SetPixelsOp =>
        next := ReadPixels(conn, next);
      case ClearFrameBufferOp =>
        ClearFrameBuffer();
      case InvalidOp(_) =>
        // logged and ignored
      }
      consumed := next;
    }

    /** One pass of the main loop: a scheduler tick, then the command of the
        waiting connection, if there is one. */
    method Loop(now: U32, client: Option<seq<Byte>>)
      requires Valid()
      requires client.Some? ==> |client.value| >= 1 && (client.value[0] == 1 ==> |client.value| >= 2)
      modifies this`currentMode, this`isAnimating, this`frameCounter, this`lastFrameTime
      modifies frameBuffer, strip, this`shown, this`showCount
      ensures Valid()
      ensures frameCounter == Tick(old(currentMode), old(isAnimating), old(frameCounter), old(lastFrameTime), old(frameBuffer[..]), now).counter
      ensures client.None? ==>
        currentMode == old(currentMode) && frameBuffer[..] == old(frameBuffer[..]) &&
        Scheduler() == Advance(currentMode, old(Scheduler()), frameBuffer[..], now) &&
        match Tick(currentMode, old(isAnimating), old(frameCounter), old(lastFrameTime), frameBuffer[..], now).latched
        case Some(k) =>
          strip[..] == frameBuffer[k].pixels && shown == strip[..] && showCount == old(showCount) + 1
        case None =>
          strip[..] == old(strip[..]) && shown == old(shown) && showCount == old(showCount)
    {
      UpdateDisplay(now);
      if client.Some? {
        var _ := Dispatch(client.value, now);
      }
    }

    /** Passes of the main loop at the clock readings `nows` with no client
        connecting: the scheduler state is the one `Run` computes, and the
        strip holds the last slot latched, shown once per latch. */
    method IdleLoops(nows: seq<U32>)
      requires Valid()
      modifies this`currentMode, this`isAnimating, this`frameCounter, this`lastFrameTime
      modifies frameBuffer, strip, this`shown, this`showCount
      ensures Valid() && currentMode == old(currentMode) && frameBuffer[..] == old(frameBuffer[..])
      ensures var r := Run(currentMode, old(Scheduler()), frameBuffer[..], nows);
        Scheduler() == r.0 &&
        ShowsLatches(r.1, frameBuffer[..], old(strip[..]), old(shown), old(showCount), strip[..], shown, showCount)
    {
      ghost var mode, c0, slots := currentMode, Scheduler(), frameBuffer[..];
      ghost var strip0, shown0, shows0 := strip[..], shown, showCount;
      for i := 0 to |nows|
        invariant Valid() && currentMode == mode && frameBuffer[..] == slots
        invariant Scheduler() == Run(mode, c0, slots, nows[..i]).0
        invariant ShowsLatches(Run(mode, c0, slots, nows[..i]).1, slots, strip0, shown0, shows0, strip[..], shown, showCount)
      {
        ghost var r := Run(mode, c0, slots, nows[..i]);
        ghost var stripA, shownA, showsA := strip[..], shown, showCount;
        RunAppend(mode, c0, slots, nows[..i], nows[i]);
        Loop(nows[i], None);
        ShowsOneMoreLatch(r.1, Tick(mode, r.0.animating, r.0.counter, r.0.last, slots, nows[i]), slots,
          strip0, shown0, shows0, stripA, shownA, showsA, strip[..], shown, showCount);
        assert nows[..i + 1] == nows[..i] + [nows[i]];
      }
      assert nows[..|nows|] == nows;
    }

    // -------------------------------------------------------------------
    // The scheduler

    method UpdateDisplay(now: U32)
      requires Valid()
      modifies this`isAnimating, this`frameCounter, this`lastFrameTime, strip, this`shown, this`showCount
      ensures Valid()
      ensures Scheduler() == Advance(currentMode, old(Scheduler()), frameBuffer[..], now)
      ensures var s := Tick(currentMode, old(isAnimating), old(frameCounter), old(lastFrameTime), frameBuffer[..], now);
        isAnimating == s.animating && frameCounter == s.counter &&
        match s.latched
        case Some(k) =>
          strip[..] == frameBuffer[k].pixels && shown == strip[..] &&
          showCount == old(showCount) + 1 && lastFrameTime == now
        case None =>
          strip[..] == old(strip[..]) && shown == old(shown) &&
          showCount == old(showCount) && lastFrameTime == old(lastFrameTime)
    {
      if !isAnimating {
        return;
      }
      if frameCounter > FRAME_COUNT - 1 {
        if currentMode == FRAME_BUFFER_ONCE {
          isAnimating := false;
        }
        frameCounter := 0;
      }
      if !frameBuffer[frameCounter].isUsed {
        frameCounter := frameCounter + 1;
        return;
      }
      isAnimating := false;
      if Elapsed(now, lastFrameTime) >= frameBuffer[frameCounter].delay {
        WriteFrameToDisplay(frameBuffer[frameCounter], now);
        frameCounter := frameCounter + 1;
      }
      isAnimating := true;
    }
  }
}
