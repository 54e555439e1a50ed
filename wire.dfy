/** The byte-level protocol of the window-lights controller: geometry
    constants, the pixel and frame records, the big-endian delay field, the
    SetFrame payload layout, the opcode table and the framing of one command. */
module Wire {

  datatype Option<T> = None | Some(value: T)

  /** The strip runs around the perimeter of a 78 x 46 rectangle. */
  const HEIGHT: nat := 78
  const WIDTH: nat := 46
  const PIXEL_COUNT: nat := 2 * HEIGHT + 2 * (WIDTH - 2)
  /** Number of slots in the frame store. */
  const FRAME_COUNT: nat := 30
  /** SetFrame payload: slot byte, four delay bytes, three bytes per pixel. */
  const FRAME_BYTES: nat := 1 + 2 + 2 + PIXEL_COUNT * 3
  const TWO_32: int := 0x1_0000_0000

  type Byte = b: int | 0 <= b < 256
  /** An `unsigned long` of the target, 32 bits wide. */
  type U32 = n: int | 0 <= n < 0x1_0000_0000

  datatype RGB = RGB(r: Byte, g: Byte, b: Byte)

  const BLACK: RGB := RGB(0, 0, 0)

  /** One frame-store slot: a full strip snapshot, its dwell time in
      milliseconds, and whether the slot has been written. */
  datatype Frame = Frame(pixels: seq<RGB>, delay: U32, isUsed: bool)

  predicate WellFormed(f: Frame) {
    |f.pixels| == PIXEL_COUNT
  }

  /** Display modes, stored as the raw byte received. */
  const SLEEP: Byte := 0
  const SINGLE_FRAME: Byte := 1
  const FRAME_BUFFER_ONCE: Byte := 2
  const FRAME_BUFFER_LOOP: Byte := 3
  const ANIMATION: Byte := 4

  /** The modes that turn playback on. */
  predicate StartsPlayback(mode: Byte) {
    mode == FRAME_BUFFER_ONCE || mode == FRAME_BUFFER_LOOP || mode == ANIMATION
  }

  /** Sleep and every byte that names no mode: playback stops, the store is
      cleared and the strip blanked. */
  predicate StopsAndClears(mode: Byte) {
    mode != SINGLE_FRAME && !StartsPlayback(mode)
  }

  /** The connection has at least `n` unread bytes after the cursor `pos`;
      a peer that stalls past the socket timeout is a sequence cut short. */
  predicate WaitForPackets(conn: seq<Byte>, pos: nat, n: nat): (arrived: bool)
    requires pos <= |conn|
    ensures arrived ==> pos + n <= |conn|
    ensures !arrived ==> |conn[pos..]| < n
  {
    |conn| - pos >= n
  }

  /** A wait that succeeds also succeeds for fewer bytes, and for a peer
      that sends more. */
  lemma WaitForPacketsMonotone(conn: seq<Byte>, more: seq<Byte>, pos: nat, n: nat, m: nat)
    requires pos <= |conn| && m <= n && WaitForPackets(conn, pos, n)
    ensures WaitForPackets(conn, pos, m) && WaitForPackets(conn + more, pos, n)
  {
  }

  // ---------------------------------------------------------------------
  // The 32-bit big-endian delay field

  function BigEndian32(b0: Byte, b1: Byte, b2: Byte, b3: Byte): (d: nat)
    ensures d < TWO_32
  {
    b0 * 0x100_0000 + b1 * 0x1_0000 + b2 * 0x100 + b3
  }

  /** The four bytes a client sends for a delay `d`, most significant first. */
  function ToBigEndian32(d: U32): (b: seq<Byte>)
    ensures |b| == 4
  {
    [d / 0x100_0000, (d / 0x1_0000) % 0x100, (d / 0x100) % 0x100, d % 0x100]
  }

  lemma DivMod(q: int, r: int, m: int)
    requires 0 < m && 0 <= r < m
    ensures (q * m + r) / m == q && (q * m + r) % m == r
  {
    var k, s := (q * m + r) / m, (q * m + r) % m;
    assert k * m + s == q * m + r;
    assert (q - k) * m == s - r;
    if q - k >= 1 {
      assert false;
    } else if q - k <= -1 {
      assert false;
    }
  }

  lemma BigEndian32RoundTrip(b0: Byte, b1: Byte, b2: Byte, b3: Byte)
    ensures ToBigEndian32(BigEndian32(b0, b1, b2, b3)) == [b0, b1, b2, b3]
  {
    var d := BigEndian32(b0, b1, b2, b3);
    DivMod(b0, b1 * 0x1_0000 + b2 * 0x100 + b3, 0x100_0000);
    DivMod(b0 * 0x100 + b1, b2 * 0x100 + b3, 0x1_0000);
    DivMod(b0 * 0x100 + b1, b2, 0x100);
    DivMod(b0 * 0x1_0000 + b1 * 0x100 + b2, b3, 0x100);
    DivMod(b0 * 0x1_0000 + b1 * 0x100, b2, 0x100);
    DivMod(b0 * 0x100, b1, 0x100);
    DivMod(b0, 0, 0x100);
  }

  lemma ToBigEndian32RoundTrip(d: U32)
    ensures var b := ToBigEndian32(d); BigEndian32(b[0], b[1], b[2], b[3]) == d
  {
    var b := ToBigEndian32(d);
    var q1 := d / 0x100;
    var q2 := d / 0x1_0000;
    assert d == q1 * 0x100 + b[3];
    assert q1 == q2 * 0x100 + b[2];
    assert q2 == (b[0] as int) * 0x100 + b[1];
  }

  // ---------------------------------------------------------------------
  // The SetFrame payload

  /** Position of channel `c` of pixel `i` in the SetFrame payload. */
  function PixelOffset(i: nat, c: nat): (k: nat)
    requires i < PIXEL_COUNT && c < 3
    ensures 5 <= k < FRAME_BYTES
    ensures (k - 5) / 3 == i && (k - 5) % 3 == c
  {
    5 + 3 * i + c
  }

  /** Distinct channels of distinct pixels never share a payload byte. */
  lemma PixelOffsetInjective(i: nat, c: nat, i': nat, c': nat)
    requires i < PIXEL_COUNT && c < 3 && i' < PIXEL_COUNT && c' < 3
    requires PixelOffset(i, c) == PixelOffset(i', c')
    ensures i == i' && c == c'
  {
  }

  function DecodePixel(p: seq<Byte>, i: nat): RGB
    requires |p| == FRAME_BYTES && i < PIXEL_COUNT
  {
    RGB(p[PixelOffset(i, 0)], p[PixelOffset(i, 1)], p[PixelOffset(i, 2)])
  }

  /** The frame a full SetFrame payload describes. */
  function DecodeFrame(p: seq<Byte>): (f: Frame)
    requires |p| == FRAME_BYTES
    ensures WellFormed(f) && f.isUsed
  {
    Frame(seq(PIXEL_COUNT, i requires 0 <= i < PIXEL_COUNT => DecodePixel(p, i)),
          BigEndian32(p[1], p[2], p[3], p[4]),
          true)
  }

  function PixelBytes(px: seq<RGB>): (b: seq<Byte>)
    ensures |b| == 3 * |px|
  {
    if px == [] then [] else [px[0].r, px[0].g, px[0].b] + PixelBytes(px[1..])
  }

  lemma {:induction false} PixelBytesAt(px: seq<RGB>, i: nat)
    requires i < |px|
    ensures PixelBytes(px)[3 * i] == px[i].r
    ensures PixelBytes(px)[3 * i + 1] == px[i].g
    ensures PixelBytes(px)[3 * i + 2] == px[i].b
  {
    if i > 0 {
      PixelBytesAt(px[1..], i - 1);
    }
  }

  /** The payload a client sends to store `f` in `slot`. */
  function EncodeFrame(slot: Byte, f: Frame): (p: seq<Byte>)
    requires WellFormed(f)
    ensures |p| == FRAME_BYTES && p[0] == slot
  {
    [slot] + ToBigEndian32(f.delay) + PixelBytes(f.pixels)
  }

  lemma DecodeEncodeFrame(slot: Byte, f: Frame)
    requires WellFormed(f) && f.isUsed
    ensures DecodeFrame(EncodeFrame(slot, f)) == f
  {
    var p := EncodeFrame(slot, f);
    var px := PixelBytes(f.pixels);
    assert p == [slot] + ToBigEndian32(f.delay) + px;
    ToBigEndian32RoundTrip(f.delay);
    assert p[1..5] == ToBigEndian32(f.delay);
    assert forall k :: 5 <= k < FRAME_BYTES ==> p[k] == px[k - 5];
    forall i | 0 <= i < PIXEL_COUNT
      ensures DecodePixel(p, i) == f.pixels[i]
    {
      PixelBytesAt(f.pixels, i);
    }
    assert DecodeFrame(p).pixels == f.pixels;
  }

  lemma EncodeDecodeFrame(p: seq<Byte>)
    requires |p| == FRAME_BYTES
    ensures EncodeFrame(p[0], DecodeFrame(p)) == p
  {
    var f := DecodeFrame(p);
    var q := EncodeFrame(p[0], f);
    BigEndian32RoundTrip(p[1], p[2], p[3], p[4]);
    forall k | 5 <= k < FRAME_BYTES
      ensures q[k] == p[k]
    {
      var i, c := (k - 5) / 3, (k - 5) % 3;
      assert k == PixelOffset(i, c);
      PixelBytesAt(f.pixels, i);
      assert q[5..] == PixelBytes(f.pixels);
    }
    assert q[1..5] == p[1..5];
  }

  // ---------------------------------------------------------------------
  // Frame slot addressing

  /** The slot SetFrame writes, as the source computes it: the first payload
      byte, used as an index into the 30-slot store without any check. */
  function WrittenSlotAsWritten(p: seq<Byte>): (slot: nat)
    requires |p| == FRAME_BYTES
    ensures slot <= 255
  {
    p[0]
  }

  /** A complete, well-framed SetFrame payload can name a slot past the end
      of the store. */
  lemma SlotByteCanExceedStore()
    ensures exists p: seq<Byte> :: |p| == FRAME_BYTES && WrittenSlotAsWritten(p) >= FRAME_COUNT
  {
    var p: seq<Byte> := [255] + seq(FRAME_BYTES - 1, _ => 0);
    assert WrittenSlotAsWritten(p) == 255;
  }

  /** The slot SetFrame writes in this model: the first payload byte when it
      addresses the store, and nothing otherwise. */
  function TargetSlot(p: seq<Byte>): (slot: Option<nat>)
    requires |p| == FRAME_BYTES
    ensures slot.Some? <==> WrittenSlotAsWritten(p) < FRAME_COUNT
    ensures slot.Some? ==> slot.value == WrittenSlotAsWritten(p) && slot.value < FRAME_COUNT
  {
    if p[0] < FRAME_COUNT then Some(p[0]) else None
  }

  // ---------------------------------------------------------------------
  // The opcode table

  datatype Command =
    | ChangeModeOp
    | SetFrameOp
    | SetFramesOp
    | SetPixelOp
    | SetPixelsOp
    | ClearFrameBufferOp
    | InvalidOp(opcode: Byte)

  function DecodeOpcode(b: Byte): (c: Command)
    ensures c.InvalidOp? <==> !(1 <= b <= 6)
    ensures c.InvalidOp? ==> c.opcode == b
  {
    match b
    case 1 => ChangeModeOp
    case 2 => SetFrameOp
    case 3 => SetFramesOp
    case 4 => SetPixelOp
    case 5 => SetPixelsOp
    case 6 => ClearFrameBufferOp
    case _ => InvalidOp(b)
  }

  function Opcode(c: Command): Byte {
    match c
    case ChangeModeOp => 1
    case SetFrameOp => 2
    case SetFramesOp => 3
    case SetPixelOp => 4
    case SetPixelsOp => 5
    case ClearFrameBufferOp => 6
    case InvalidOp(b) => b
  }

  lemma OpcodeRoundTrip(b: Byte)
    ensures Opcode(DecodeOpcode(b)) == b
  {
  }

  lemma DecodeOpcodeRoundTrip(c: Command)
    requires c.InvalidOp? ==> !(1 <= c.opcode <= 6)
    ensures DecodeOpcode(Opcode(c)) == c
  {
  }

  // ---------------------------------------------------------------------
  // Framing of one command

  /** Number of bytes, opcode included, that a complete command occupies;
      None when the length cannot yet be told (a missing mode or count byte). */
  function CommandLength(conn: seq<Byte>): (n: Option<nat>)
    requires |conn| >= 1
    ensures n.Some? ==> n.value >= 1
  {
    match DecodeOpcode(conn[0])
    case ChangeModeOp => Some(2)
    case SetFrameOp => Some(1 + FRAME_BYTES)
    case SetPixelOp => Some(5)
    case SetPixelsOp => if |conn| >= 2 then Some(2 + 4 * (conn[1] as int)) else None
    case _ => Some(1)
  }

  predicate Complete(conn: seq<Byte>)
    requires |conn| >= 1
  {
    CommandLength(conn).Some? && CommandLength(conn).value <= |conn|
  }

  /** Bytes after a complete command do not change how it is framed. */
  lemma TrailingBytesIgnored(conn: seq<Byte>, extra: seq<Byte>)
    requires |conn| >= 1 && Complete(conn)
    ensures (conn + extra)[..|conn|] == conn
    ensures Complete(conn + extra) && CommandLength(conn + extra) == CommandLength(conn)
  {
    assert (conn + extra)[0] == conn[0];
    if |conn| >= 2 {
      assert (conn + extra)[1] == conn[1];
    }
  }
}
