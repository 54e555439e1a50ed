# windowlights controller, modelled in Dafny

This project models the controller of a window-frame LED strip. The strip has
244 pixels running around the perimeter of a 78 x 46 rectangle. It is driven
by commands that arrive one per network connection. The model covers three
parts of the controller, which share one set of global state.

- The command dispatcher and its payload decoders. The dispatcher reads one
  opcode byte and runs one handler: ChangeMode (0x01), SetFrame (0x02),
  SetFrames (0x03, an empty handler), SetPixel (0x04), SetPixels (0x05) or
  ClearFrameBuffer (0x06).
- The frame store. It has 30 slots, and each slot holds a full strip
  snapshot, a 32-bit delay in milliseconds and a used flag.
- The playback scheduler (`updateDisplay`). It advances a cursor over the
  used slots and latches each slot to the strip once its delay has elapsed.

Modules:

- `Wire` (wire.dfy) holds the constants, the `RGB` and `Frame` records, the
  big-endian delay field, the SetFrame payload layout and its encoder, the
  opcode table and the framing of one command. Three helpers have no row of
  their own: `StartsPlayback` and `StopsAndClears` name the branches of the
  `changeMode` switch (main.cpp lines 313-338) that `ChangeMode` and
  `Dispatch` state their effect by, and `DecodePixel` reads one pixel's three
  channels (main.cpp lines 265-267) for `DecodeFrame`.
- `Pixels` (pixels.dfy) holds the strip buffer as a value. It says what
  `SetPixelColor` does and what a SetPixels item list does when its items
  are applied in order.
- `FrameStore` (framestore.dfy) holds the default frame, the write of one
  slot and the clear operation as the source performs it.
- `Schedule` (schedule.dfy) holds one scheduler tick as a function, `Tick`,
  and a run of ticks, `Run`.
- `Lights` (lights.dfy) holds the class `Controller`. Its fields are the
  source's globals: `currentMode`, `isAnimating`, `frameBuffer` (an array of
  30 frames), `frameCounter`, `lastFrameTime` and `strip` (an array of 244
  pixels). Two ghost fields record what the strip driver's `Show` has
  latched (`shown`) and how many times it ran (`showCount`). The handlers
  are methods that update these fields in place. Each method is proved
  against the pure functions of the other modules.
- `Scenarios` (scenarios.dfy) sends concrete commands to a controller that
  has run `Setup`, as the device does before its first pass of the main
  loop. It checks what the contracts above promise for them.

Abstractions:

- A connection is the immutable byte sequence the peer sends, read with a
  cursor. `waitForPackets(n)` becomes `WaitForPackets`: at least `n` unread
  bytes remain. A peer that stalls past the 100 ms timeout is a sequence
  that ends early.
- `millis()` becomes a `now: U32` argument. It is read once per pass of the
  main loop. `millis() - lastFrameTime` is computed with 32-bit unsigned
  wrap-around (`Schedule.Elapsed`).
- Bytes are integers 0..255 (`Byte`). The `unsigned long` delay and time
  values are integers below 2^32 (`U32`).

Choices for unchecked indices:

- Pixel index (`main.cpp:224` and `main.cpp:246`, a byte up to 255 against
  244 pixels): the model uses an explicit guard. `SetPixelColor` drops an
  index past the strip and changes nothing. This is assumed to be the strip
  library's behaviour, which is not part of this model. `Show` still runs.
- Frame slot index (`main.cpp:270`, a byte up to 255 against 30 slots): the
  source writes outside the array, which has no defined result. The model
  uses an explicit guard: a SetFrame naming a slot past the store drops the
  frame and changes nothing. See "## Findings".

Where the code differs from what its names and comments describe, the model
follows the code:

- `clearFrameBuffer` loops 30 times but assigns `frameBuffer[0]` each time.
  Only slot 0 is reset, and slots 1..29 keep their frames, including after a
  change to Sleep. `FrameStore.ClearedEmptyIff` states exactly when the
  store ends up empty.
- FrameBufferOnce (mode 2) clears `isAnimating` at the wrap. If slot 0 is
  used, the same tick sets it back to true (lines 195 and 201), so playback
  goes on. `Schedule.OnceModeStopsIffSlotZeroUnused` states this.
- A SetPixels command cut off mid-list leaves the items already read in the
  pixel buffer, but the early `return` skips `Show`.
- The opcode byte (`main.cpp:133`) and the mode byte (`main.cpp:309`) are
  read without a wait. The model requires these bytes to be present.

## Model

| member | source | states |
|---|---|---|
| Wire.WaitForPackets | windowlights/src/main.cpp:382-398 | a wait that succeeds leaves at least n unread bytes to read; a wait that fails, the timeout, means fewer than n bytes arrived |
| Wire.WaitForPacketsMonotone | windowlights/src/main.cpp:382-398 | a wait for n bytes that succeeds also succeeds for fewer bytes and for a peer that sends more |
| Wire.BigEndian32 | windowlights/src/main.cpp:260 | the delay assembled from bytes 1..4 is below 2^32 |
| Wire.BigEndian32RoundTrip | windowlights/src/main.cpp:260 | re-encoding a decoded delay gives back the same four bytes, most significant first |
| Wire.ToBigEndian32RoundTrip | windowlights/src/main.cpp:260 | every 32-bit delay a client encodes is decoded to itself |
| Wire.PixelOffset | windowlights/src/main.cpp:264-268 | channel c of pixel i is read at 5+3i+c, inside the 737-byte buffer, and the offset determines i and c |
| Wire.PixelOffsetInjective | windowlights/src/main.cpp:264-268 | no two (pixel, channel) pairs share a payload byte |
| Wire.DecodeFrame | windowlights/src/main.cpp:259-268 | a decoded frame has 244 pixels and is marked used |
| Wire.EncodeFrame | windowlights/src/main.cpp:253-254 | a SetFrame payload is 1+2+2+244*3 = 737 bytes with the slot byte first |
| Wire.DecodeEncodeFrame | windowlights/src/main.cpp:252-268 | decoding the payload for a used frame gives back that frame: delay and every pixel |
| Wire.EncodeDecodeFrame | windowlights/src/main.cpp:252-268 | every 737-byte payload is the encoding of the frame it decodes to, so decoding loses no byte |
| Wire.WrittenSlotAsWritten | windowlights/src/main.cpp:270 | the slot the source writes is the raw first payload byte, any value up to 255, with no check against the 30-slot store |
| Wire.SlotByteCanExceedStore | windowlights/src/main.cpp:270 | a complete payload can name a slot index past the 30-slot store |
| Wire.TargetSlot | windowlights/src/main.cpp:270 | a slot is written exactly when the slot byte is below 30, and it is that slot |
| Wire.DecodeOpcode | windowlights/src/main.cpp:135-168 | bytes 1..6 select a command, and every other byte is an invalid opcode carrying that byte |
| Wire.OpcodeRoundTrip | windowlights/src/main.cpp:135-168 | decoding loses no opcode byte |
| Wire.DecodeOpcodeRoundTrip | windowlights/src/main.cpp:135-168 | every command is decoded from its own opcode |
| Wire.CommandLength | windowlights/src/main.cpp:124-171 | a command occupies at least its opcode byte |
| Wire.TrailingBytesIgnored | windowlights/src/main.cpp:124-171 | bytes after a complete command do not change its framing, so one connection carries one command |
| Pixels.Blank | windowlights/src/main.cpp:341-345 | the blanked strip is 244 black pixels |
| Pixels.SetPixel | windowlights/src/main.cpp:224 | pixel i takes the colour and every other pixel is unchanged; an index past the strip changes nothing |
| Pixels.ApplyItems | windowlights/src/main.cpp:239-247 | the buffer after the first n items, applied in order; its own contract states that the strip length is kept, and the three lemmas below state the contents |
| Pixels.AppliedItems | windowlights/src/main.cpp:239-242 | the items read in full are at most the count, fit in the bytes that arrived, and the read stops only when fewer than four bytes remain |
| Pixels.ApplyItemsPrefix | windowlights/src/main.cpp:239-247 | bytes after the items applied are never read |
| Pixels.ApplyItemsUntouched | windowlights/src/main.cpp:239-247 | a pixel no applied item names keeps its colour |
| Pixels.ApplyItemsLastWins | windowlights/src/main.cpp:239-247 | the last applied item naming a pixel decides its colour |
| Pixels.OneItemIsOnePixel | windowlights/src/main.cpp:215-250 | a one-item SetPixels list sets the buffer as SetPixel does |
| FrameStore.DefaultFrame | windowlights/src/main.cpp:35-40 | a value-initialised frame is unused, has delay 0 and is all black |
| FrameStore.StoreFrame | windowlights/src/main.cpp:270 | writing a frame changes only the named slot |
| FrameStore.StoreFrameKeepsValid | windowlights/src/main.cpp:270 | the store keeps 30 well-formed slots after a write |
| FrameStore.ClearedAsWritten | windowlights/src/main.cpp:347-352 | after the clear, slot 0 is default and slots 1..29 are unchanged |
| FrameStore.ClearedKeepsValid | windowlights/src/main.cpp:347-352 | the store keeps 30 well-formed slots after a clear |
| FrameStore.ClearedIdempotent | windowlights/src/main.cpp:347-352 | clearing twice is clearing once |
| FrameStore.ClearedEmptyIff | windowlights/src/main.cpp:347-352 | after a clear no slot is used exactly when slots 1..29 were unused before |
| Schedule.Elapsed | windowlights/src/main.cpp:197 | the 32-bit elapsed time added to the last latch time gives now modulo 2^32, and it is the plain difference when the clock has not wrapped |
| Schedule.Tick | windowlights/src/main.cpp:179-202 | the cursor stays in 0..30, a latched slot is below 30 and used, and a stopped scheduler does nothing |
| Schedule.TickSkipsUnused | windowlights/src/main.cpp:188-191 | an unused slot advances the cursor by one with no latch |
| Schedule.TickLatchesDueSlot | windowlights/src/main.cpp:193-201 | a used slot whose delay has elapsed is latched and the cursor advances |
| Schedule.TickWaitsForDelay | windowlights/src/main.cpp:193-201 | a used slot not yet due changes nothing and playback stays on |
| Schedule.OnceModeStopsIffSlotZeroUnused | windowlights/src/main.cpp:182-201 | at the wrap in mode 2, playback stops exactly when slot 0 is unused |
| Schedule.OtherModesKeepPlaying | windowlights/src/main.cpp:182-201 | outside mode 2 a tick never stops playback |
| Schedule.Advance | windowlights/src/main.cpp:179-213 | one tick of the scheduler state, with the latch time moved to now exactly when a slot is latched; the cursor stays in 0..30 |
| Schedule.Run | windowlights/src/main.cpp:113-116 | over any series of ticks the cursor stays in 0..30 and every latched slot is below 30 and used |
| Schedule.RunAppend | windowlights/src/main.cpp:113-116 | a run one tick longer is the run followed by one more tick, which appends the slot that tick latches, so a run is repeated passes of the main loop |
| Schedule.StoppedStaysIdle | windowlights/src/main.cpp:180 | a stopped scheduler latches nothing and keeps its cursor over any series of ticks |
| Schedule.OtherModesNeverStop | windowlights/src/main.cpp:182-201 | outside mode 2, playback once on stays on over any series of ticks |
| Schedule.EmptyStoreNeverLatches | windowlights/src/main.cpp:188-191 | with no used slot no tick latches anything or moves the latch time |
| Lights.Controller.constructor | windowlights/src/main.cpp:28-42 | power-on state: Sleep, not playing, every slot default, cursor 0 |
| Lights.Controller.Setup | windowlights/src/main.cpp:80-111 | setup clears the store as written and blanks the strip with one Show |
| Lights.Controller.Show | windowlights/src/main.cpp:225 | a latch shows the current buffer and counts one Show |
| Lights.Controller.SetPixelColor | windowlights/src/main.cpp:224 | the buffer becomes SetPixel of the old buffer |
| Lights.Controller.BlankOutput | windowlights/src/main.cpp:341-345 | every pixel becomes black, followed by one Show |
| Lights.Controller.WriteFrameToDisplay | windowlights/src/main.cpp:204-213 | the buffer and the latched pixels become the frame's pixels, with one Show and the latch time set to now |
| Lights.Controller.ClearFrameBuffer | windowlights/src/main.cpp:347-352 | the store becomes ClearedAsWritten of the old store |
| Lights.Controller.ReadPixel | windowlights/src/main.cpp:215-226 | with fewer than 4 bytes nothing changes; otherwise pixel b0 becomes (b1,b2,b3), the rest are unchanged, and Show runs once |
| Lights.Controller.ReadPixels | windowlights/src/main.cpp:228-250 | the items that arrive are applied in order; Show runs once only if all count items arrived, including when count is 0; nothing changes without a count byte |
| Lights.Controller.ReadFrame | windowlights/src/main.cpp:252-276 | with fewer than 737 bytes nothing changes; otherwise only the named slot gets the decoded frame, and the strip is latched exactly when the slot is 0 and the mode is SingleFrame |
| Lights.Controller.ChangeMode | windowlights/src/main.cpp:305-339 | the mode byte is stored as is; playback is on exactly for modes 2..4; Sleep and unknown bytes clear the store as written and blank the strip with one Show; modes 1..4 leave store and strip alone |
| Lights.Controller.Dispatch | windowlights/src/main.cpp:124-171 | one opcode runs one handler with that handler's effect; opcode 3 and unknown opcodes change nothing; the scheduler cursor never moves; a complete command consumes exactly its length |
| Lights.Controller.UpdateDisplay | windowlights/src/main.cpp:179-202 | the playing flag, cursor and latch time become Advance of the old ones, and the strip and latched pixels are those of the slot Tick latches, if any |
| Lights.Controller.Loop | windowlights/src/main.cpp:113-174 | one scheduler tick moves the cursor as Tick says, then at most one command runs; with no client the pass is exactly one tick: Advance of the scheduler state, the strip and Show count of the latched slot, mode and store unchanged |
| Lights.Controller.IdleLoops | windowlights/src/main.cpp:113-122 | passes of the main loop with no client leave the scheduler state that Run computes, mode and store unchanged, the strip holding the last slot latched, and one Show per latch |
| Scenarios.SetPixelScenario | windowlights/src/main.cpp:151-155 | after setup, opcode 4 with [5,255,0,0] makes pixel 5 red, leaves the others black, and adds one Show to setup's |
| Scenarios.SetPixelsScenario | windowlights/src/main.cpp:228-250 | after setup, a two-item SetPixels sets both pixels and adds one Show, after both |
| Scenarios.TruncatedSetPixelsScenario | windowlights/src/main.cpp:239-249 | after setup, a SetPixels cut inside its second item leaves the first item in the buffer, not the second, and adds no Show: the latched pixels stay blank |
| Scenarios.SingleFrameScenario | windowlights/src/main.cpp:270-275 | in SingleFrame mode a frame sent for slot 0 is stored and latched at once: the latched pixels are the frame's, one Show follows setup's, and the latch time is the command's time |
| Scenarios.SleepScenario | windowlights/src/main.cpp:332-337 | with frames in slots 0 and 3 and pixel 5 red, Sleep resets slot 0, blanks the strip and the latched pixels with exactly one more Show, and slot 3 keeps its frame |

## Left out

- WiFi setup, the listening socket, and accepting, polling and closing clients (main.cpp lines 80-111, 119-122 and 172-173) are left out. A connection is a byte sequence, and a pass with no client is `None`.
- The busy wait in `waitForPackets` (`delay(1)`, the 100 ms timeout, `millis()` polling) and the `delay(1)` calls in `loop` are left out. A wait that times out is a sequence with too few bytes left.
- The strip library is not part of this model. `SetPixelColor` is modelled as a write to a pixel array that drops indices past the strip, and `Show` as a ghost record of the latched pixels and a counter. Output timing and colour feature order are out of scope.
- Serial output, `logMem` and the `Ticker` are diagnostics and have no effect on the state. They are left out.
- `readAnimation`, `readFrames`, `parseColour` and `parseDelay` are empty or commented out in the source. Mode 4 sets playback on and reads nothing more, and opcode 3 does nothing. The unused `colourOffsets`, `BRIGHTNESS` and animation globals are left out.
- C++ arithmetic details are not modelled. The signed promotion in `buffer[1] << 24` is modelled as plain unsigned big-endian assembly, which gives the same 32-bit pattern.
- The pixel geometry (index 0 at the bottom left, anti-clockwise) appears only as a comment in the source, so it is not modelled.
- `millis()` is read once per pass of the main loop. The latch time that `writeFrameToDisplay` records is that same reading.
- Lights.Controller.Loop: when a client is present, the contract states only the scheduler tick's effect on the cursor; with no client it states the whole new state. The command's effect is stated by `Dispatch`, whose contract relates to the state after the tick.
- Wire.CommandLength: its own contract states only that a command has at least its opcode byte. The framing is tied to `Dispatch` through `Dispatch`'s `consumed` result and through `TrailingBytesIgnored`.

## Findings

| source | as written | input that shows it | evidently intended | confidence | as-written member | corrected member |
|---|---|---|---|---|---|---|
| windowlights/src/main.cpp:270 | `frameBuffer[buffer[0]] = frame` uses the received slot byte (0..255) as an index into the 30-slot store without a check | opcode 0x02 followed by a complete 737-byte payload whose first byte is 255 | a slot byte of 30 or more is rejected and the store is left unchanged | not executed | Wire.WrittenSlotAsWritten, Wire.SlotByteCanExceedStore | Wire.TargetSlot, Lights.Controller.ReadFrame |
