# PS/2 mouse motion packets, in Dafny

A model of the motion-packet path of the ZMK PS/2 mouse driver
(`app/src/ps2_mouse.c`). Bytes from the PS/2 transport arrive one at a
time in the callback. It collects them into the driver's 3-byte `cmd_buffer`
at position `cmd_idx` and checks the alignment bit (bit 3) of each frame's
first byte. It hands each completed frame to the packet decoder. A 500 ms
inactivity timer drops a partial frame.

Three modules, one file each:

- `packet.dfy`, module `MousePacket`: the standard 3-byte packet
  (state, X, Y). `Decode` models `zmk_ps2_mouse_movement_parse_cmd_buffer`
  with the source's own shift-and-mask arithmetic, done on 32-bit words as C
  does after promoting `uint8_t` to `int`. `mov_x` and `mov_y` are held as
  their 16-bit two's-complement words. `ToInt16` models the store into
  `int16_t`, which keeps the low 16 bits. `Signed` gives the number a word
  stands for. The partner of `Decode` is
  `Encode`, the packet a mouse sends for a movement. The two are proved
  inverse in both directions: on every reportable event and on every aligned
  packet.
- `assembler.dfy`, module `FrameAssembler`: the frame state
  (`cmd_buffer`, `cmd_idx`, whether `cmd_buffer_timeout` is scheduled) as a
  value. There is one function per handler (`OnByte`, `Timeout`, `Reset`)
  and `Run`, which feeds a byte stream to the callback. `Inv` is the
  sequential invariant: the cursor is in {0, 1, 2}, the timer is pending
  exactly when the cursor is not 0, a partial frame starts with an aligned
  byte, and the X and Y slots not yet filled are zero. Slot 0 may hold a
  rejected byte while `cmd_idx` is 0. The lemmas cover each handler
  branch and whole streams: resynchronisation after misaligned bytes,
  recovery after a timeout, and the round trip from events through encoding,
  assembly and decoding.
- `mouse_frame.dfy`, module `MouseDriver`: the class `MouseFrame`. It holds
  the buffer as an `array<bv8>` and updates it in place, as the C handlers
  update the global `zmk_ps2_mouse_data`. Each method is proved to leave
  exactly the state the matching `FrameAssembler` function gives. The ghost
  field `processed` records the frames passed to
  `zmk_ps2_mouse_movement_process_cmd`.

Kernel timer calls are modelled as a boolean. `k_work_cancel_delayable`
clears it, `k_work_schedule` sets it, and a fired timeout handler clears it.

The callback stores every byte at `cmd_buffer[cmd_idx]` (line 78) before
it checks the alignment bit (line 87), so a rejected first byte stays in
slot 0. `FrameAssembler.OnByteMisaligned` states this.

## Model

| member | source | states |
|---|---|---|
| MousePacket.Decode | app/src/ps2_mouse.c:156-197 | For every state byte, left, right and middle are bits 0, 1 and 2, and the X and Y overflow flags are bits 6 and 7. Each delta's 16-bit word has its coordinate byte as the low byte. Its high byte is padded with the sign bit of its axis (bit 4 for X, bit 5 for Y): all ones when the bit is set, all zeros when it is clear. |
| MousePacket.DecodedValues | app/src/ps2_mouse.c:175-196 | Each decoded delta stands for its coordinate byte minus 256 exactly when the sign bit of its axis is set, so it lies in [-256, 255] and the store into `int16_t` never truncates. |
| MousePacket.Axis | app/src/ps2_mouse.c:195-196 | One axis: the coordinate byte promoted to `int`, less a correction of 0 or 256, stored into `int16_t`. The low byte of the result is the coordinate byte, and its high byte is all ones exactly when 256 was subtracted. |
| MousePacket.ToInt16 | app/src/ps2_mouse.c:195-196 | Storing a 32-bit `int` into `int16_t` keeps every value in [-32768, 32767]: sign-extending the stored word gives the `int` back. |
| MousePacket.SignCorrection | app/src/ps2_mouse.c:195-196 | `(cmd_state << k) & 0x100`, computed on the promoted state byte, is 256 exactly when bit 8 - k of the state byte is set and 0 otherwise: bit 4 for k = 4 (X), bit 5 for k = 3 (Y). |
| MousePacket.Encode | app/src/ps2_mouse.c:175-191 | The packet for a movement whose deltas fit in 9 bits. Its alignment bit is set, and its button and overflow bits carry the event's flags. Its sign bits are set exactly for negative deltas, and its coordinate bytes are the deltas' low bytes. |
| MousePacket.EncodedValues | app/src/ps2_mouse.c:175-191 | On the wire, each sign bit says whether its delta is negative, and each coordinate byte holds its delta modulo 256. |
| MousePacket.NineBitWords | app/src/ps2_mouse.c:175-181 | The words of 9-bit deltas, whose high byte is all zeros or all ones, are exactly the words standing for numbers in [-256, 255]. |
| MousePacket.DecodeEncode | app/src/ps2_mouse.c:156-197 | Decoding the packet built for any reportable event gives back that event: buttons, overflow flags and both deltas. |
| MousePacket.EncodeDecode | app/src/ps2_mouse.c:156-197 | Every aligned packet is exactly the encoding of the event it decodes to, so decoding loses nothing on aligned packets. |
| MousePacket.AxisRoundTrip | app/src/ps2_mouse.c:175-196 | Any 9-bit delta, sent as (sign bit set exactly when negative, its low byte), decodes to the same `int16_t`. This holds on the X axis (sign bit 4) and on the Y axis (sign bit 5). |
| MousePacket.WorkedExample | app/src/ps2_mouse.c:183-191 | State 0x18, X 0xfd, Y 0x02 decode to a move of (-3, 2) with no buttons and no overflow. |
| FrameAssembler.Initial | app/src/ps2_mouse.c:46-48 | The statically initialised data (zero buffer, `cmd_idx` 0, no timer) satisfies the invariant. |
| FrameAssembler.OnByte | app/src/ps2_mouse.c:69-111 | After any byte the cursor is in {0, 1, 2} and the timer is pending exactly when the cursor is not 0. A packet is emitted exactly when the byte was the third of a frame. The invariant is preserved, and every emitted packet is aligned. |
| FrameAssembler.Run | app/src/ps2_mouse.c:69-111 | However many bytes arrive one after the other, the invariant holds afterwards. |
| FrameAssembler.RunEmitsAligned | app/src/ps2_mouse.c:80-103 | However many bytes arrive, every packet handed to the decoder has its alignment bit set. |
| FrameAssembler.OnByteMisaligned | app/src/ps2_mouse.c:74-93 | A first byte without bit 3 leaves `cmd_idx` at 0 and the timer cancelled, and emits nothing. Slot 0 holds the rejected byte. |
| FrameAssembler.OnByteAccepted | app/src/ps2_mouse.c:74-110 | An aligned first byte, or any second byte, is stored in its slot. `cmd_idx` goes up by one and the timer is scheduled again. Nothing is emitted and nothing else changes. |
| FrameAssembler.OnByteThird | app/src/ps2_mouse.c:97-105 | A third byte emits the one packet (`cmd_buffer[0]`, `cmd_buffer[1]`, byte). Afterwards the buffer is zero, `cmd_idx` is 0 and no timer is scheduled. |
| FrameAssembler.TimeoutRestoresInitial | app/src/ps2_mouse.c:113-121 | From any state, the timeout handler leaves the initial state: partial frame dropped, no timer pending. |
| FrameAssembler.ResetIdempotent | app/src/ps2_mouse.c:148-154 | Reset sets `cmd_idx` to 0 and zeroes the whole buffer. Doing it twice is the same as doing it once. |
| FrameAssembler.ResetKeepsInv | app/src/ps2_mouse.c:148-154 | When no timer is pending, which is how both callers use it, reset leaves a state that satisfies the invariant. |
| FrameAssembler.RunAppend | app/src/ps2_mouse.c:69-111 | Feeding two stretches of bytes one after the other is the same as feeding their concatenation. The emitted packets are concatenated. |
| FrameAssembler.MisalignedBytesKeepWaiting | app/src/ps2_mouse.c:80-93 | While waiting for a state byte, any run of bytes without bit 3 keeps `cmd_idx` at 0 and the timer cancelled, emits nothing, and leaves the X and Y slots as they were. |
| FrameAssembler.AlignedFrame | app/src/ps2_mouse.c:69-111 | From a state waiting for a state byte, an aligned 3-byte frame is emitted exactly once and the initial state is restored. |
| FrameAssembler.ResyncThenFrame | app/src/ps2_mouse.c:80-111 | After any run of misaligned bytes, the next aligned frame is received and emitted exactly as sent. |
| FrameAssembler.TimeoutThenFrame | app/src/ps2_mouse.c:113-121 | After a timeout, whatever partial frame was pending, the next aligned frame is received and emitted as sent. |
| FrameAssembler.StreamOfFrames | app/src/ps2_mouse.c:69-111 | From the initial state, a stream of aligned packets is cut back into exactly those packets, in order, and the assembler ends in its initial state. |
| FrameAssembler.EventsRoundTrip | app/src/ps2_mouse.c:97-105 | Events sent as packets, assembled and decoded come out unchanged and in order. |
| MouseDriver.MouseFrame.constructor | app/src/ps2_mouse.c:46-48 | The object starts in the initial state with nothing processed. |
| MouseDriver.MouseFrame.ResetCmdBuffer | app/src/ps2_mouse.c:148-154 | In place: `cmd_idx` becomes 0 and all three buffer bytes become 0. The timer is untouched. |
| MouseDriver.MouseFrame.ProcessCmd | app/src/ps2_mouse.c:124-146 | Records the frame as processed once and returns its decoding. |
| MouseDriver.MouseFrame.OnByte | app/src/ps2_mouse.c:69-111 | In place: the new buffer, cursor and timer are those `FrameAssembler.OnByte` gives, the frames processed are extended by its emitted packet, and the invariant is kept. |
| MouseDriver.MouseFrame.OnTimeout | app/src/ps2_mouse.c:113-121 | In place: the state becomes the initial state and nothing is processed. |

## Left out

- The start-up thread `zmk_ps2_mouse_init_thread` (lines 319-396) is left out. It reads the self-test result, retrying every 5 s without bound, then reads the device id, sends the stream-mode and reporting commands with fixed sleeps, and registers the callback. All of this is blocking I/O and sleeping through the PS/2 driver, with no logic beyond call order.
- The command wrappers `zmk_ps2_stream_mode_enable` (0xEA), `zmk_ps2_stream_mode_enable_reporting` (0xF4) and `zmk_ps2_reset` (0xFF) are left out. Each only passes on the error of `ps2_write`, and their ACK (0xFA) checks are commented out.
- The resend request (0xFE) on a misaligned byte is left out because it is commented out in the source. The model sends nothing.
- Thread creation and device registration (`zmk_ps2_mouse_init`, `DEVICE_DT_INST_DEFINE`) are left out. They are platform plumbing.
- Logging is left out. `zmk_ps2_mouse_movement_process_cmd` only decodes and logs. The model records the frame in a ghost sequence and returns the decoded event.
- The 500 ms duration is not modelled; the timer is a boolean. A timeout is a call of `OnTimeout`, which the kernel makes only after the timer has been scheduled and not cancelled.
- Concurrency is not modelled. The callback and the timeout handler run on different contexts in the source, and the model runs them one after the other. The race in start-up, where the callback is enabled (line 384) before the timer is initialised (line 391), is not modelled either.
- Out-of-range conversion to `int16_t` is implementation-defined in C. `ToInt16` keeps the low 16 bits, the usual two's-complement choice. `Decode` never reaches that case, as `DecodedValues` shows.
