# Scanner-to-lock bridge firmware, modelled in Dafny

The firmware runs on an RP2040. It drives a serial bar-code/QR scanner, relays each
completed scan to a host over a second serial link, and turns a servo that works the
lock. This project models the firmware's byte-level protocol and proves properties of it:

- **CommandChannel** (`command_channel.dfy`) covers the command functions. These are
  `resetScanner`, `ttlMode`, `motionOn`, `lightsOff`, `qrModeOn` and `motionSense`.
  - The commands form one `Command` datatype, and `Frame` gives each one's ASCII wire
    frame `^_^<OPCODE>.`.
  - `Receive` models `outputRx`: it drains the pending reply bytes in order.
  - `Decode` applies the ACK/NAK decision rule to those bytes.
- **ScanFramer** (`scan_framer.dfy`) is the per-byte state machine of the main loop over
  the accumulation buffer `rxData`.
- **LockActuator** (`lock_actuator.dfy`) is the duty computation of `servo_lock`. It uses
  the calibration constants 0..270 degrees and duty 2000..7500.
- **Utf8** (`utf8.dfy`) is the check `rxData.decode("utf-8")` makes before it returns
  rather than raises. The firmware runs on MicroPython, whose check is structural:
  - a lead byte below 0xF8 announces from its high bits how many continuation bytes
    `10xxxxxx` follow, and each of them must be present;
  - a continuation byte where a lead is expected, or a byte 0xF8..0xFF, is rejected.

  Unlike RFC 3629, it accepts overlong forms, encoded surrogates and leads 0xF5..0xF7.
- **Controller** (`controller.dfy`) holds the rest:
  - the boot configuration, as the list of frames it sends;
  - the main loop, as a function from the stream of scanner bytes to a trace of events:
    `Forward(record)` for `uart1.write`, `Move(duty)` for one `servo_lock` call and
    `Pause(2)` for the sleep between the two moves.
- `bytes.dfy` and `wrappers.dfy` hold the byte type, the sentinel bytes `0x06`, `0x15`
  and `0x0D`, and an `Option` type.

Points where the code's behaviour is easy to misread:

- **The forwarded record includes the terminator.** Line 210 appends the byte before
  line 218 tests for `\r`, so `uart1.write(rxData)` sends the scan with its trailing
  `0x0D`. `ScanFramer.Step` and `Controller.Unlock` forward `buffer + [0x0D]`.
- **The duty is truncated by `int()`**, not rounded to the nearest integer.
  `LockActuator.Truncate` rounds toward zero, as Python's `int()` does.
- **The decoded bytes include the `\r`.** `Utf8.TerminatorKeepsValidity` proves this
  makes no difference: the bytes with the terminator are well-formed exactly when the
  bytes without it are.
- **A decode failure ends the program.** A record that is not valid UTF-8 makes line 220
  raise an exception that nothing catches. The loop stops before anything is relayed or
  moved. The model represents this as the `Controller.LoopState.Stopped` state, which reacts to no
  further bytes.

## Model

| member | source | states |
|---|---|---|
| CommandChannel.Decode | ucontroller_code.py:54-61 | The reply is `Success` exactly when the drained bytes are the single byte 0x06, and `Error` exactly when they are the single byte 0x15. Otherwise it is `Raw` carrying the bytes unchanged, including the empty reply and multi-byte replies that contain 0x06. |
| CommandChannel.DecodeLossless | ucontroller_code.py:54-61 | The drained bytes can always be recovered from the classified reply, and the classifier only produces canonical replies: a `Raw` never holds a lone sentinel. |
| CommandChannel.DecodeWire | ucontroller_code.py:54-61 | Every canonical reply is the classification of its own bytes. With `DecodeLossless`, this makes the classifier a bijection between byte strings and canonical replies. |
| CommandChannel.Receive | ucontroller_code.py:39-61 | `outputRx` reads every pending byte in arrival order and classifies the result by the decision rule. With nothing pending it returns `Raw` of the empty string rather than waiting. |
| CommandChannel.Opcode | ucontroller_code.py:63-131 | Every opcode token is ASCII and contains no `.`, so the frame terminator cannot occur inside it. |
| CommandChannel.Frame | ucontroller_code.py:63-131 | Every command frame starts with `^_^`, ends with `.`, carries exactly the command's opcode between them, and is four bytes longer than the opcode. |
| CommandChannel.FrameInjective | ucontroller_code.py:63-131 | Two commands with the same frame are the same command, so every command function puts a distinct frame on the wire. |
| CommandChannel.FrameTable | ucontroller_code.py:63-104 | The reset, TTL-mode, motion-enable, lights-off and QR-enable frames are the bytes `^_^DEFALT.`, `^_^POR232.`, `^_^SCMMDH.`, `^_^LAMENA0.` and `^_^QRCENA1.`. |
| CommandChannel.ThresholdFrames | ucontroller_code.py:110-131 | The three sensitivity frames are `^_^MDTTHR20.`, `^_^MDTTHR50.` and `^_^MDTTHR100.`. |
| CommandChannel.MotionSense | ucontroller_code.py:110-133 | `motionSense` selects the high, medium or low threshold exactly for the inputs 20, 50 and 100 respectively, and selects no command for any other input. |
| CommandChannel.SenseFrames | ucontroller_code.py:110-133 | `motionSense(20)`, `(50)` and `(100)` each send exactly one frame: `^_^MDTTHR20.`, `^_^MDTTHR50.` and `^_^MDTTHR100.`. Any other input sends nothing. |
| Controller.BootCommands | ucontroller_code.py:168-178 | The boot phase sends the factory reset exactly when the reset flag is set, and never sends the TTL-mode command, whose call is commented out. |
| Controller.ShippedBootCommands | ucontroller_code.py:168-178 | With the flag as shipped (`False`), boot sends motion-enable, QR-enable, the medium threshold and lights-off, in that order. |
| Controller.BootOrder | ucontroller_code.py:168-178 | With the flag as shipped, the boot frames are exactly `^_^SCMMDH.`, `^_^QRCENA1.`, `^_^MDTTHR50.` and `^_^LAMENA0.`, in that order. |
| Controller.FramesMembership | ucontroller_code.py:63-131 | A command's frame is among the frames written for a list of commands exactly when the command is in the list: no frame stands for two commands. |
| Controller.BootFrames | ucontroller_code.py:168-178 | The reset frame `^_^DEFALT.` is among the boot frames exactly when the reset flag is set, so never with the flag as shipped; the TTL-mode frame never is. |
| Controller.BootWithReset | ucontroller_code.py:171-178 | With the flag set, the reset frame is sent first and the rest of the boot frames are unchanged. |
| LockActuator.Duty | ucontroller_code.py:134-137 | For every integer angle, the duty is the interpolated value `2000 + angle * 5500 / 270` truncated toward zero: `duty` and `duty + 1` (or `duty - 1` and `duty` when the value is negative) bracket it. |
| LockActuator.Truncate | ucontroller_code.py:137 | `int()` of a quotient with positive denominator rounds toward zero: the remainder lies in [0, d) for a non-negative numerator and in (-d, 0] for a negative one. |
| LockActuator.DutyInRange | ucontroller_code.py:137 | For every angle from 0 to 270, the duty lies in [2000, 7500] and is the floor of the linear interpolation 2000 + angle * 5500 / 270. |
| LockActuator.DutyMonotone | ucontroller_code.py:137 | A larger target angle never gives a smaller duty, for all integer angles. |
| LockActuator.DutyValues | ucontroller_code.py:158-163 | With the calibration constants, angles 0, 110, 135 and 270 give duties 2000, 4240, 4750 and 7500. |
| ScanFramer.Step | ucontroller_code.py:205-237 | Byte 0x06 leaves the framer unchanged and completes nothing. A carriage return completes the record "buffer followed by 0x0D" and empties the buffer. Every other byte is appended and completes nothing. |
| ScanFramer.Run | ucontroller_code.py:195-237 | Over any stream the framer completes exactly one record per carriage return, and a buffer without a carriage return never acquires one. |
| ScanFramer.TerminatorsCount | ucontroller_code.py:218 | The terminator count used above is the number of occurrences of 0x0D in the stream. |
| ScanFramer.Filter | ucontroller_code.py:207-210 | The kept bytes never include 0x06, and there are never more of them than input bytes. |
| ScanFramer.FilterCounts | ucontroller_code.py:207-210 | Every byte other than 0x06 is kept exactly as often as it occurs in the stream, and 0x06 never is. |
| ScanFramer.FilterKeepsClean | ucontroller_code.py:207-210 | A stream without 0x06 bytes is kept unchanged. |
| ScanFramer.NoiseIgnored | ucontroller_code.py:207-208 | Feeding 0x06 to any framer leaves its buffer unchanged and forwards nothing. |
| ScanFramer.AccumulateWithoutTerminator | ucontroller_code.py:207-218 | On a stream with no 0x0D nothing is forwarded. The buffer becomes the old buffer followed by the stream with every 0x06 removed, the other bytes keeping their order. |
| ScanFramer.Completion | ucontroller_code.py:210-237 | A carriage return forwards the previous buffer followed by 0x0D and leaves the buffer empty. |
| ScanFramer.RunAppend | ucontroller_code.py:195-210 | Processing two streams back to back forwards the records of the first, then those of the second, and ends in the state the second leaves. |
| ScanFramer.TerminatorIsolates | ucontroller_code.py:235-238 | After a stream that ends in 0x0D the buffer is empty. The records of what follows are exactly those a freshly started framer would produce, so record N+1 never holds a byte of record N. |
| ScanFramer.RunFlattens | ucontroller_code.py:207-237 | No byte is lost or invented: the forwarded records, followed by what is still buffered, equal the initial buffer followed by the stream with its 0x06 bytes removed. |
| ScanFramer.RunRecordsComplete | ucontroller_code.py:207-237 | Every forwarded record is non-empty, ends in 0x0D, holds no other 0x0D and no 0x06. The buffer never holds either byte. |
| ScanFramer.FramerSplits | ucontroller_code.py:195-237 | For every byte stream, the framer's records and remaining buffer are a decomposition of the filtered stream into complete records and an unterminated rest. |
| ScanFramer.SplitsUnique | ucontroller_code.py:207-218 | That decomposition is unique, so the framer's output is determined by the declarative description alone. |
| ScanFramer.SingleScan | ucontroller_code.py:207-237 | A clean scan followed by 0x0D forwards exactly one record, the scan with its terminator, and ends with an empty buffer. |
| ScanFramer.NoiseInsideScan | ucontroller_code.py:207-237 | The stream `A, 0x06, B, C, 0x0D` forwards exactly `A B C 0x0D` and leaves the buffer empty. |
| Utf8.Announced | ucontroller_code.py:220 | A byte starts a character with no continuation bytes exactly when it is ASCII, and cannot start one exactly when it is a continuation byte or 0xF8..0xFF. Leads C0..DF announce one continuation byte, E0..EF two and F0..F7 three. |
| Utf8.NeedIsAnnounced | ucontroller_code.py:220 | MicroPython's bit trick for the continuation count, `(0xE5 >> ((c >> 3) & 6)) & 3`, gives the same count as the lead-byte table for every lead 0xC0..0xF7. |
| Utf8.NeedCheckOwed | ucontroller_code.py:220 | While the need-counter scan owes `k` continuation bytes, it succeeds exactly when the next `k` bytes are continuation bytes and the scan of the rest, owing none, succeeds. |
| Utf8.ValidIsNeedCheck | ucontroller_code.py:220 | The recursive definition accepts exactly the byte strings that MicroPython's byte-at-a-time need-counter check accepts. |
| Utf8.CharWidth | ucontroller_code.py:220 | The leading character is read exactly when its lead can start a character and all the continuation bytes it announces are present; its width is then one more than that count, at most 4 and never more than the bytes available. It is 1 exactly for an ASCII byte. |
| Utf8.ValidUtf8 | ucontroller_code.py:220 | Bytes that decode start with a byte that can start a character and end with an ASCII or continuation byte, never with a lead still waiting for its continuation bytes. |
| Utf8.StructuralOnly | ucontroller_code.py:220 | The overlong `C0 80`, the encoded surrogate `ED A0 80` and the out-of-range `F5 80 80 80` all decode. |
| Utf8.StructuralRejects | ucontroller_code.py:220 | A stray continuation byte, a lead 0xF8, a cut-short three-byte form and a two-byte lead followed by ASCII do not decode. |
| Utf8.AsciiIsValid | ucontroller_code.py:220 | ASCII scans always decode. |
| Utf8.AppendValid | ucontroller_code.py:220 | Two byte strings that decode still decode when concatenated. |
| Utf8.TerminatorKeepsValidity | ucontroller_code.py:218-220 | Decoding the record with its trailing 0x0D succeeds exactly when decoding the bytes before the terminator does. |
| Controller.Step | ucontroller_code.py:200-237 | A non-terminator byte feeds the framer and emits nothing. A terminator after a decodable buffer emits the unlock trace for buffer followed by 0x0D and returns to the start state. A terminator after an undecodable buffer stops the loop with no events. A stopped loop ignores every byte. |
| Controller.DecodablePrefix | ucontroller_code.py:218-232 | The result is a prefix of the records, and every record in it decodes. When it stops short, the next record does not decode. |
| Controller.Unlock | ucontroller_code.py:229-232 | A completed record produces, in order, `Forward(record)`, `Move(2000)`, `Pause(2)`, `Move(4240)`. |
| Controller.UnlockAllShape | ucontroller_code.py:229-232 | For k records the trace has 4k events, and events 4k to 4k+3 are exactly the k-th record's unlock sequence. Every relay is therefore followed by its own two moves and pause, and no other move occurs. |
| Controller.RunTrace | ucontroller_code.py:195-239 | Over any byte stream, the loop's events are the unlock sequences of the framer's records, in order, up to the first record that does not decode. The loop stops exactly when some record does not decode. While it listens, its buffer is the framer's. |
| Controller.Run | ucontroller_code.py:195-239 | After the decode exception nothing further happens, whatever bytes arrive. Otherwise the number of events is a multiple of four, at most four per carriage return in the stream; `Controller.RunTrace` says which events they are. |
| Controller.SingleScanTrace | ucontroller_code.py:205-237 | A single clean, decodable scan and its terminator produce exactly one relay of the scan with its terminator, and exactly one unlock sequence, and leave the loop as it started. |
| Controller.OverlongScanUnlocks | ucontroller_code.py:218-232 | The scan `C0 80` and its terminator, which strict UTF-8 would refuse, decode and unlock the door. |
| Controller.DigitsScan | ucontroller_code.py:205-232 | Any ASCII scan with no carriage return or 0x06 in it, followed by its terminator, produces exactly one unlock sequence for the scan with its terminator, and leaves the loop as it started. |
| Controller.ScanOfDigits | ucontroller_code.py:195-239 | The bytes `1234567` followed by `\r` produce exactly `Forward("1234567\r")`, `Move(2000)`, `Pause(2)`, `Move(4240)`, and nothing else. |

## Left out

- UART, PWM, pin and LED calls (`machine.UART`, `PWM`, `Pin`, `led.value`) are hardware
  I/O. The scanner's incoming bytes are a parameter (a pending byte sequence, or the
  whole input stream). Writes and servo moves appear as the `Event` trace.
- Every `time.sleep`/`utime.sleep` except the two-unit pause of line 231 is left out. The
  one-second settle after each command write and after each duty change, and the 0.1 s
  and 1 s pacing waits, are timing and not logic.
- `print` diagnostics are left out, as are the unused variables `piBuf`, `piScan`,
  `piCode`, `scan` and `unlock`. `qrCode` is likewise left out: the decoded text is only
  printed, so only whether decoding succeeds is modelled.
- The hardware race in which a scan and a command reply interleave on the scanner link
  is left out. The `Raw` branch of `Decode` and the discarding of 0x06 in the framer are
  what the firmware does about it.
- The boot phase's replies are left out: they are only printed and never branched on. The
  boot is modelled as the list of frames it sends.
- `pwm.duty_u16` rejects values outside 0..65535, and the second `servo_lock` call acts
  on a PWM channel the first one released with `pwm.deinit()`. Both are behaviours of the
  hardware library, which is not part of this model.
- LockActuator.Duty computes the quotient of line 137 exactly, as a rational number,
  instead of in floating point. This agrees with the firmware for the angles it uses (0
  and 110) and for 135 and 270.
- MicroPython's decoder is not part of this model. `Utf8.NeedCheck` restates its
  byte-at-a-time check (`utf8_check`), and `Utf8.ValidUtf8` is proved equal to it. The
  decoded text itself is never used and is not modelled.
