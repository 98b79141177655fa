/** The controller (ucontroller_code.py, lines 168-239): the boot-time configuration, then
    the polling loop that feeds every scanner byte to the framer and, for each completed
    scan, decodes it, relays it to the host and runs the lock sequence. */
module Controller {
  import opened Wrappers
  import opened Bytes
  import opened Utf8
  import opened CommandChannel
  import opened ScanFramer
  import opened LockActuator

  // ---- Boot configuration ----

  /** The commands `motionSense(sense)` sends: one or none. */
  function SenseCommands(sense: int): seq<Command> {
    match MotionSense(sense)
    case None => []
    case Some(c) => [c]
  }

  /** The threshold configured at boot (`motionSense(50)`). */
  const BootSensitivity: int := 50

  /** The commands sent before the loop starts, in order. `reset` is the flag of line
      168; the TTL-mode call is commented out and so never sent. */
  function BootCommands(reset: bool): (cs: seq<Command>)
    ensures reset <==> Reset in cs
    ensures TtlMode !in cs
  {
    (if reset then [Reset] else []) + [MotionOn, QrModeOn] + SenseCommands(BootSensitivity) + [LightsOff]
  }

  /** The frames of a sequence of commands, in order. */
  function Frames(cs: seq<Command>): seq<seq<byte>> {
    seq(|cs|, i requires 0 <= i < |cs| => Frame(cs[i]))
  }

  /** A command's frame is among the frames written exactly when the command is among the
      commands sent: no frame stands for two commands. */
  lemma FramesMembership(cs: seq<Command>, c: Command)
    ensures Frame(c) in Frames(cs) <==> c in cs
  {
    var fs := Frames(cs);
    if Frame(c) in fs {
      var i :| 0 <= i < |fs| && fs[i] == Frame(c);
      FrameInjective(cs[i], c);
    }
    if c in cs {
      var i :| 0 <= i < |cs| && cs[i] == c;
      assert fs[i] == Frame(c);
    }
  }

  /** The frames written to the scanner during boot, in order. The factory reset
      `^_^DEFALT.` is among them exactly when the flag of line 168 is set, and the
      TTL-mode frame never is. */
  function BootFrames(reset: bool): (fs: seq<seq<byte>>)
    ensures Frame(Reset) in fs <==> reset
    ensures Frame(TtlMode) !in fs
  {
    FramesMembership(BootCommands(reset), Reset);
    FramesMembership(BootCommands(reset), TtlMode);
    Frames(BootCommands(reset))
  }

  /** With the flag of line 168 as shipped (`False`) the boot phase sends motion-enable,
      QR-enable, the medium threshold and lights-off, in that order. */
  lemma ShippedBootCommands()
    ensures BootCommands(false) == [MotionOn, QrModeOn, Threshold(Medium), LightsOff]
  {
    assert SenseCommands(BootSensitivity) == [Threshold(Medium)];
  }

  /** The shipped boot phase sends exactly these four frames in this order. */
  lemma BootOrder()
    ensures BootFrames(false) == [Ascii("^_^SCMMDH."), Ascii("^_^QRCENA1."),
                                  Ascii("^_^MDTTHR50."), Ascii("^_^LAMENA0.")]
  {
    ShippedBootCommands();
    FrameTable();
    ThresholdFrames();
    var fs := BootFrames(false);
    assert |fs| == 4;
    assert fs[0] == Frame(MotionOn);
    assert fs[1] == Frame(QrModeOn);
    assert fs[2] == Frame(Threshold(Medium));
    assert fs[3] == Frame(LightsOff);
  }

  /** With the reset flag set, the factory reset goes first and the rest is unchanged. */
  lemma BootWithReset()
    ensures BootFrames(true) == [Frame(Reset)] + BootFrames(false)
  {
  }

  // ---- Steady-state loop ----

  /** What the loop does to the outside world. `Forward` is `uart1.write`; `Move(d)` is
      one `servo_lock` call (set duty `d`, settle, release the PWM); `Pause(n)` is the
      `time.sleep(n)` between the two moves. */
  datatype Event = Forward(record: seq<byte>) | Move(duty: int) | Pause(units: nat)

  /** The two lock angles and the pause between them, as the loop uses them. */
  const FirstAngle: int := 0
  const SecondAngle: int := 110
  const UnlockPause: nat := 2

  /** The events one completed record causes (lines 229-232): the record is relayed,
      then the servo is driven to duty 2000, the loop waits two units, and the servo is
      driven to duty 4240. */
  function Unlock(record: seq<byte>): (es: seq<Event>)
    ensures es == [Forward(record), Move(2000), Pause(2), Move(4240)]
  {
    DutyValues();
    [Forward(record), Move(Duty(FirstAngle)), Pause(UnlockPause), Move(Duty(SecondAngle))]
  }

  /** The loop is listening with its accumulation buffer, or has stopped because a
      completed record was not valid UTF-8: `decode` raised at line 220, before anything
      was relayed, and the exception ended the program. */
  datatype LoopState = Listening(framer: Framer) | Stopped(record: seq<byte>)

  const Start: LoopState := Listening(Idle)

  datatype Reaction = Reaction(next: LoopState, events: seq<Event>)

  /** One pass through the loop body with byte `b` available. */
  function Step(c: LoopState, b: byte): (r: Reaction)
    ensures c.Stopped? ==> r == Reaction(c, [])
    ensures c.Listening? && b != CR ==>
              r == Reaction(Listening(ScanFramer.Step(c.framer, b).next), [])
    ensures c.Listening? && b == CR && ValidUtf8(c.framer.buffer) ==>
              r == Reaction(Start, Unlock(c.framer.buffer + [CR]))
    ensures c.Listening? && b == CR && !ValidUtf8(c.framer.buffer) ==>
              r == Reaction(Stopped(c.framer.buffer + [CR]), [])
    ensures r.events == [] || (b == CR && |r.events| == 4)
  {
    match c
    case Stopped(_) => Reaction(c, [])
    case Listening(f) =>
      var s := ScanFramer.Step(f, b);
      match s.record
      case None => Reaction(Listening(s.next), [])
      case Some(record) =>
        TerminatorKeepsValidity(f.buffer);
        if ValidUtf8(record) then Reaction(Listening(s.next), Unlock(record))
        else Reaction(Stopped(record), [])
  }

  datatype Trace = Trace(controller: LoopState, events: seq<Event>)

  /** One step's events followed by the rest's still come in whole unlock sequences, at
      most one per terminator. */
  lemma EventCount(step: nat, rest: nat, terminator: bool, later: nat)
    requires step == 0 || (terminator && step == 4)
    requires rest % 4 == 0 && rest <= 4 * later
    ensures (step + rest) % 4 == 0
    ensures step + rest <= 4 * ((if terminator then 1 else 0) + later)
  {
  }

  /** The loop over a whole stream of scanner bytes, in arrival order. A stopped loop does
      nothing; otherwise the number of events is a multiple of four, at most four per
      carriage return in the stream. `RunTrace` says which events they are. */
  function Run(c: LoopState, input: seq<byte>): (r: Trace)
    ensures c.Stopped? ==> r == Trace(c, [])
    ensures |r.events| % 4 == 0
    ensures |r.events| <= 4 * Terminators(input)
    decreases |input|
  {
    if input == [] then Trace(c, [])
    else
      var s := Step(c, input[0]);
      var rest := Run(s.next, input[1..]);
      EventCount(|s.events|, |rest.events|, input[0] == CR, Terminators(input[1..]));
      Trace(rest.controller, s.events + rest.events)
  }

  /** The events of a sequence of records, one unlock sequence after another. */
  function UnlockAll(records: seq<seq<byte>>): seq<Event>
    decreases |records|
  {
    if records == [] then [] else Unlock(records[0]) + UnlockAll(records[1..])
  }

  /** The records up to, not including, the first one that does not decode. */
  function DecodablePrefix(records: seq<seq<byte>>): (p: seq<seq<byte>>)
    ensures p <= records
    ensures forall i | 0 <= i < |p| :: ValidUtf8(p[i])
    ensures |p| < |records| ==> !ValidUtf8(records[|p|])
    decreases |records|
  {
    if records == [] || !ValidUtf8(records[0]) then []
    else [records[0]] + DecodablePrefix(records[1..])
  }

  /** The loop's whole trace, in terms of the framer alone: it runs one unlock sequence
      per record the framer completes, in order, up to the first record that does not
      decode; it stops exactly when such a record exists; and while it listens, its buffer
      is the framer's. */
  lemma {:induction false} RunTrace(f: Framer, input: seq<byte>)
    ensures var r := Run(Listening(f), input);
      var framed := ScanFramer.Run(f, input);
      && r.events == UnlockAll(DecodablePrefix(framed.records))
      && (r.controller.Stopped? <==> exists i | 0 <= i < |framed.records| :: !ValidUtf8(framed.records[i]))
      && (r.controller.Listening? ==> r.controller.framer == framed.framer)
    decreases |input|
  {
    if input != [] {
      var b := input[0];
      var s := ScanFramer.Step(f, b);
      var rest := ScanFramer.Run(s.next, input[1..]);
      RunTrace(s.next, input[1..]);
      if b == CR {
        var record := f.buffer + [CR];
        TerminatorKeepsValidity(f.buffer);
        assert ScanFramer.Run(f, input).records == [record] + rest.records;
        if ValidUtf8(record) {
          assert Run(Listening(f), input).events == Unlock(record) + Run(Listening(s.next), input[1..]).events;
          assert ([record] + rest.records)[1..] == rest.records;
          assert DecodablePrefix([record] + rest.records) == [record] + DecodablePrefix(rest.records);
          assert UnlockAll([record] + DecodablePrefix(rest.records)) == Unlock(record) + UnlockAll(DecodablePrefix(rest.records));
          ExistsInvalidCons(record, rest.records);
        } else {
          assert ([record] + rest.records)[0] == record;
        }
      } else {
        assert Run(Listening(f), input) == Run(Listening(s.next), input[1..]);
        assert ScanFramer.Run(f, input) == rest;
      }
    }
  }

  lemma ExistsInvalidCons(r: seq<byte>, rs: seq<seq<byte>>)
    requires ValidUtf8(r)
    ensures (exists i | 0 <= i < |[r] + rs| :: !ValidUtf8(([r] + rs)[i]))
            <==> (exists i | 0 <= i < |rs| :: !ValidUtf8(rs[i]))
  {
    if exists i | 0 <= i < |rs| :: !ValidUtf8(rs[i]) {
      var i :| 0 <= i < |rs| && !ValidUtf8(rs[i]);
      assert ([r] + rs)[i + 1] == rs[i];
    }
    if exists i | 0 <= i < |[r] + rs| :: !ValidUtf8(([r] + rs)[i]) {
      var i :| 0 <= i < |[r] + rs| && !ValidUtf8(([r] + rs)[i]);
      assert i > 0;
      assert ([r] + rs)[i] == rs[i - 1];
    }
  }

  /** The unlock sequences of `k` records take `4 * k` events, and the `k`-th record's
      sequence occupies events `4 * k` to `4 * k + 3`: every relay is followed by exactly
      its own two moves and pause, and no other move happens. */
  lemma {:induction false} UnlockAllShape(records: seq<seq<byte>>)
    ensures |UnlockAll(records)| == 4 * |records|
    ensures forall k | 0 <= k < |records| :: UnlockAll(records)[4 * k..4 * k + 4] == Unlock(records[k])
    decreases |records|
  {
    if records != [] {
      UnlockAllShape(records[1..]);
      var all := UnlockAll(records);
      var tail := UnlockAll(records[1..]);
      assert all == Unlock(records[0]) + tail;
      forall k | 0 <= k < |records|
        ensures all[4 * k..4 * k + 4] == Unlock(records[k])
      {
        if k == 0 {
          assert all[0..4] == Unlock(records[0]);
        } else {
          assert all[4 * k..4 * k + 4] == tail[4 * (k - 1)..4 * (k - 1) + 4];
          assert records[1..][k - 1] == records[k];
        }
      }
    }
  }

  /** A single clean scan that decodes relays the scan, terminator included, exactly
      once, runs the lock sequence exactly once, and leaves the loop as it started. */
  lemma SingleScanTrace(body: seq<byte>)
    requires CR !in body && ACK !in body && ValidUtf8(body)
    ensures Run(Start, body + [CR]) == Trace(Start, Unlock(body + [CR]))
  {
    var scan := body + [CR];
    SingleScan(body);
    RunTrace(Idle, scan);
    TerminatorKeepsValidity(body);
    assert DecodablePrefix([scan]) == [scan];
    assert UnlockAll([scan]) == Unlock(scan) + UnlockAll([]);
  }

  /** A scan that decodes under the firmware's lax check is relayed and unlocks even
      where strict UTF-8 would refuse it: the overlong `C0 80` goes through. */
  lemma OverlongScanUnlocks()
    ensures Run(Start, [0xC0, 0x80, CR]) == Trace(Start, Unlock([0xC0, 0x80, CR]))
  {
    var body: seq<byte> := [0xC0, 0x80];
    StructuralOnly();
    assert body + [CR] == [0xC0, 0x80, CR];
    SingleScanTrace(body);
  }

  /** An ASCII scan with no terminator or noise byte in it unlocks exactly once. */
  lemma DigitsScan(body: seq<byte>)
    requires IsAscii(body) && CR !in body && ACK !in body
    ensures Run(Start, body + [CR]) == Trace(Start, Unlock(body + [CR]))
  {
    AsciiIsValid(body);
    SingleScanTrace(body);
  }

  /** End to end: the scan `1234567` and its carriage return, from a freshly started
      loop, relays those eight bytes once and moves the lock to duty 2000, pauses, and
      moves it to duty 4240 — and nothing else. */
  lemma ScanOfDigits()
    ensures Run(Start, [0x31, 0x32, 0x33, 0x34, 0x35, 0x36, 0x37, CR]) ==
            Trace(Start, [Forward([0x31, 0x32, 0x33, 0x34, 0x35, 0x36, 0x37, CR]),
                          Move(2000), Pause(2), Move(4240)])
  {
    var body: seq<byte> := [0x31, 0x32, 0x33, 0x34, 0x35, 0x36, 0x37];
    DigitsScan(body);
    assert body + [CR] == [0x31, 0x32, 0x33, 0x34, 0x35, 0x36, 0x37, CR];
  }
}
