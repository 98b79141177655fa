/** The command side of the scanner link (ucontroller_code.py, lines 34-133): fixed
    ASCII command frames and the classification of the scanner's reply. */
module CommandChannel {
  import opened Wrappers
  import opened Bytes

  /** What `outputRx` returns: the two sentinels, or the drained bytes unchanged. */
  datatype Response = Success | Error | Raw(bytes: seq<byte>)

  /** The decision rule applied once the pending bytes are drained. */
  function Decode(data: seq<byte>): (r: Response)
    ensures r == Success <==> data == [ACK]
    ensures r == Error <==> data == [NAK]
    ensures r.Raw? <==> data != [ACK] && data != [NAK]
    ensures r.Raw? ==> r.bytes == data
  {
    if data == [ACK] then Success
    else if data == [NAK] then Error
    else Raw(data)
  }

  /** The bytes that a response stands for. */
  function Wire(r: Response): (data: seq<byte>)
    ensures r.Raw? ==> data == r.bytes
    ensures !r.Raw? ==> |data| == 1
  {
    match r
    case Success => [ACK]
    case Error => [NAK]
    case Raw(bytes) => bytes
  }

  /** A response `Decode` can produce: a raw response never carries a lone sentinel. */
  predicate Canonical(r: Response) {
    r.Raw? ==> r.bytes != [ACK] && r.bytes != [NAK]
  }

  /** Classification loses nothing: the drained bytes can be read back from any response. */
  lemma DecodeLossless(data: seq<byte>)
    ensures Canonical(Decode(data))
    ensures Wire(Decode(data)) == data
  {
  }

  /** Every canonical response is the classification of its own bytes. */
  lemma DecodeWire(r: Response)
    requires Canonical(r)
    ensures Decode(Wire(r)) == r
  {
  }

  /** `outputRx`: read every pending byte one at a time, in arrival order, then classify.
      The loop stops when nothing is pending, so an idle link yields `Raw([])`. */
  method Receive(pending: seq<byte>) returns (r: Response)
    ensures r == Decode(pending)
    ensures pending == [] ==> r == Raw([])
  {
    var data: seq<byte> := [];
    var i := 0;
    while i < |pending|
      invariant 0 <= i <= |pending|
      invariant data == pending[..i]
    {
      data := data + [pending[i]];
      i := i + 1;
    }
    assert pending[..|pending|] == pending;
    if data == [ACK] {
      r := Success;
    } else if data == [NAK] {
      r := Error;
    } else {
      r := Raw(data);
    }
  }

  /** Motion-sensitivity levels and their thresholds. */
  datatype Sensitivity = High | Medium | Low

  /** The commands the firmware can send, one per command function of the source. */
  datatype Command =
    | Reset
    | TtlMode
    | MotionOn
    | LightsOff
    | QrModeOn
    | Threshold(level: Sensitivity)

  /** The opcode token of each command. */
  function Opcode(c: Command): (op: string)
    ensures IsAsciiText(op)
    ensures '.' !in op
  {
    match c
    case Reset => "DEFALT"
    case TtlMode => "POR232"
    case MotionOn => "SCMMDH"
    case LightsOff => "LAMENA0"
    case QrModeOn => "QRCENA1"
    case Threshold(High) => "MDTTHR20"
    case Threshold(Medium) => "MDTTHR50"
    case Threshold(Low) => "MDTTHR100"
  }

  const Prefix: string := "^_^"
  const Suffix: string := "."

  /** The wire frame of a command: every frame starts with `^_^`, ends with `.`, and
      carries the command's opcode in between. */
  function Frame(c: Command): (f: seq<byte>)
    ensures |f| == |Opcode(c)| + 4
    ensures f[..3] == Ascii(Prefix)
    ensures f[|f| - 1] == Ascii(Suffix)[0]
    ensures f[3..|f| - 1] == Ascii(Opcode(c))
  {
    AsciiAppend(Prefix, Opcode(c));
    AsciiAppend(Prefix + Opcode(c), Suffix);
    Ascii(Prefix + Opcode(c) + Suffix)
  }

  /** Distinct commands never share an opcode. */
  lemma OpcodeInjective(c1: Command, c2: Command)
    requires Opcode(c1) == Opcode(c2)
    ensures c1 == c2
  {
  }

  /** Distinct commands never share a frame, so the scanner can tell them apart. */
  lemma FrameInjective(c1: Command, c2: Command)
    requires Frame(c1) == Frame(c2)
    ensures c1 == c2
  {
    AsciiInjective(Opcode(c1), Opcode(c2));
    OpcodeInjective(c1, c2);
  }

  /** A command's frame is the encoding of the prefix, its opcode and the terminator. */
  lemma FrameIs(c: Command, text: string)
    requires Prefix + Opcode(c) + Suffix == text
    ensures Frame(c) == Ascii(text)
  {
    AsciiAppend(Prefix, Opcode(c));
    AsciiAppend(Prefix + Opcode(c), Suffix);
  }

  /** The frame of every command other than a threshold, byte for byte, as the source
      writes it (the thresholds follow in `ThresholdFrames`). */
  lemma FrameTable()
    ensures Frame(Reset) == Ascii("^_^DEFALT.")
    ensures Frame(TtlMode) == Ascii("^_^POR232.")
    ensures Frame(MotionOn) == Ascii("^_^SCMMDH.")
    ensures Frame(LightsOff) == Ascii("^_^LAMENA0.")
    ensures Frame(QrModeOn) == Ascii("^_^QRCENA1.")
  {
    assert Frame(Reset) == Ascii("^_^DEFALT.") by { FrameIs(Reset, "^_^DEFALT."); }
    assert Frame(TtlMode) == Ascii("^_^POR232.") by { FrameIs(TtlMode, "^_^POR232."); }
    assert Frame(MotionOn) == Ascii("^_^SCMMDH.") by { FrameIs(MotionOn, "^_^SCMMDH."); }
    assert Frame(LightsOff) == Ascii("^_^LAMENA0.") by { FrameIs(LightsOff, "^_^LAMENA0."); }
    assert Frame(QrModeOn) == Ascii("^_^QRCENA1.") by { FrameIs(QrModeOn, "^_^QRCENA1."); }
  }

  /** The frames of the three sensitivity thresholds. */
  lemma ThresholdFrames()
    ensures Frame(Threshold(High)) == Ascii("^_^MDTTHR20.")
    ensures Frame(Threshold(Medium)) == Ascii("^_^MDTTHR50.")
    ensures Frame(Threshold(Low)) == Ascii("^_^MDTTHR100.")
  {
    assert Frame(Threshold(High)) == Ascii("^_^MDTTHR20.") by { FrameIs(Threshold(High), "^_^MDTTHR20."); }
    assert Frame(Threshold(Medium)) == Ascii("^_^MDTTHR50.") by { FrameIs(Threshold(Medium), "^_^MDTTHR50."); }
    assert Frame(Threshold(Low)) == Ascii("^_^MDTTHR100.") by { FrameIs(Threshold(Low), "^_^MDTTHR100."); }
  }

  /** `motionSense(sense)`: the command it sends, or nothing for any other threshold. */
  function MotionSense(sense: int): (c: Option<Command>)
    ensures c == Some(Threshold(High)) <==> sense == 20
    ensures c == Some(Threshold(Medium)) <==> sense == 50
    ensures c == Some(Threshold(Low)) <==> sense == 100
    ensures c.None? <==> sense != 20 && sense != 50 && sense != 100
    ensures c.Some? ==> c.value.Threshold?
  {
    if sense == 20 then Some(Threshold(High))
    else if sense == 50 then Some(Threshold(Medium))
    else if sense == 100 then Some(Threshold(Low))
    else None
  }

  /** The frames `motionSense(sense)` puts on the wire: one frame naming the threshold
      for 20, 50 and 100, none otherwise. */
  function SenseFrames(sense: int): (frames: seq<seq<byte>>)
    ensures sense == 20 ==> frames == [Ascii("^_^MDTTHR20.")]
    ensures sense == 50 ==> frames == [Ascii("^_^MDTTHR50.")]
    ensures sense == 100 ==> frames == [Ascii("^_^MDTTHR100.")]
    ensures sense != 20 && sense != 50 && sense != 100 ==> frames == []
  {
    ThresholdFrames();
    match MotionSense(sense)
    case None => []
    case Some(c) => [Frame(c)]
  }
}
