/** The byte-level framer of the main loop (ucontroller_code.py, lines 200-237): every
    byte from the scanner is either dropped (`0x06`) or appended to the buffer, and a
    carriage return hands the buffer, terminator included, on and empties it. */
module ScanFramer {
  import opened Wrappers
  import opened Bytes

  /** `rxData`: the bytes of the scan being accumulated. */
  datatype Framer = Framer(buffer: seq<byte>)

  const Idle: Framer := Framer([])

  /** The framer after one byte, and the record that byte completed, if any. */
  datatype StepResult = StepResult(next: Framer, record: Option<seq<byte>>)

  /** One iteration of the main loop on byte `b`: an `0x06` is thrown away, anything else
      is appended; when `b` is a carriage return the buffer so far is the record and the
      buffer starts afresh. */
  function Step(f: Framer, b: byte): (r: StepResult)
    ensures b == ACK ==> r == StepResult(f, None)
    ensures b == CR ==> r.record == Some(f.buffer + [CR]) && r.next == Idle
    ensures b != ACK && b != CR ==> r.next.buffer == f.buffer + [b] && r.record.None?
  {
    var buffer := if b == ACK then f.buffer else f.buffer + [b];
    if b == CR then StepResult(Idle, Some(buffer))
    else StepResult(Framer(buffer), None)
  }

  /** The framer after a whole stream, and the records completed along the way in order. */
  datatype RunResult = RunResult(framer: Framer, records: seq<seq<byte>>)

  /** How many carriage returns `input` holds. */
  function Terminators(input: seq<byte>): nat
    decreases |input|
  {
    if input == [] then 0 else (if input[0] == CR then 1 else 0) + Terminators(input[1..])
  }

  /** `Terminators` counts the occurrences of the carriage return. */
  lemma {:induction false} TerminatorsCount(input: seq<byte>)
    ensures Terminators(input) == multiset(input)[CR]
    decreases |input|
  {
    if input != [] {
      assert input == [input[0]] + input[1..];
      TerminatorsCount(input[1..]);
    }
  }

  /** The framer after a whole stream: one record completed per carriage return. */
  function Run(f: Framer, input: seq<byte>): (r: RunResult)
    ensures |r.records| == Terminators(input)
    ensures CR !in f.buffer ==> CR !in r.framer.buffer
    decreases |input|
  {
    if input == [] then RunResult(f, [])
    else
      var s := Step(f, input[0]);
      var rest := Run(s.next, input[1..]);
      var emitted := if s.record.Some? then [s.record.value] else [];
      RunResult(rest.framer, emitted + rest.records)
  }

  /** The stream with every `0x06` removed and the other bytes in their order. */
  function Filter(input: seq<byte>): (r: seq<byte>)
    ensures ACK !in r
    ensures |r| <= |input|
    decreases |input|
  {
    if input == [] then []
    else (if input[0] == ACK then [] else [input[0]]) + Filter(input[1..])
  }

  lemma FilterAppend(a: seq<byte>, b: seq<byte>)
    ensures Filter(a + b) == Filter(a) + Filter(b)
    decreases |a|
  {
    if a == [] {
      assert a + b == b;
    } else {
      assert (a + b)[0] == a[0];
      assert (a + b)[1..] == a[1..] + b;
      FilterAppend(a[1..], b);
    }
  }

  /** Filtering keeps exactly the bytes other than `0x06`: each of them, as often as it
      occurs. */
  lemma {:induction false} FilterCounts(input: seq<byte>)
    ensures forall b | b != ACK :: multiset(Filter(input))[b] == multiset(input)[b]
    ensures multiset(Filter(input))[ACK] == 0
    decreases |input|
  {
    if input != [] {
      FilterCounts(input[1..]);
      assert input == [input[0]] + input[1..];
    }
  }

  /** A stream without noise bytes passes the filter unchanged. */
  lemma {:induction false} FilterKeepsClean(input: seq<byte>)
    requires ACK !in input
    ensures Filter(input) == input
    decreases |input|
  {
    if input != [] {
      assert input == [input[0]] + input[1..];
      FilterKeepsClean(input[1..]);
    }
  }

  /** A noise byte never changes the framer and never completes a record. */
  lemma NoiseIgnored(f: Framer)
    ensures Run(f, [ACK]) == RunResult(f, [])
  {
  }

  /** Without a terminator nothing is forwarded, and the buffer grows by exactly the
      stream's bytes other than `0x06`, in their order. */
  lemma {:induction false} AccumulateWithoutTerminator(buf: seq<byte>, input: seq<byte>)
    requires CR !in input
    ensures Run(Framer(buf), input) == RunResult(Framer(buf + Filter(input)), [])
    decreases |input|
  {
    if input != [] {
      assert input == [input[0]] + input[1..];
      var next := Step(Framer(buf), input[0]).next;
      assert Run(Framer(buf), input) == Run(next, input[1..]);
      AccumulateWithoutTerminator(next.buffer, input[1..]);
      FilterStep(buf, input);
    }
  }

  /** A terminator forwards the buffer followed by the terminator, and empties the
      buffer. */
  lemma Completion(f: Framer)
    ensures Run(f, [CR]) == RunResult(Idle, [f.buffer + [CR]])
  {
    assert [CR][1..] == [];
  }

  /** A clean scan followed by its terminator forwards exactly one record, the whole
      scan with its terminator, and leaves the buffer empty. */
  lemma SingleScan(body: seq<byte>)
    requires CR !in body && ACK !in body
    ensures Run(Idle, body + [CR]) == RunResult(Idle, [body + [CR]])
  {
    FilterKeepsClean(body);
    AccumulateWithoutTerminator([], body);
    assert [] + body == body;
    RunAppend(Idle, body, [CR]);
    Completion(Framer(body));
  }

  /** Running over a concatenation is running over the first part, then the second. */
  lemma {:induction false} RunAppend(f: Framer, a: seq<byte>, b: seq<byte>)
    ensures Run(f, a + b) == RunResult(Run(Run(f, a).framer, b).framer,
                                       Run(f, a).records + Run(Run(f, a).framer, b).records)
    decreases |a|
  {
    if a == [] {
      assert a + b == b;
    } else {
      var s := Step(f, a[0]);
      assert (a + b)[0] == a[0];
      assert (a + b)[1..] == a[1..] + b;
      RunAppend(s.next, a[1..], b);
      var emitted := if s.record.Some? then [s.record.value] else [];
      var mid := Run(s.next, a[1..]);
      assert Run(f, a) == RunResult(mid.framer, emitted + mid.records);
      var tail := Run(mid.framer, b);
      assert Run(f, a + b).records == emitted + (mid.records + tail.records);
      assert emitted + (mid.records + tail.records) == (emitted + mid.records) + tail.records;
    }
  }

  /** A terminator ends every record: after a stream that ends in `0x0D` the buffer is
      empty, so the bytes that follow form records of their own. Record N+1 never holds
      a byte of record N. */
  lemma TerminatorIsolates(f: Framer, a: seq<byte>, b: seq<byte>)
    ensures Run(f, a + [CR]).framer == Idle
    ensures Run(f, a + [CR] + b).records == Run(f, a + [CR]).records + Run(Idle, b).records
  {
    RunAppend(f, a, [CR]);
    RunAppend(f, a + [CR], b);
  }

  /** A complete record: non-empty, ending in the terminator, holding no other terminator
      and no noise byte. */
  predicate IsRecord(r: seq<byte>) {
    |r| > 0 && r[|r| - 1] == CR && CR !in r[..|r| - 1] && ACK !in r
  }

  /** The records, back to back. */
  function Flatten(records: seq<seq<byte>>): seq<byte>
    decreases |records|
  {
    if records == [] then [] else records[0] + Flatten(records[1..])
  }

  /** What the framer promises about a whole stream, independently of how it steps:
      the forwarded records followed by the bytes still buffered are the stream without
      its `0x06` bytes, every forwarded record is a complete record, and what is still
      buffered holds no terminator. Such a decomposition of a stream is unique. */
  predicate Splits(stream: seq<byte>, records: seq<seq<byte>>, rest: seq<byte>) {
    && Flatten(records) + rest == Filter(stream)
    && (forall i | 0 <= i < |records| :: IsRecord(records[i]))
    && CR !in rest
  }

  /** The framer splits every stream as `Splits` describes. */
  lemma FramerSplits(input: seq<byte>)
    ensures Splits(input, Run(Idle, input).records, Run(Idle, input).framer.buffer)
  {
    RunFlattens([], input);
    RunRecordsComplete([], input);
  }

  /** Nothing is lost or invented: what was forwarded, then what is still buffered, is
      the starting buffer followed by the stream without its noise bytes. */
  lemma {:induction false} RunFlattens(buf: seq<byte>, input: seq<byte>)
    ensures Flatten(Run(Framer(buf), input).records) + Run(Framer(buf), input).framer.buffer
            == buf + Filter(input)
    decreases |input|
  {
    if input == [] {
      assert Flatten([]) + buf == buf + [];
    } else {
      var b := input[0];
      var s := Step(Framer(buf), b);
      RunFlattens(s.next.buffer, input[1..]);
      if b == CR {
        var rest := Run(Idle, input[1..]);
        assert Run(Framer(buf), input) == RunResult(rest.framer, [buf + [CR]] + rest.records);
        assert Filter(input) == [CR] + Filter(input[1..]);
        FlattensAfterTerminator(buf, rest, Run(Framer(buf), input), Filter(input[1..]), Filter(input));
      } else {
        FlattensAfterByte(buf, input);
      }
    }
  }

  /** The bookkeeping of a terminator step: the completed record goes in front of the
      records that follow. */
  lemma FlattensAfterTerminator(buf: seq<byte>, rest: RunResult, whole: RunResult,
                                tail: seq<byte>, filtered: seq<byte>)
    requires whole == RunResult(rest.framer, [buf + [CR]] + rest.records)
    requires filtered == [CR] + tail
    requires Flatten(rest.records) + rest.framer.buffer == tail
    ensures Flatten(whole.records) + whole.framer.buffer == buf + filtered
  {
    FlattenCons(buf + [CR], rest.records);
    assert (buf + [CR]) + Flatten(rest.records) + rest.framer.buffer
        == buf + ([CR] + (Flatten(rest.records) + rest.framer.buffer));
  }

  lemma FlattensAfterByte(buf: seq<byte>, input: seq<byte>)
    requires input != [] && input[0] != CR
    requires var next := Step(Framer(buf), input[0]).next;
      Flatten(Run(next, input[1..]).records) + Run(next, input[1..]).framer.buffer
      == next.buffer + Filter(input[1..])
    ensures Flatten(Run(Framer(buf), input).records) + Run(Framer(buf), input).framer.buffer
            == buf + Filter(input)
  {
    var b := input[0];
    var next := Step(Framer(buf), b).next;
    assert Run(Framer(buf), input) == Run(next, input[1..]);
    FilterStep(buf, input);
  }

  lemma ConcatAssoc(a: seq<byte>, b: seq<byte>, c: seq<byte>)
    ensures a + b + c == a + (b + c)
  {
  }

  /** Keeping or dropping the first byte agrees with filtering the whole stream. */
  lemma FilterStep(buf: seq<byte>, input: seq<byte>)
    requires input != [] && input[0] != CR
    ensures Step(Framer(buf), input[0]).next.buffer + Filter(input[1..]) == buf + Filter(input)
  {
    var b := input[0];
    var kept := if b == ACK then [] else [b];
    assert Step(Framer(buf), b).next.buffer == buf + kept;
    assert Filter(input) == kept + Filter(input[1..]);
    ConcatAssoc(buf, kept, Filter(input[1..]));
  }

  /** Every forwarded record is a complete record, and the buffer never holds a
      terminator or a noise byte. */
  lemma {:induction false} RunRecordsComplete(buf: seq<byte>, input: seq<byte>)
    requires CR !in buf && ACK !in buf
    ensures forall i | 0 <= i < |Run(Framer(buf), input).records| ::
              IsRecord(Run(Framer(buf), input).records[i])
    ensures CR !in Run(Framer(buf), input).framer.buffer
    ensures ACK !in Run(Framer(buf), input).framer.buffer
    decreases |input|
  {
    if input != [] {
      var b := input[0];
      var s := Step(Framer(buf), b);
      var rest := Run(s.next, input[1..]);
      RunRecordsComplete(s.next.buffer, input[1..]);
      if b == CR {
        var rec := buf + [CR];
        assert rec[..|rec| - 1] == buf;
        assert IsRecord(rec);
        assert Run(Framer(buf), input) == RunResult(rest.framer, [rec] + rest.records);
      } else {
        assert Run(Framer(buf), input) == rest;
      }
    }
  }

  lemma FlattenCons(r: seq<byte>, rs: seq<seq<byte>>)
    ensures Flatten([r] + rs) == r + Flatten(rs)
  {
    assert ([r] + rs)[1..] == rs;
  }

  /** The decomposition `Splits` describes is unique: the records and the remainder are
      determined by the stream alone. */
  lemma {:induction false} SplitsUnique(stream: seq<byte>, rs1: seq<seq<byte>>, rest1: seq<byte>,
                                        rs2: seq<seq<byte>>, rest2: seq<byte>)
    requires Splits(stream, rs1, rest1) && Splits(stream, rs2, rest2)
    ensures rs1 == rs2 && rest1 == rest2
  {
    FlattenUnique(rs1, rest1, rs2, rest2);
  }

  lemma {:induction false} FlattenUnique(rs1: seq<seq<byte>>, rest1: seq<byte>,
                                         rs2: seq<seq<byte>>, rest2: seq<byte>)
    requires Flatten(rs1) + rest1 == Flatten(rs2) + rest2
    requires forall i | 0 <= i < |rs1| :: IsRecord(rs1[i])
    requires forall i | 0 <= i < |rs2| :: IsRecord(rs2[i])
    requires CR !in rest1 && CR !in rest2
    ensures rs1 == rs2 && rest1 == rest2
    decreases |rs1|
  {
    var s := Flatten(rs1) + rest1;
    if rs1 == [] && rs2 == [] {
      assert Flatten(rs1) + rest1 == rest1;
      assert Flatten(rs2) + rest2 == rest2;
    } else if rs1 == [] {
      RecordHeadHasCR(rs2, rest2);
      assert false;
    } else if rs2 == [] {
      RecordHeadHasCR(rs1, rest1);
      assert false;
    } else {
      var r1 := rs1[0];
      var r2 := rs2[0];
      assert Flatten(rs1) + rest1 == r1 + (Flatten(rs1[1..]) + rest1);
      assert Flatten(rs2) + rest2 == r2 + (Flatten(rs2[1..]) + rest2);
      FirstRecordUnique(r1, Flatten(rs1[1..]) + rest1, r2, Flatten(rs2[1..]) + rest2);
      assert Flatten(rs1[1..]) + rest1 == Flatten(rs2[1..]) + rest2 by {
        assert s[|r1|..] == Flatten(rs1[1..]) + rest1;
        assert s[|r2|..] == Flatten(rs2[1..]) + rest2;
      }
      FlattenUnique(rs1[1..], rest1, rs2[1..], rest2);
    }
  }

  /** A stream that begins with a record holds a terminator. */
  lemma RecordHeadHasCR(rs: seq<seq<byte>>, rest: seq<byte>)
    requires rs != [] && IsRecord(rs[0])
    ensures CR in Flatten(rs) + rest
  {
    var r := rs[0];
    assert Flatten(rs) + rest == r + (Flatten(rs[1..]) + rest);
    assert (Flatten(rs) + rest)[|r| - 1] == CR;
  }

  /** The last byte of a record is the first terminator of any stream it begins. */
  lemma TerminatorFirst(r: seq<byte>, t: seq<byte>)
    requires IsRecord(r)
    ensures (r + t)[|r| - 1] == CR
    ensures forall i | 0 <= i < |r| - 1 :: (r + t)[i] != CR
  {
    forall i | 0 <= i < |r| - 1
      ensures (r + t)[i] != CR
    {
      assert (r + t)[i] == r[..|r| - 1][i];
    }
  }

  /** Two records at the head of the same stream are the same record: each ends at the
      stream's first terminator. */
  lemma FirstRecordUnique(r1: seq<byte>, t1: seq<byte>, r2: seq<byte>, t2: seq<byte>)
    requires IsRecord(r1) && IsRecord(r2)
    requires r1 + t1 == r2 + t2
    ensures r1 == r2
  {
    var s := r1 + t1;
    TerminatorFirst(r1, t1);
    TerminatorFirst(r2, t2);
    if |r1| < |r2| {
      assert false;
    } else if |r2| < |r1| {
      assert false;
    }
    assert r1 == s[..|r1|] == r2;
  }

  /** The worked example: `A, 0x06, B, C, CR` forwards `ABC` followed by the terminator
      and leaves the buffer empty. */
  lemma NoiseInsideScan()
    ensures Run(Idle, [0x41, ACK, 0x42, 0x43, CR]) == RunResult(Idle, [[0x41, 0x42, 0x43, CR]])
  {
    var done: seq<byte> := [0x41, 0x42, 0x43, CR];
    var s: seq<byte> := [0x41, ACK, 0x42, 0x43, CR];
    assert done[..3] + [CR] == done;
    assert Run(Framer(done[..3]), s[4..]) == RunResult(Idle, [done]);
    assert s[3..][1..] == s[4..] && done[..2] + [0x43] == done[..3];
    assert Run(Framer(done[..2]), s[3..]) == RunResult(Idle, [done]);
    assert s[2..][1..] == s[3..] && done[..1] + [0x42] == done[..2];
    assert Run(Framer(done[..1]), s[2..]) == RunResult(Idle, [done]);
    assert s[1..][1..] == s[2..];
    assert Run(Framer(done[..1]), s[1..]) == RunResult(Idle, [done]);
    assert [] + [0x41] == done[..1];
  }
}
