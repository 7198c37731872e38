/**
 * Properties of the analyzer over single frames and over runs of frames: the
 * address filter, the state invariant, what is ignored, and the reports that the
 * usual LM75 transactions produce.
 */
module AnalyzerProofs {

  import opened Optional
  import opened Bytes
  import Numerals
  import Registers
  import TemperatureWord
  import opened Analyzer

  // ---------------------------------------------------------------------------
  // Address filter

  /** On 7-bit addresses the filter takes exactly 0x48 to 0x4F. */
  lemma AdmitsSevenBit(address: Byte)
    requires address < 0x80
    ensures Admits(address) <==> 0x48 <= address <= 0x4F
  {
  }

  // ---------------------------------------------------------------------------
  // Frame shapes

  predicate IsStart<Time>(f: Frame<Time>)
  {
    !f.error && f.event.Start?
  }

  predicate IsStop<Time>(f: Frame<Time>)
  {
    !f.error && f.event.Stop?
  }

  /** A clean address frame for `address` in the given direction. */
  predicate IsAddress<Time>(f: Frame<Time>, address: Byte, read: bool)
  {
    !f.error && f.event == Address(address, read)
  }

  predicate IsData<Time>(f: Frame<Time>, b: Byte)
  {
    !f.error && f.event == Data(b)
  }

  /** Clean data frames carrying the bytes, in order. */
  predicate CarriesBytes<Time>(frames: seq<Frame<Time>>, bytes: seq<Byte>)
  {
    |frames| == |bytes| && forall i | 0 <= i < |frames| :: IsData(frames[i], bytes[i])
  }

  // ---------------------------------------------------------------------------
  // The state invariant

  /**
   * What holds of every state the analyzer reaches: the device address is known
   * while listening, the value width is the one the register address selects, and
   * the value accumulated so far fits in the bytes seen so far.
   */
  predicate Consistent<Time>(s: State<Time>)
  {
    && s.AddressKnown()
    && s.regValLen == Registers.ValueLength(s.regAddr)
    && (s.bytePos == 2 && s.regValLen == 1 ==> s.regVal < 256)
    && (s.bytePos == 2 && s.regValLen == 2 ==> s.regVal % 256 == 0 && s.regVal < 0x10000)
    && (s.bytePos == 3 && s.regValLen == 2 ==> s.regVal < 0x10000)
  }

  lemma InitConsistent<Time>()
    ensures Consistent(Init<Time>())
    ensures Init<Time>().regValLen == 2 && Init<Time>().bytePos == 0 && !Init<Time>().forUs
  {
  }

  lemma StepKeepsConsistent<Time>(s: State<Time>, f: Frame<Time>)
    requires Consistent(s)
    ensures Consistent(Step(s, f).next)
  {
  }

  lemma {:induction false} RunKeepsConsistent<Time>(s: State<Time>, frames: seq<Frame<Time>>)
    requires Consistent(s)
    ensures Consistent(Run(s, frames).final)
    decreases |frames|
  {
    if |frames| > 0 {
      StepKeepsConsistent(s, frames[0]);
      RunKeepsConsistent(Step(s, frames[0]).next, frames[1..]);
    }
  }

  /** A reported raw value always fits in the register's width: below 256 or below 65536. */
  lemma EmittedValueFits<Time>(s: State<Time>, f: Frame<Time>)
    requires Consistent(s)
    requires Step(s, f).report.Some?
    ensures s.regVal < Pow256(s.regValLen)
    ensures s.regValLen == 1 ==> s.regVal < 256
    ensures s.regVal < 0x10000
  {
    assert Pow256(1) == 256 && Pow256(2) == 0x10000;
  }

  /** What a report shows about the width of its value. */
  predicate ReportFits<Time>(r: Report<Time>)
  {
    && (r.value.Degrees? ==> r.value.celsius.halfDegrees < 256)
    && (r.value.HexText? && |r.value.text| > 2 && Numerals.AllDigits(r.value.text[2..], 16) ==>
          Numerals.ValueOf(r.value.text[2..], 16)
            < if r.regName == "Configuration" || r.regName == "ProductID" then 256 else 0x10000)
  }

  lemma EmitFits<Time>(s: State<Time>, f: Frame<Time>)
    requires Consistent(s)
    requires Step(s, f).report.Some?
    ensures ReportFits(Step(s, f).report.value)
  {
    EmittedValueFits(s, f);
    var r := Step(s, f).report.value;
    if r.regName == "Configuration" {
      assert Registers.Name(1) == "Configuration";
      Registers.NameInjective(s.regAddr, 1);
    } else if r.regName == "ProductID" {
      assert Registers.Name(7) == "ProductID";
      Registers.NameInjective(s.regAddr, 7);
    }
  }

  /**
   * Every report of a run from a consistent state (in particular from the
   * analyzer as created) shows a value that fits its register: 8 bits for
   * Configuration and ProductID, 16 bits otherwise.
   */
  lemma {:induction false} RunReportsFit<Time>(s: State<Time>, frames: seq<Frame<Time>>)
    requires Consistent(s)
    ensures forall i | 0 <= i < |Run(s, frames).reports| :: ReportFits(Run(s, frames).reports[i])
    decreases |frames|
  {
    if |frames| > 0 {
      var o := Step(s, frames[0]);
      StepKeepsConsistent(s, frames[0]);
      RunReportsFit(o.next, frames[1..]);
      if o.report.Some? {
        EmitFits(s, frames[0]);
      }
    }
  }

  // ---------------------------------------------------------------------------
  // Runs

  lemma RunCons<Time>(s: State<Time>, f: Frame<Time>, rest: seq<Frame<Time>>)
    requires s.AddressKnown()
    ensures Run(s, [f] + rest) ==
      var o := Step(s, f);
      Trace(Run(o.next, rest).final, (if o.report.Some? then [o.report.value] else []) + Run(o.next, rest).reports)
  {
    assert ([f] + rest)[1..] == rest;
  }

  /** Running two pieces one after the other is running their concatenation. */
  lemma {:induction false} RunAppend<Time>(s: State<Time>, xs: seq<Frame<Time>>, ys: seq<Frame<Time>>)
    requires s.AddressKnown()
    ensures Run(s, xs + ys) ==
      Trace(Run(Run(s, xs).final, ys).final, Run(s, xs).reports + Run(Run(s, xs).final, ys).reports)
    decreases |xs|
  {
    if |xs| == 0 {
      assert xs + ys == ys;
    } else {
      var o := Step(s, xs[0]);
      assert (xs + ys)[0] == xs[0];
      assert (xs + ys)[1..] == xs[1..] + ys;
      RunAppend(o.next, xs[1..], ys);
      var out := if o.report.Some? then [o.report.value] else [];
      var mid := Run(o.next, xs[1..]);
      var tail := Run(mid.final, ys);
      assert out + (mid.reports + tail.reports) == (out + mid.reports) + tail.reports;
    }
  }

  /** The frames without an error flag. */
  function WithoutErrors<Time>(frames: seq<Frame<Time>>): (clean: seq<Frame<Time>>)
    ensures |clean| <= |frames|
    ensures forall i | 0 <= i < |clean| :: !clean[i].error
  {
    if |frames| == 0 then []
    else (if frames[0].error then [] else [frames[0]]) + WithoutErrors(frames[1..])
  }

  /** Error-flagged frames anywhere in a run change neither the reports nor the final state. */
  lemma {:induction false} ErrorFramesIgnored<Time>(s: State<Time>, frames: seq<Frame<Time>>)
    requires s.AddressKnown()
    ensures Run(s, frames) == Run(s, WithoutErrors(frames))
    decreases |frames|
  {
    if |frames| > 0 {
      var o := Step(s, frames[0]);
      ErrorFramesIgnored(o.next, frames[1..]);
      if frames[0].error {
        assert o == Outcome(s, None);
        assert WithoutErrors(frames) == WithoutErrors(frames[1..]);
      } else {
        assert WithoutErrors(frames) == [frames[0]] + WithoutErrors(frames[1..]);
        RunCons(s, frames[0], WithoutErrors(frames[1..]));
      }
    }
  }

  /**
   * While the analyzer is not listening, data bytes, stops and error frames
   * change nothing and report nothing.
   */
  lemma {:induction false} ForeignTrafficIgnored<Time>(s: State<Time>, frames: seq<Frame<Time>>)
    requires s.AddressKnown() && !s.forUs
    requires forall i | 0 <= i < |frames| :: frames[i].error || frames[i].event.Data? || frames[i].event.Stop?
    ensures Run(s, frames) == Trace(s, [])
    decreases |frames|
  {
    if |frames| > 0 {
      ForeignTrafficIgnored(s, frames[1..]);
    }
  }

  /**
   * From a rejected address on, the rest of the transaction (data bytes, stops,
   * error frames) only clears the listening flag and reports nothing.
   */
  lemma ForeignTransactionIgnored<Time>(s: State<Time>, address: Frame<Time>, frames: seq<Frame<Time>>)
    requires s.AddressKnown()
    requires !address.error && address.event.Address? && !Admits(address.event.address)
    requires forall i | 0 <= i < |frames| :: frames[i].error || frames[i].event.Data? || frames[i].event.Stop?
    ensures Run(s, [address] + frames) == Trace(s.(forUs := false), [])
  {
    RunCons(s, address, frames);
    ForeignTrafficIgnored(s.(forUs := false), frames);
  }

  /**
   * A whole transaction to another device, from its start frame: the start still
   * records its time as the transaction start (and as the frame start when no
   * access is pending), the rejected address clears the listening flag, and the
   * rest is ignored.
   */
  lemma ForeignTransactionFromStart<Time>(
    s: State<Time>, start: Frame<Time>, address: Frame<Time>, frames: seq<Frame<Time>>)
    requires s.AddressKnown() && IsStart(start)
    requires !address.error && address.event.Address? && !Admits(address.event.address)
    requires forall i | 0 <= i < |frames| :: frames[i].error || frames[i].event.Data? || frames[i].event.Stop?
    ensures Run(s, [start, address] + frames) ==
      var t := Some(start.startTime);
      Trace(s.(forUs := false, startOfTransaction := t,
               startOfFrame := if s.bytePos == 0 then t else s.startOfFrame), [])
  {
    var s1 := Step(s, start).next;
    assert [start, address] + frames == [start] + ([address] + frames);
    RunCons(s, start, [address] + frames);
    ForeignTransactionIgnored(s1, address, frames);
  }

  /**
   * A stop with the wrong byte count does not reset the byte position, so once the
   * position has passed the register's width plus one, it can never again equal
   * the expected count: the analyzer reports nothing from then on.
   */
  lemma {:induction false} OverrunIsPermanent<Time>(s: State<Time>, frames: seq<Frame<Time>>)
    requires s.AddressKnown() && s.bytePos > s.regValLen + 1
    ensures Run(s, frames).reports == []
    ensures Run(s, frames).final.bytePos > Run(s, frames).final.regValLen + 1
    decreases |frames|
  {
    if |frames| > 0 {
      OverrunIsPermanent(Step(s, frames[0]).next, frames[1..]);
    }
  }

  // ---------------------------------------------------------------------------
  // Transactions

  /**
   * The value bytes of an access and the stop that closes it: the bytes are read
   * big-endian, the access is reported, and the position returns to 0.
   */
  lemma ValueBytesThenStop<Time>(s: State<Time>, data: seq<Frame<Time>>, bytes: seq<Byte>, stop: Frame<Time>)
    requires s.AddressKnown() && s.forUs && s.bytePos == 1
    requires s.regValLen == 1 || s.regValLen == 2
    requires |bytes| == s.regValLen && CarriesBytes(data, bytes) && IsStop(stop)
    ensures Run(s, data + [stop]) ==
      var v := BigEndian(bytes);
      Trace(s.(bytePos := 0, startOfFrame := s.startOfTransaction, regVal := v),
            [Emit(s.(regVal := v), stop.endTime)])
  {
    assert IsData(data[0], bytes[0]);
    if |bytes| == 1 {
      assert data + [stop] == [data[0], stop];
      assert bytes == [bytes[0]];
      OneValueByte(s, data[0], bytes[0], stop);
    } else {
      assert IsData(data[1], bytes[1]);
      assert data + [stop] == [data[0], data[1], stop];
      assert bytes == [bytes[0], bytes[1]];
      TwoValueBytes(s, data[0], data[1], bytes[0], bytes[1], stop);
    }
  }

  lemma OneValueByte<Time>(s: State<Time>, d: Frame<Time>, b: Byte, stop: Frame<Time>)
    requires s.AddressKnown() && s.forUs && s.bytePos == 1 && s.regValLen == 1
    requires IsData(d, b) && IsStop(stop)
    ensures Run(s, [d, stop]) ==
      Trace(s.(bytePos := 0, startOfFrame := s.startOfTransaction, regVal := BigEndian([b])),
            [Emit(s.(regVal := BigEndian([b])), stop.endTime)])
  {
    assert BigEndian([b]) == b by {
      assert [b][..0] == [];
    }
    var s1 := Step(s, d).next;
    assert s1 == s.(regVal := b).(bytePos := 2);
    EmitIgnoresPosition(s.(regVal := b), 2, stop.endTime);
    RunCons(s, d, [stop]);
    RunCons(s1, stop, []);
  }

  lemma TwoValueBytes<Time>(s: State<Time>, d0: Frame<Time>, d1: Frame<Time>, b0: Byte, b1: Byte, stop: Frame<Time>)
    requires s.AddressKnown() && s.forUs && s.bytePos == 1 && s.regValLen == 2
    requires IsData(d0, b0) && IsData(d1, b1) && IsStop(stop)
    ensures Run(s, [d0, d1, stop]) ==
      Trace(s.(bytePos := 0, startOfFrame := s.startOfTransaction, regVal := BigEndian([b0, b1])),
            [Emit(s.(regVal := BigEndian([b0, b1])), stop.endTime)])
  {
    var v := b0 * 256 + b1;
    assert BigEndian([b0, b1]) == v by {
      assert [b0, b1][..1] == [b0] && [b0][..0] == [];
    }
    var s1 := Step(s, d0).next;
    assert s1 == s.(bytePos := 2, regVal := b0 * 256);
    var s2 := Step(s1, d1).next;
    assert s2 == s.(regVal := v).(bytePos := 3);
    EmitIgnoresPosition(s.(regVal := v), 3, stop.endTime);
    RunCons(s, d0, [d1, stop]);
    RunCons(s1, d1, [stop]);
    RunCons(s2, stop, []);
  }

  /** The fields of the report `OneValueByte` yields, for callers that need only those. */
  lemma OneValueByteShown<Time>(s: State<Time>, d: Frame<Time>, b: Byte, stop: Frame<Time>)
    requires s.AddressKnown() && s.forUs && s.bytePos == 1 && s.regValLen == 1
    requires IsData(d, b) && IsStop(stop)
    ensures
      var t := Run(s, [d, stop]);
      && |t.reports| == 1
      && t.reports[0].kind.read == s.read
      && t.reports[0].regName == Registers.Name(s.regAddr)
      && t.reports[0].value == Show(s.regAddr, b)
      && t.final.bytePos == 0
  {
    OneValueByte(s, d, b, stop);
    assert BigEndian([b]) == b by {
      assert [b][..0] == [];
    }
  }

  /** The fields of the report `TwoValueBytes` yields, for callers that need only those. */
  lemma TwoValueBytesShown<Time>(s: State<Time>, d0: Frame<Time>, d1: Frame<Time>, b0: Byte, b1: Byte, stop: Frame<Time>)
    requires s.AddressKnown() && s.forUs && s.bytePos == 1 && s.regValLen == 2
    requires IsData(d0, b0) && IsData(d1, b1) && IsStop(stop)
    ensures
      var t := Run(s, [d0, d1, stop]);
      && |t.reports| == 1
      && t.reports[0].kind.read == s.read
      && t.reports[0].regName == Registers.Name(s.regAddr)
      && t.reports[0].value == Show(s.regAddr, BigEndian([b0, b1]))
      && t.final.bytePos == 0
  {
    TwoValueBytes(s, d0, d1, b0, b1, stop);
  }

  /** A report does not depend on the byte position. */
  lemma EmitIgnoresPosition<Time>(s: State<Time>, p: nat, end: Time)
    requires s.i2cAddr.Some?
    ensures Emit(s.(bytePos := p), end) == Emit(s, end)
  {
  }

  /**
   * A write: start, admitted address with the write flag, register pointer, the
   * register's value bytes, stop. It is reported once, as a write of the
   * big-endian value, starting at the start frame and ending at the stop.
   */
  lemma WriteAccess<Time>(
    s: State<Time>, start: Frame<Time>, address: Frame<Time>, pointer: Frame<Time>,
    data: seq<Frame<Time>>, stop: Frame<Time>, a: Byte, reg: Byte, bytes: seq<Byte>)
    requires s.AddressKnown() && s.bytePos == 0
    requires IsStart(start) && IsAddress(address, a, false) && Admits(a) && IsData(pointer, reg)
    requires |bytes| == Registers.ValueLength(reg) && CarriesBytes(data, bytes) && IsStop(stop)
    ensures
      var t := Run(s, [start, address, pointer] + data + [stop]);
      && t.reports == [Report(ReportKind(false, Registers.IsTemperature(reg)), Some(start.startTime),
                              stop.endTime, Numerals.Decimal(a), Registers.Name(reg),
                              Show(reg, BigEndian(bytes)))]
      && t.final.bytePos == 0 && t.final.forUs && !t.final.read
      && t.final.startOfFrame == Some(start.startTime)
  {
    var s1 := Step(s, start).next;
    var s2 := Step(s1, address).next;
    var s3 := Step(s2, pointer).next;
    assert s3 == s.(startOfTransaction := Some(start.startTime), startOfFrame := Some(start.startTime),
                    forUs := true, i2cAddr := Some(a), read := false,
                    regAddr := reg, regValLen := Registers.ValueLength(reg), bytePos := 1);
    var prefix := [start, address, pointer];
    RunAppend(s, prefix, data + [stop]);
    assert prefix + data + [stop] == prefix + (data + [stop]);
    RunCons(s, start, [address, pointer]);
    RunCons(s1, address, [pointer]);
    RunCons(s2, pointer, []);
    assert Run(s, prefix) == Trace(s3, []);
    ValueBytesThenStop(s3, data, bytes, stop);
  }

  /**
   * A read through the register pointer with a repeated start: start, address with
   * the write flag, register pointer, start, address with the read flag, the
   * value bytes, stop. The reported start is that of the first start frame, since
   * the second start arrives while the pointer byte is pending.
   */
  lemma PointerThenRepeatedStartRead<Time>(
    s: State<Time>, start: Frame<Time>, address: Frame<Time>, pointer: Frame<Time>,
    restart: Frame<Time>, readAddress: Frame<Time>, data: seq<Frame<Time>>, stop: Frame<Time>,
    a: Byte, reg: Byte, bytes: seq<Byte>)
    requires s.AddressKnown() && s.bytePos == 0
    requires IsStart(start) && IsAddress(address, a, false) && Admits(a) && IsData(pointer, reg)
    requires IsStart(restart) && IsAddress(readAddress, a, true)
    requires |bytes| == Registers.ValueLength(reg) && CarriesBytes(data, bytes) && IsStop(stop)
    ensures
      var t := Run(s, [start, address, pointer, restart, readAddress] + data + [stop]);
      && t.reports == [Report(ReportKind(true, Registers.IsTemperature(reg)), Some(start.startTime),
                              stop.endTime, Numerals.Decimal(a), Registers.Name(reg),
                              Show(reg, BigEndian(bytes)))]
      && t.final.bytePos == 0
      && t.final.startOfFrame == Some(restart.startTime)
  {
    var s1 := Step(s, start).next;
    var s2 := Step(s1, address).next;
    var s3 := Step(s2, pointer).next;
    var s4 := Step(s3, restart).next;
    var s5 := Step(s4, readAddress).next;
    assert s5 == s.(startOfTransaction := Some(restart.startTime), startOfFrame := Some(start.startTime),
                    forUs := true, i2cAddr := Some(a), read := true,
                    regAddr := reg, regValLen := Registers.ValueLength(reg), bytePos := 1);
    var prefix := [start, address, pointer, restart, readAddress];
    RunAppend(s, prefix, data + [stop]);
    assert prefix + data + [stop] == prefix + (data + [stop]);
    RunCons(s, start, [address, pointer, restart, readAddress]);
    RunCons(s1, address, [pointer, restart, readAddress]);
    RunCons(s2, pointer, [restart, readAddress]);
    RunCons(s3, restart, [readAddress]);
    RunCons(s4, readAddress, []);
    assert Run(s, prefix) == Trace(s5, []);
    ValueBytesThenStop(s5, data, bytes, stop);
  }

  /**
   * The same read with a stop after the pointer byte instead of a repeated start.
   * The stop sees one byte where the register needs more and leaves everything as
   * it is, so the pointer write and the read are still reported as one access,
   * starting at the first start frame.
   */
  lemma PointerStopThenRead<Time>(
    s: State<Time>, start: Frame<Time>, address: Frame<Time>, pointer: Frame<Time>, pause: Frame<Time>,
    restart: Frame<Time>, readAddress: Frame<Time>, data: seq<Frame<Time>>, stop: Frame<Time>,
    a: Byte, reg: Byte, bytes: seq<Byte>)
    requires s.AddressKnown() && s.bytePos == 0
    requires IsStart(start) && IsAddress(address, a, false) && Admits(a) && IsData(pointer, reg)
    requires IsStop(pause) && IsStart(restart) && IsAddress(readAddress, a, true)
    requires |bytes| == Registers.ValueLength(reg) && CarriesBytes(data, bytes) && IsStop(stop)
    ensures
      var t := Run(s, [start, address, pointer, pause, restart, readAddress] + data + [stop]);
      && t.reports == [Report(ReportKind(true, Registers.IsTemperature(reg)), Some(start.startTime),
                              stop.endTime, Numerals.Decimal(a), Registers.Name(reg),
                              Show(reg, BigEndian(bytes)))]
      && t.final.bytePos == 0
  {
    var s1 := Step(s, start).next;
    var s2 := Step(s1, address).next;
    var s3 := Step(s2, pointer).next;
    assert Step(s3, pause) == Outcome(s3, None);
    var s4 := Step(s3, restart).next;
    var s5 := Step(s4, readAddress).next;
    assert s5 == s.(startOfTransaction := Some(restart.startTime), startOfFrame := Some(start.startTime),
                    forUs := true, i2cAddr := Some(a), read := true,
                    regAddr := reg, regValLen := Registers.ValueLength(reg), bytePos := 1);
    var prefix := [start, address, pointer, pause, restart, readAddress];
    RunAppend(s, prefix, data + [stop]);
    assert prefix + data + [stop] == prefix + (data + [stop]);
    RunCons(s, start, [address, pointer, pause, restart, readAddress]);
    RunCons(s1, address, [pointer, pause, restart, readAddress]);
    RunCons(s2, pointer, [pause, restart, readAddress]);
    RunCons(s3, pause, [restart, readAddress]);
    RunCons(s3, restart, [readAddress]);
    RunCons(s4, readAddress, []);
    assert Run(s, prefix) == Trace(s5, []);
    ValueBytesThenStop(s5, data, bytes, stop);
  }

  /**
   * Writing bytes to a register and reading the same bytes back through the
   * pointer show the same register name and the same value; only the direction
   * of the report differs.
   */
  lemma WriteThenReadBack<Time>(
    s: State<Time>, start: Frame<Time>, address: Frame<Time>, pointer: Frame<Time>,
    data: seq<Frame<Time>>, stop: Frame<Time>,
    s': State<Time>, restart: Frame<Time>, readAddress: Frame<Time>,
    a: Byte, reg: Byte, bytes: seq<Byte>)
    requires s.AddressKnown() && s.bytePos == 0 && s'.AddressKnown() && s'.bytePos == 0
    requires IsStart(start) && IsAddress(address, a, false) && Admits(a) && IsData(pointer, reg)
    requires IsStart(restart) && IsAddress(readAddress, a, true)
    requires |bytes| == Registers.ValueLength(reg) && CarriesBytes(data, bytes) && IsStop(stop)
    ensures
      var w := Run(s, [start, address, pointer] + data + [stop]).reports;
      var r := Run(s', [start, address, pointer, restart, readAddress] + data + [stop]).reports;
      && |w| == 1 && |r| == 1
      && w[0].value == r[0].value && w[0].regName == r[0].regName && w[0].i2cAddr == r[0].i2cAddr
      && !w[0].kind.read && r[0].kind.read && w[0].kind.temperature == r[0].kind.temperature
  {
    WriteAccess(s, start, address, pointer, data, stop, a, reg, bytes);
    PointerThenRepeatedStartRead(s', start, address, pointer, restart, readAddress, data, stop, a, reg, bytes);
  }

  /**
   * ProductID is one byte wide: a write that sends two value bytes to it is not
   * reported, and it leaves the analyzer past the expected count for good.
   */
  lemma ProductIdWithTwoBytesDiscarded<Time>(
    s: State<Time>, start: Frame<Time>, address: Frame<Time>, pointer: Frame<Time>,
    data: seq<Frame<Time>>, stop: Frame<Time>, later: seq<Frame<Time>>, a: Byte, bytes: seq<Byte>)
    requires s.AddressKnown() && s.bytePos == 0
    requires IsStart(start) && IsAddress(address, a, false) && Admits(a) && IsData(pointer, 7)
    requires |bytes| == 2 && CarriesBytes(data, bytes) && IsStop(stop)
    ensures Run(s, [start, address, pointer] + data + [stop] + later).reports == []
  {
    var frames := [start, address, pointer] + data + [stop];
    var s1 := Step(s, start).next;
    var s2 := Step(s1, address).next;
    var s3 := Step(s2, pointer).next;
    var s4 := Step(s3, data[0]).next;
    var s5 := Step(s4, data[1]).next;
    assert s5.bytePos == 3 && s5.regValLen == 1;
    assert Step(s5, stop) == Outcome(s5, None);
    assert frames == [start, address, pointer, data[0], data[1], stop];
    RunCons(s, start, frames[1..]);
    RunCons(s1, address, frames[2..]);
    RunCons(s2, pointer, frames[3..]);
    RunCons(s3, data[0], frames[4..]);
    RunCons(s4, data[1], frames[5..]);
    RunCons(s5, stop, []);
    assert Run(s, frames) == Trace(s5, []);
    RunAppend(s, frames, later);
    OverrunIsPermanent(s5, later);
  }

  /**
   * A plain read of a two-byte register with no pointer write before it: start,
   * read address, two data bytes, stop. A read has no pointer byte, so the two
   * bytes leave the position at 2, one short of the 3 the stop expects: nothing
   * is reported and the position stays at 2.
   */
  lemma PlainReadNotReported<Time>(
    s: State<Time>, start: Frame<Time>, address: Frame<Time>, d0: Frame<Time>, d1: Frame<Time>,
    stop: Frame<Time>, a: Byte, b0: Byte, b1: Byte)
    requires s.AddressKnown() && s.bytePos == 0 && s.regValLen == 2
    requires IsStart(start) && IsAddress(address, a, true) && Admits(a)
    requires IsData(d0, b0) && IsData(d1, b1) && IsStop(stop)
    ensures Run(s, [start, address, d0, d1, stop]).reports == []
    ensures Run(s, [start, address, d0, d1, stop]).final.bytePos == 2
    ensures Run(s, [start, address, d0, d1, stop]).final.regValLen == 2
  {
    var s1 := Step(s, start).next;
    var s2 := Step(s1, address).next;
    var s3 := Step(s2, d0).next;
    var s4 := Step(s3, d1).next;
    assert s4.bytePos == 2 && s4.regValLen == 2 && s4.forUs;
    assert Step(s4, stop) == Outcome(s4, None);
    RunCons(s, start, [address, d0, d1, stop]);
    RunCons(s1, address, [d0, d1, stop]);
    RunCons(s2, d0, [d1, stop]);
    RunCons(s3, d1, [stop]);
    RunCons(s4, stop, []);
  }

  /**
   * A second plain read after the first carries the position to 4, past the 3
   * a two-byte register expects, so nothing after it is ever reported.
   */
  lemma TwoPlainReadsSilence<Time>(
    s: State<Time>, first: seq<Frame<Time>>, second: seq<Frame<Time>>, later: seq<Frame<Time>>,
    a: Byte, bytes: seq<Byte>)
    requires s.AddressKnown() && s.bytePos == 0 && s.regValLen == 2
    requires Admits(a) && |bytes| == 4
    requires |first| == 5 && IsStart(first[0]) && IsAddress(first[1], a, true)
    requires IsData(first[2], bytes[0]) && IsData(first[3], bytes[1]) && IsStop(first[4])
    requires |second| == 5 && IsStart(second[0]) && IsAddress(second[1], a, true)
    requires IsData(second[2], bytes[2]) && IsData(second[3], bytes[3]) && IsStop(second[4])
    ensures Run(s, first + second + later).reports == []
  {
    assert first == [first[0], first[1], first[2], first[3], first[4]];
    assert second == [second[0], second[1], second[2], second[3], second[4]];
    PlainReadNotReported(s, first[0], first[1], first[2], first[3], first[4], a, bytes[0], bytes[1]);
    var m := Run(s, first).final;
    assert m.bytePos == 2 && m.regValLen == 2;
    var s1 := Step(m, second[0]).next;
    var s2 := Step(s1, second[1]).next;
    var s3 := Step(s2, second[2]).next;
    var s4 := Step(s3, second[3]).next;
    assert s4.bytePos == 4 && s4.regValLen == 2;
    assert Step(s4, second[4]) == Outcome(s4, None);
    RunCons(m, second[0], second[1..]);
    RunCons(s1, second[1], second[2..]);
    RunCons(s2, second[2], second[3..]);
    RunCons(s3, second[3], second[4..]);
    RunCons(s4, second[4], []);
    assert Run(m, second) == Trace(s4, []);
    RunAppend(s, first, second);
    RunAppend(s, first + second, later);
    OverrunIsPermanent(s4, later);
  }

  /** The analyzer's state after the opening of a plain read: start, read address, first data byte. */
  function AfterPlainReadOpening<Time>(s: State<Time>, start: Frame<Time>, a: Byte, b0: Byte): State<Time>
  {
    s.(startOfTransaction := Some(start.startTime),
       startOfFrame := if s.bytePos == 0 then Some(start.startTime) else s.startOfFrame,
       forUs := true, i2cAddr := Some(a), read := true, bytePos := 1, regVal := s.regVal + b0)
  }

  /**
   * The opening of a plain read reports nothing. A read has no pointer byte, so the
   * first data byte is added to the old value and the register stays as it was.
   */
  lemma PlainReadOpening<Time>(
    s: State<Time>, start: Frame<Time>, address: Frame<Time>, d0: Frame<Time>, a: Byte, b0: Byte)
    requires s.AddressKnown() && s.bytePos == 0
    requires IsStart(start) && IsAddress(address, a, true) && Admits(a) && IsData(d0, b0)
    ensures Run(s, [start, address, d0]) == Trace(AfterPlainReadOpening(s, start, a, b0), [])
  {
    var s1 := Step(s, start).next;
    var s2 := Step(s1, address).next;
    assert s2.forUs && s2.read && s2.bytePos == 0;
    RunCons(s, start, [address, d0]);
    RunCons(s1, address, [d0]);
    RunCons(s2, d0, []);
  }

  /** A run that opens with a plain read continues from the state the opening leaves. */
  lemma RunAfterPlainReadOpening<Time>(s: State<Time>, frames: seq<Frame<Time>>, a: Byte, b0: Byte)
    requires s.AddressKnown() && s.bytePos == 0
    requires |frames| >= 3 && IsStart(frames[0]) && IsAddress(frames[1], a, true) && Admits(a)
    requires IsData(frames[2], b0)
    ensures AfterPlainReadOpening(s, frames[0], a, b0).AddressKnown()
    ensures Run(s, frames) == Run(AfterPlainReadOpening(s, frames[0], a, b0), frames[3..])
  {
    var prefix := frames[..3];
    assert prefix == [frames[0], frames[1], frames[2]];
    PlainReadOpening(s, frames[0], frames[1], frames[2], a, b0);
    assert frames == prefix + frames[3..];
    RunAppend(s, prefix, frames[3..]);
  }

  /**
   * A plain read of two bytes while a one-byte register is selected IS reported:
   * the first byte is added to the old value at position 0, the second overwrites
   * it at position 1, and the stop finds the 2 bytes it expects. The report shows
   * the second byte only. The frames are start, read address, two data bytes and
   * a stop.
   */
  lemma PlainReadOfByteRegister<Time>(s: State<Time>, frames: seq<Frame<Time>>, a: Byte, b0: Byte, b1: Byte)
    requires s.AddressKnown() && s.bytePos == 0 && s.regValLen == 1
    requires |frames| == 5 && IsStart(frames[0]) && IsAddress(frames[1], a, true) && Admits(a)
    requires IsData(frames[2], b0) && IsData(frames[3], b1) && IsStop(frames[4])
    ensures
      var t := Run(s, frames);
      && |t.reports| == 1
      && t.reports[0].kind.read
      && t.reports[0].regName == Registers.Name(s.regAddr)
      && t.reports[0].value == Show(s.regAddr, b1)
      && t.final.bytePos == 0
  {
    RunAfterPlainReadOpening(s, frames, a, b0);
    assert frames[3..] == [frames[3], frames[4]];
    OneValueByteShown(AfterPlainReadOpening(s, frames[0], a, b0), frames[3], b1, frames[4]);
  }

  /**
   * A plain read of three bytes while a two-byte register is selected IS reported:
   * the first byte is lost to the overwrite at position 1, and the report shows the
   * second and third bytes as the register's big-endian value. The frames are
   * start, read address, three data bytes and a stop.
   */
  lemma PlainThreeByteRead<Time>(s: State<Time>, frames: seq<Frame<Time>>, a: Byte, b0: Byte, b1: Byte, b2: Byte)
    requires s.AddressKnown() && s.bytePos == 0 && s.regValLen == 2
    requires |frames| == 6 && IsStart(frames[0]) && IsAddress(frames[1], a, true) && Admits(a)
    requires IsData(frames[2], b0) && IsData(frames[3], b1) && IsData(frames[4], b2) && IsStop(frames[5])
    ensures
      var t := Run(s, frames);
      && |t.reports| == 1
      && t.reports[0].kind.read
      && t.reports[0].regName == Registers.Name(s.regAddr)
      && t.reports[0].value == Show(s.regAddr, BigEndian([b1, b2]))
      && t.final.bytePos == 0
  {
    RunAfterPlainReadOpening(s, frames, a, b0);
    assert frames[3..] == [frames[3], frames[4], frames[5]];
    TwoValueBytesShown(AfterPlainReadOpening(s, frames[0], a, b0), frames[3], frames[4], b1, b2, frames[5]);
  }

  /** Writing 0x60 to Configuration is reported as `write_register` with value `0x60`. */
  lemma ConfigurationWriteExample<Time>(
    s: State<Time>, start: Frame<Time>, address: Frame<Time>, pointer: Frame<Time>,
    value: Frame<Time>, stop: Frame<Time>)
    requires s.AddressKnown() && s.bytePos == 0
    requires IsStart(start) && IsAddress(address, 0x48, false) && IsData(pointer, 1)
    requires IsData(value, 0x60) && IsStop(stop)
    ensures
      var r := Run(s, [start, address, pointer] + [value] + [stop]).reports;
      && |r| == 1 && r[0].kind.Name() == "write_register" && r[0].i2cAddr == "72"
      && r[0].regName == "Configuration" && r[0].value == HexText("0x60")
  {
    assert CarriesBytes([value], [0x60]);
    assert BigEndian([0x60]) == 0x60 by {
      assert [0x60][..0] == [];
    }
    HexOf0x60();
    DecimalOf0x48();
    assert !Registers.IsTemperature(1) && Registers.Name(1) == "Configuration";
    assert Show(1, 0x60) == HexText("0x60");
    assert ReportKind(false, false).Name() == "write_register";
    WriteAccess(s, start, address, pointer, [value], stop, 0x48, 1, [0x60]);
  }

  lemma HexOf0x60()
    ensures Numerals.Hex(0x60) == "60"
  {
    assert Numerals.Render(0x60 / 16, 16) == "6";
  }

  lemma DecimalOf0x48()
    ensures Numerals.Decimal(0x48) == "72"
  {
    assert Numerals.Render(0x48 / 10, 10) == "7";
  }
}
