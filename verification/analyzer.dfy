/**
 * The LM75 high level analyzer: a state machine fed one decoded I2C frame at a
 * time (start, address, data byte, stop) that reports a completed register read
 * or write on the stop that closes it.
 *
 * Times are a type parameter: the analyzer only copies them from frames into
 * reports and never computes with them.
 */
module Analyzer {

  import opened Optional
  import opened Bytes
  import Numerals
  import Registers
  import TemperatureWord

  /** The I2C primitive a frame carries. */
  datatype Event = Start | Address(address: Byte, read: bool) | Data(data: Byte) | Stop

  /** One frame from the I2C byte decoder; `error` stands for an `error` key in the frame's data. */
  datatype Frame<Time> = Frame(event: Event, startTime: Time, endTime: Time, error: bool)

  /** The kind of a report, rendered as one of the analyzer's four result type names. */
  datatype ReportKind = ReportKind(read: bool, temperature: bool) {
    /** The result type name: `read_register` or `write_register`, with `_temp` for temperature registers. */
    function Name(): (n: string)
      ensures n in ResultTypes
      ensures read <==> n[0] == 'r'
      ensures temperature <==> |n| >= 5 && n[|n| - 5..] == "_temp"
    {
      if read then (if temperature then "read_register_temp" else "read_register")
      else (if temperature then "write_register_temp" else "write_register")
    }
  }

  /** The result types the analyzer declares. */
  const ResultTypes: set<string> :=
    {"read_register", "read_register_temp", "write_register", "write_register_temp"}

  /** No two report kinds share a result type name. */
  lemma KindNames(k: ReportKind, k': ReportKind)
    ensures k.Name() == k'.Name() ==> k == k'
  {
  }

  /** A register value as shown: a temperature for the temperature registers, else `0x` and hex digits. */
  datatype Reading = Degrees(celsius: TemperatureWord.Celsius) | HexText(text: string)

  /** A completed register access. `start` is absent when no start frame was ever seen. */
  datatype Report<Time> = Report(
    kind: ReportKind,
    start: Option<Time>,
    end: Time,
    i2cAddr: string,
    regName: string,
    value: Reading)

  /**
   * The analyzer's fields. `i2cAddr` is absent until the first admitted address:
   * the analyzer does not set it when it is created.
   */
  datatype State<Time> = State(
    bytePos: nat,
    startOfTransaction: Option<Time>,
    startOfFrame: Option<Time>,
    read: bool,
    forUs: bool,
    i2cAddr: Option<Byte>,
    regAddr: Byte,
    regValLen: nat,
    regVal: nat)
  {
    /** While the analyzer listens to a transaction, it knows the device address to report. */
    predicate AddressKnown()
    {
      forUs ==> i2cAddr.Some?
    }
  }

  /** The analyzer as created: nothing seen, expecting a two-byte register. */
  function Init<Time>(): (s: State<Time>)
    ensures s.AddressKnown() && !s.forUs && s.bytePos == 0
    ensures s.regValLen == Registers.ValueLength(s.regAddr)
    ensures s.startOfTransaction.None? && s.startOfFrame.None?
  {
    State(0, None, None, false, false, None, 0, 2, 0)
  }

  /** The LM75 family answers on 7-bit addresses 1001xxx: bits 6..3 of the address are 1001. */
  predicate Admits(address: Byte): (ok: bool)
    ensures ok <==> 0x48 <= address <= 0x4F || 0xC8 <= address <= 0xCF
  {
    (address as bv8) & 0x78 == 0x48
  }

  /** The new state and the report, if any, after one frame. */
  datatype Outcome<Time> = Outcome(next: State<Time>, report: Option<Report<Time>>)

  /**
   * A data byte of a transaction addressed to the sensor. In a write, the byte at
   * position 0 selects the register; every other byte belongs to the value: the
   * byte at position 1 starts it (as its high byte when the register is two bytes
   * wide) and any later byte, or a read's byte at position 0, is added to it.
   */
  function Absorb<Time>(s: State<Time>, raw: Byte): (s': State<Time>)
    ensures s'.bytePos == s.bytePos + 1
    ensures s' == s.(bytePos := s'.bytePos, regAddr := s'.regAddr, regValLen := s'.regValLen, regVal := s'.regVal)
    ensures !s.read && s.bytePos == 0 ==>
      s'.regAddr == raw && s'.regValLen == Registers.ValueLength(raw) && s'.regVal == s.regVal
    ensures s.read || s.bytePos != 0 ==> s'.regAddr == s.regAddr && s'.regValLen == s.regValLen
    ensures s.bytePos == 1 && s.regValLen == 1 ==> s'.regVal == raw
    ensures s.bytePos == 1 && s.regValLen != 1 ==> s'.regVal == raw * 256
    ensures s.bytePos >= 2 || (s.read && s.bytePos == 0) ==> s'.regVal == s.regVal + raw
  {
    if !s.read && s.bytePos == 0 then
      s.(regAddr := raw, regValLen := Registers.ValueLength(raw), bytePos := 1)
    else if s.bytePos == 1 then
      s.(regVal := if s.regValLen == 1 then raw else raw * 256, bytePos := 2)
    else
      s.(regVal := s.regVal + raw, bytePos := s.bytePos + 1)
  }

  /**
   * How a register value is shown: a decoded temperature for the temperature
   * registers, otherwise `0x` followed by upper-case hex digits without padding.
   */
  function Show(reg: Byte, v: nat): (shown: Reading)
    ensures shown.Degrees? <==> Registers.IsTemperature(reg)
    ensures shown.Degrees? ==> shown.celsius == TemperatureWord.Decode(v)
    ensures shown.HexText? ==>
      && |shown.text| > 2 && shown.text[..2] == "0x"
      && Numerals.IsNumeral(shown.text[2..], 16)
      && Numerals.ValueOf(shown.text[2..], 16) == v
      && (shown.text[2] != '0' || |shown.text| == 3)
  {
    if Registers.IsTemperature(reg) then Degrees(TemperatureWord.Decode(v))
    else
      var text := "0x" + Numerals.Hex(v);
      assert text[2..] == Numerals.Hex(v);
      HexText(text)
  }

  /** The report for the access the state holds, closed by a stop ending at `end`. */
  function Emit<Time>(s: State<Time>, end: Time): (r: Report<Time>)
    requires s.i2cAddr.Some?
    ensures r.start == s.startOfFrame && r.end == end
    ensures r.kind.read == s.read
    ensures r.kind.temperature <==> Registers.IsTemperature(s.regAddr)
    ensures Numerals.IsNumeral(r.i2cAddr, 10) && Numerals.ValueOf(r.i2cAddr, 10) == s.i2cAddr.value
    ensures r.i2cAddr[0] != '0' || |r.i2cAddr| == 1
    ensures r.regName == Registers.Name(s.regAddr)
    ensures r.value == Show(s.regAddr, s.regVal)
  {
    Report(
      ReportKind(s.read, Registers.IsTemperature(s.regAddr)),
      s.startOfFrame,
      end,
      Numerals.Decimal(s.i2cAddr.value),
      Registers.Name(s.regAddr),
      Show(s.regAddr, s.regVal))
  }

  /** The analyzer's response to one frame. */
  function Step<Time>(s: State<Time>, f: Frame<Time>): (o: Outcome<Time>)
    requires s.AddressKnown()
    ensures o.next.AddressKnown()
    // error frames, and data and stops of another device's transaction, are ignored
    ensures f.error ==> o == Outcome(s, None)
    ensures !s.forUs && (f.event.Data? || f.event.Stop?) ==> o == Outcome(s, None)
    // a report comes only from a stop that closes an access with the expected byte count
    ensures o.report.Some? <==> !f.error && f.event.Stop? && s.forUs && s.bytePos == s.regValLen + 1
    ensures o.report.Some? ==>
      && o.report.value == Emit(s, f.endTime)
      && o.next == s.(bytePos := 0, startOfFrame := s.startOfTransaction)
    ensures !f.error && f.event.Stop? && s.bytePos != s.regValLen + 1 ==> o == Outcome(s, None)
    // a start always opens a transaction, and opens a frame only when no access is pending
    ensures !f.error && f.event.Start? ==>
      && o.report.None?
      && o.next.startOfTransaction == Some(f.startTime)
      && o.next.startOfFrame == (if s.bytePos == 0 then Some(f.startTime) else s.startOfFrame)
      && o.next.(startOfTransaction := s.startOfTransaction, startOfFrame := s.startOfFrame) == s
    // an address is taken iff it is an LM75 address; a rejected one leaves the read flag alone
    ensures !f.error && f.event.Address? ==>
      && o.report.None?
      && (o.next.forUs <==> Admits(f.event.address))
      && (Admits(f.event.address) ==>
            o.next == s.(forUs := true, i2cAddr := Some(f.event.address), read := f.event.read))
      && (!Admits(f.event.address) ==> o.next == s.(forUs := false))
    // a data byte for the sensor advances the position by one
    ensures !f.error && f.event.Data? && s.forUs ==>
      o.report.None? && o.next == Absorb(s, f.event.data)
  {
    if f.error then Outcome(s, None)
    else
      match f.event
      case Start =>
        var t := Some(f.startTime);
        Outcome(s.(startOfTransaction := t, startOfFrame := if s.bytePos == 0 then t else s.startOfFrame), None)
      case Address(address, read) =>
        if Admits(address) then
          Outcome(s.(i2cAddr := Some(address), forUs := true, read := read), None)
        else
          Outcome(s.(forUs := false), None)
      case Data(raw) =>
        if !s.forUs then Outcome(s, None)
        else Outcome(Absorb(s, raw), None)
      case Stop =>
        if !s.forUs then Outcome(s, None)
        else if s.bytePos == s.regValLen + 1 then
          Outcome(s.(bytePos := 0, startOfFrame := s.startOfTransaction), Some(Emit(s, f.endTime)))
        else
          Outcome(s, None)
  }

  /** The number of frames that are stops without an error flag. */
  function StopCount<Time>(frames: seq<Frame<Time>>): nat
  {
    if |frames| == 0 then 0
    else (if !frames[0].error && frames[0].event.Stop? then 1 else 0) + StopCount(frames[1..])
  }

  /** The final state and the reports, in order, after a run of frames. */
  datatype Trace<Time> = Trace(final: State<Time>, reports: seq<Report<Time>>)

  /** The analyzer fed the frames one after the other. */
  function Run<Time>(s: State<Time>, frames: seq<Frame<Time>>): (t: Trace<Time>)
    requires s.AddressKnown()
    ensures t.final.AddressKnown()
    ensures |t.reports| <= StopCount(frames)
    decreases |frames|
  {
    if |frames| == 0 then Trace(s, [])
    else
      var o := Step(s, frames[0]);
      var rest := Run(o.next, frames[1..]);
      Trace(rest.final, (if o.report.Some? then [o.report.value] else []) + rest.reports)
  }
}
