# LM75 I2C high level analyzer, modelled in Dafny

The repository is a Saleae Logic high level analyzer for the LM75 family of I2C
temperature sensors. The upstream I2C analyzer turns the bus into frames
(start, address, data byte, stop, any of them possibly flagged as an error). The
analyzer `Hla.decode` consumes one frame at a time. It reports a register read or
write, with the register's name and its value, on the stop that closes the access.

This project models that decoder as a pure function
`Analyzer.Step(state, frame) -> Outcome(next, report?)` over an immutable state
record, with `Analyzer.Run` folding it over a sequence of frames. Alongside it are
the register catalog (`Registers`), the temperature word as the analyzer reads it
(`TemperatureWord`), and the number renderings the reports use (`Numerals`).
The lemmas in `AnalyzerProofs` prove:

- an invariant that every reachable state keeps;
- which frames are ignored;
- the reports that the usual transactions produce: a write; a read through the
  register pointer with a repeated start; the same read with a stop after the
  pointer byte.

Files:

- `optional.dfy`: `Option`, standing for Python's `None`.
- `bytes.dfy`: bytes, and the big-endian value of a run of bytes.
- `numerals.dfy`: decimal and upper-case hex numerals, with their parser.
- `temperature.dfy`: the temperature word.
- `registers.dfy`: the register catalog.
- `analyzer.dfy`: frames, state, `Step` and `Run`.
- `analyzer_proofs.dfy`: the lemmas.

The model follows the code as written, including four behaviours worth knowing:

- A stop whose byte count is not the register's width plus one changes nothing.
  The test at line 84 has no `else`, so the byte position is left as it is. This
  is why a pointer write closed by a stop still merges with the read that follows
  (`AnalyzerProofs.PointerStopThenRead`). It also means that once the byte
  position has passed the register's width plus one, as it does after a write
  with too many value bytes, the analyzer never reports again
  (`AnalyzerProofs.OverrunIsPermanent`).
- For the same reason, a stop moves the frame start to the transaction start
  only when a report is emitted (line 97), not when an incomplete access is
  closed. A start frame at position 0 also sets the frame start (line 56).
- A read's data byte at position 0 is added to the value left over from before
  (line 79), and a rejected address returns before the read flag is updated
  (lines 62-64).
- A read has no pointer byte, so a plain read with no pointer write before it is
  counted against whatever register was selected last. While a two-byte register
  is selected, a plain read of two bytes (start, read address, two data bytes,
  stop) is not reported: the bytes leave the position at 2 and the stop expects
  3. The position stays at 2, so a second such read carries it to 4, and from
  then on nothing is reported (`AnalyzerProofs.PlainReadNotReported`,
  `AnalyzerProofs.TwoPlainReadsSilence`). Two other plain reads are reported,
  with the first byte lost: the first byte is added to the old value at line 79
  and then overwritten at line 75 or 77. A two-byte plain read while a one-byte
  register (Configuration or ProductID) is selected reports the second byte
  (`AnalyzerProofs.PlainReadOfByteRegister`). A three-byte plain read while a
  two-byte register is selected reports the last two bytes as its value
  (`AnalyzerProofs.PlainThreeByteRead`). In both cases the position returns to 0.

The analyzer reads a temperature word as sign and magnitude (lines 90-92): bit 15
is the sign, and bits 14-7 count half degrees. For 0x1900 that gives 50 half
degrees, 25.0 °C. The LM75 itself sends a 9-bit two's complement value in bits
15-7. The two readings agree on every word with bit 15 clear. With bit 15 set
they agree only at -64.0 °C (magnitude 128 half degrees). For example, the
sensor's word for -25 °C is 0xE700, which the analyzer shows as -103.0 °C. `TemperatureWord.SensorHalfDegrees` states the
sensor's reading, and `AgreesWithSensorWhenNonNegative`,
`DiffersFromSensorWhenNegative` and `MinusTwentyFive` compare the two. The rest of
the model keeps the analyzer's reading, since that is what it reports.

`Step` is a function, so two analyzers fed the same frames produce the same
reports. Times are a type parameter: the analyzer only copies them. Python's `None` for
"no start seen yet" is `Option.None`.

## Model

| member | source | states |
|---|---|---|
| `Bytes.BigEndian` | HighLevelAnalyzer.py:73-79 | the most-significant-first value of k bytes is below 256^k |
| `Numerals.Decimal` | HighLevelAnalyzer.py:99 | the device address text is a decimal numeral without leading zeros that parses back to the address |
| `Numerals.Hex` | HighLevelAnalyzer.py:101 | a raw value's text after `0x` is an upper-case hex numeral without leading zeros that parses back to the value |
| `Numerals.Hex2` | HighLevelAnalyzer.py:19 | `{:02X}` of a byte is exactly two upper-case hex digits that parse back to the byte |
| `Numerals.RenderRoundTrip` | HighLevelAnalyzer.py:101 | parsing the rendered numeral of any n gives n back |
| `Numerals.ParseRoundTrip` | HighLevelAnalyzer.py:101 | rendering the value of a numeral without leading zeros gives that numeral back |
| `Numerals.RenderInjective` | HighLevelAnalyzer.py:101 | distinct values never share a rendered numeral |
| `Registers.Name` | HighLevelAnalyzer.py:6-19 | catalogued registers 0, 1, 2, 3, 7 get their catalog name; any other gets `0x` plus two hex digits denoting the address |
| `Registers.NameInjective` | HighLevelAnalyzer.py:6-19 | no two register addresses share a display name |
| `Registers.ValueLength` | HighLevelAnalyzer.py:71 | a register's value is 1 byte iff it is register 1 or 7, otherwise 2 bytes |
| `Registers.IsTemperature` | HighLevelAnalyzer.py:88 | a register is a temperature register iff it is catalogued as Temperature, Thyst or Tos |
| `Registers.TemperatureRegistersAreWords` | HighLevelAnalyzer.py:88 | the temperature registers 0, 2, 3 are catalogued and 2 bytes wide |
| `TemperatureWord.Decode` | HighLevelAnalyzer.py:90-92 | the decoded magnitude is at most 255 half degrees |
| `TemperatureWord.DecodeMatchesBitwise` | HighLevelAnalyzer.py:90-91 | on every 16-bit word, the decoding equals `(v & 0x7fff) >> 7` half degrees, negative iff `v & 0x8000` is non-zero |
| `TemperatureWord.DecodeEncode` | HighLevelAnalyzer.py:90-92 | decoding the sign-and-magnitude word for any sign and magnitude of at most 255 half degrees recovers them, including negative zero |
| `TemperatureWord.EncodeDecode` | HighLevelAnalyzer.py:90-92 | decoding a 16-bit word loses exactly its seven low bits |
| `TemperatureWord.CodeReadings` | HighLevelAnalyzer.py:90-92 | 0x1900 is +50 half degrees (25.0 °C), 0x9900 is -50, 0x8000 is negative zero, 0x0080 is +1 |
| `TemperatureWord.SensorHalfDegrees` | HighLevelAnalyzer.py:90-92 | the LM75's own two's complement reading of a word, the reference the analyzer's reading is compared with: within -256..255 half degrees, negative iff bit 15 is set |
| `TemperatureWord.AgreesWithSensorWhenNonNegative` | HighLevelAnalyzer.py:90-92 | on words with bit 15 clear, the analyzer's reading is non-negative and equals the sensor's |
| `TemperatureWord.DiffersFromSensorWhenNegative` | HighLevelAnalyzer.py:90-92 | on words with bit 15 set, the analyzer's magnitude is the sensor's value plus 256 half degrees, and the two agree only at magnitude 128 |
| `TemperatureWord.MinusTwentyFive` | HighLevelAnalyzer.py:90-92 | the sensor's -25 °C word 0xE700 is -50 half degrees to the sensor and negative 206 half degrees to the analyzer |
| `Analyzer.ReportKind.Name` | HighLevelAnalyzer.py:85-93 | the report kind's name is one of the four declared result types; it starts with `r` iff a read and ends in `_temp` iff a temperature |
| `Analyzer.KindNames` | HighLevelAnalyzer.py:85-93 | distinct report kinds have distinct names |
| `Analyzer.Show` | HighLevelAnalyzer.py:88-101 | temperature registers show a decoded temperature; others show `0x` and a hex numeral without leading zeros that parses back to the raw value |
| `Analyzer.Absorb` | HighLevelAnalyzer.py:68-80 | a data byte advances the position by one; a write's byte at position 0 selects the register and its width; position 1 starts the value (shifted by 8 when 2 bytes wide); later bytes, and a read's byte at position 0, are added; nothing else changes |
| `Analyzer.Emit` | HighLevelAnalyzer.py:85-102 | a report carries the read flag, the temperature suffix iff the register is 0, 2 or 3, the frame start, the stop's end time, the unpadded decimal device address, the register name and the shown value |
| `Analyzer.Step` | HighLevelAnalyzer.py:50-102 | error frames, and data or stops while not addressed, change nothing; a report comes iff a stop closes an addressed access with width + 1 bytes, and then the position resets and the frame start takes the transaction start; a mismatched stop changes nothing; a start always sets the transaction start and sets the frame start only at position 0; an address is taken iff admitted and a rejected one leaves the read flag |
| `Analyzer.Run` | HighLevelAnalyzer.py:81-84 | a run never reports more often than it sees clean stop frames |
| `Analyzer.Admits` | HighLevelAnalyzer.py:58 | `a & 0x78 == 0x48` holds exactly for bytes 0x48..0x4F and 0xC8..0xCF |
| `AnalyzerProofs.AdmitsSevenBit` | HighLevelAnalyzer.py:58 | on 7-bit addresses the filter takes exactly 0x48..0x4F |
| `Analyzer.Init` | HighLevelAnalyzer.py:39-48 | the analyzer starts at position 0, not addressed, with no start time, and expecting the width of its initial register |
| `AnalyzerProofs.InitConsistent` | HighLevelAnalyzer.py:39-48 | the initial analyzer is at position 0, not addressed, expecting a 2-byte register, and satisfies the invariant |
| `AnalyzerProofs.StepKeepsConsistent` | HighLevelAnalyzer.py:69-80 | one frame preserves the invariant: the width matches the register, and the partial value fits the bytes seen |
| `AnalyzerProofs.RunKeepsConsistent` | HighLevelAnalyzer.py:50-102 | any run of frames preserves the invariant |
| `AnalyzerProofs.EmittedValueFits` | HighLevelAnalyzer.py:73-84 | when a report is emitted, the raw value is below 256^width |
| `AnalyzerProofs.EmitFits` | HighLevelAnalyzer.py:84-101 | an emitted report's hex value is below 256 for Configuration and ProductID and below 65536 otherwise |
| `AnalyzerProofs.RunReportsFit` | HighLevelAnalyzer.py:73-101 | every report of a run from a consistent state shows a value that fits its register |
| `AnalyzerProofs.ErrorFramesIgnored` | HighLevelAnalyzer.py:51-52 | removing the error-flagged frames from a run changes neither its reports nor its final state |
| `AnalyzerProofs.ForeignTrafficIgnored` | HighLevelAnalyzer.py:65-83 | while not addressed, data bytes, stops and error frames leave the state as it is and report nothing |
| `AnalyzerProofs.ForeignTransactionIgnored` | HighLevelAnalyzer.py:57-83 | from a rejected address on, the data bytes, stops and error frames of the transaction only clear the listening flag and report nothing |
| `AnalyzerProofs.ForeignTransactionFromStart` | HighLevelAnalyzer.py:53-83 | a whole transaction to another device, from its start frame, reports nothing; it records the start's time as the transaction start (and as the frame start at position 0) and clears the listening flag, and changes nothing else |
| `AnalyzerProofs.OverrunIsPermanent` | HighLevelAnalyzer.py:80-84 | once the position is past width + 1, no report is ever emitted again |
| `AnalyzerProofs.ValueBytesThenStop` | HighLevelAnalyzer.py:73-97 | after the pointer byte, the register's value bytes and a stop yield one report of their big-endian value, and the position returns to 0 |
| `AnalyzerProofs.OneValueByte` | HighLevelAnalyzer.py:73-75 | a 1-byte register's value is the byte at position 1 |
| `AnalyzerProofs.TwoValueBytes` | HighLevelAnalyzer.py:76-79 | a 2-byte register's value is `(byte1 << 8) + byte2` |
| `AnalyzerProofs.WriteAccess` | HighLevelAnalyzer.py:53-102 | start, write address, pointer, value bytes, stop: one write report with the start frame's time, the stop's end, and the big-endian value |
| `AnalyzerProofs.PointerThenRepeatedStartRead` | HighLevelAnalyzer.py:53-98 | a pointer write then a repeated start and a read: one read report whose start is the first start frame; the next frame start is the repeated start |
| `AnalyzerProofs.PointerStopThenRead` | HighLevelAnalyzer.py:81-98 | a pointer write closed by a stop, then a read: still one read report starting at the first start frame |
| `AnalyzerProofs.WriteThenReadBack` | HighLevelAnalyzer.py:69-101 | writing bytes and reading the same bytes back show the same name, address and value, differing only in direction |
| `AnalyzerProofs.ProductIdWithTwoBytesDiscarded` | HighLevelAnalyzer.py:71-84 | two value bytes to ProductID are not reported, and nothing after them ever is |
| `AnalyzerProofs.PlainReadNotReported` | HighLevelAnalyzer.py:69-84 | a plain read of a 2-byte register with no pointer write reports nothing and leaves the position at 2 |
| `AnalyzerProofs.TwoPlainReadsSilence` | HighLevelAnalyzer.py:69-84 | after two plain reads of a 2-byte register nothing is ever reported |
| `AnalyzerProofs.PlainReadOfByteRegister` | HighLevelAnalyzer.py:69-98 | a two-byte plain read while a 1-byte register is selected is reported as a read of that register showing the second byte, and the position returns to 0 |
| `AnalyzerProofs.PlainThreeByteRead` | HighLevelAnalyzer.py:69-98 | a three-byte plain read while a 2-byte register is selected is reported as a read of that register showing the last two bytes big-endian, and the position returns to 0 |
| `AnalyzerProofs.ConfigurationWriteExample` | HighLevelAnalyzer.py:98-101 | writing 0x60 to Configuration at 0x48 reports `write_register`, address `72`, `Configuration`, `0x60` |

## Left out

- The Saleae classes `HighLevelAnalyzer`, `AnalyzerFrame` and `NumberSetting` are
  foreign library types. They are replaced by the `Frame`, `Report` and `State`
  datatypes. The `error` key of a frame's data is the `error` flag.
- The upstream I2C analyzer emits only start, address, data and stop frames, so
  only those are modelled. A frame of any other type falls through the code's
  `if`/`elif` chain and changes nothing.
- The float conversion and its `{value:10.1f}` rendering (line 101) are
  floating-point formatting. A temperature is a sign and a count of half degrees
  instead, which keeps the negative zero of 0x8000 visible.
- The `result_types` display templates (lines 24-37) are strings for the host
  application's UI. Only their four names are modelled (`Analyzer.ReportKind.Name`).
- Timestamps are only copied, never computed with, so they are a type parameter.
- `_end_of_frame` (line 43) is set and never read, so it is not modelled.
- The analyzer does not set `_i2c_addr` in `__init__`, so a report before any
  admitted address would raise `AttributeError`. That cannot happen, because a
  report needs the listening flag and only an admitted address sets it.
  `Analyzer.Step` therefore requires `AddressKnown` (listening implies a known
  address). The initial state satisfies it and every step preserves it.
- Python integers are unbounded, and the code never masks the accumulated value.
  The model uses `nat` with no wrap-around, which is what the code does.
- `AnalyzerProofs.WriteAccess`, `PointerThenRepeatedStartRead` and
  `PointerStopThenRead` are stated from a state at position 0, where a new
  transaction begins. From other positions the code's behaviour is what `Step`
  states frame by frame.
