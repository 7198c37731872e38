/**
 * The analyzer's reading of a temperature register word. The analyzer takes bit 15
 * as a sign and bits 14..7 as a count of half degrees Celsius, ignoring bits 6..0:
 * a sign-and-magnitude reading. The LM75 itself sends bits 15..7 as a 9-bit two's
 * complement count of half degrees (`SensorHalfDegrees`); the two readings agree
 * on non-negative temperatures and, of the negative ones, only at -64 °C.
 */
module TemperatureWord {

  /** A decoded temperature: -(halfDegrees / 2) °C when negative, +(halfDegrees / 2) °C otherwise. */
  datatype Celsius = Celsius(negative: bool, halfDegrees: nat)

  /** A reading the analyzer can produce from a 16-bit word: at most 255 half degrees. */
  predicate Representable(c: Celsius)
  {
    c.halfDegrees < 256
  }

  /**
   * The analyzer's decoding of a raw register value v: magnitude `(v & 0x7fff) >> 7`,
   * negated when `v & 0x8000` is non-zero. On the non-negative integers the analyzer
   * sees, masking with 0x7fff is `% 0x8000`, shifting right by 7 is `/ 0x80`, and
   * testing bit 15 is `(v / 0x8000) % 2`.
   */
  function Decode(raw: nat): (c: Celsius)
    ensures Representable(c)
  {
    Celsius((raw / 0x8000) % 2 == 1, (raw % 0x8000) / 0x80)
  }

  /** The sign-and-magnitude word the analyzer reads as the given reading (low seven bits clear). */
  function Encode(c: Celsius): (raw: nat)
    requires Representable(c)
    ensures raw < 0x10000 && raw % 0x80 == 0
  {
    (if c.negative then 0x8000 else 0) + c.halfDegrees * 0x80
  }

  /** Decoding recovers every representable reading from its register word. */
  lemma DecodeEncode(c: Celsius)
    requires Representable(c)
    ensures Decode(Encode(c)) == c
  {
    var m := c.halfDegrees * 0x80;
    assert m < 0x8000;
    var raw := Encode(c);
    assert raw % 0x8000 == m;
    assert raw / 0x8000 == if c.negative then 1 else 0;
  }

  /**
   * Decoding a 16-bit word keeps everything except the seven unused low bits:
   * re-encoding the decoded reading gives back the word with those bits cleared.
   */
  lemma EncodeDecode(raw: nat)
    requires raw < 0x10000
    ensures Encode(Decode(raw)) == raw - raw % 0x80
  {
    var sign := raw / 0x8000;
    var rest := raw % 0x8000;
    assert raw == sign * 0x8000 + rest;
    assert rest == (rest / 0x80) * 0x80 + rest % 0x80;
    assert raw % 0x80 == rest % 0x80;
  }

  /**
   * The arithmetic Decode agrees with the bitwise expression the analyzer evaluates,
   * `(v & 0x7fff) >> 7` and `v & 0x8000 > 0`, on every 16-bit word.
   */
  lemma DecodeMatchesBitwise(w: bv16)
    ensures Decode(w as int) == Celsius(w & 0x8000 != 0, ((w & 0x7FFF) >> 7) as int)
  {
    var raw := w as int;
    var low := w & 0x7FFF;
    WordFacts(w, raw, low as int, (low >> 7) as int);
    DecodeFromParts(raw, low as int, (low >> 7) as int, w & 0x8000 != 0);
  }

  /** What the bit operations on a 16-bit word mean for its integer value. */
  lemma WordFacts(w: bv16, raw: int, low: int, shifted: int)
    requires raw == w as int && low == (w & 0x7FFF) as int && shifted == ((w & 0x7FFF) >> 7) as int
    ensures 0 <= raw < 0x10000
    ensures low == if raw >= 0x8000 then raw - 0x8000 else raw
    ensures shifted == low / 0x80
    ensures w & 0x8000 != 0 <==> raw >= 0x8000
  {
    WordRange(w);
    SignBitIsTopHalf(w);
    ShiftIsDivision(w & 0x7FFF);
    if raw >= 0x8000 {
      ClearSignBit(w);
    } else {
      KeepLowWord(w);
    }
  }

  /** Decode in terms of the word with bit 15 masked off and of that word shifted right by 7. */
  lemma DecodeFromParts(raw: int, low: int, shifted: int, sign: bool)
    requires 0 <= raw < 0x10000
    requires low == if raw >= 0x8000 then raw - 0x8000 else raw
    requires shifted == low / 0x80
    requires sign <==> raw >= 0x8000
    ensures Decode(raw) == Celsius(sign, shifted)
  {
  }

  lemma WordRange(w: bv16)
    ensures 0 <= w as int < 0x10000
  {
  }

  lemma ShiftIsDivision(w: bv16)
    ensures (w >> 7) as int == (w as int) / 0x80
  {
  }

  lemma SignBitIsTopHalf(w: bv16)
    ensures w & 0x8000 != 0 <==> w as int >= 0x8000
  {
  }

  /** Masking off bit 15 of a word that has it set subtracts 0x8000. */
  lemma ClearSignBit(w: bv16)
    requires w as int >= 0x8000
    ensures (w & 0x7FFF) as int == (w as int) - 0x8000
  {
    assert w & 0x7FFF == w - 0x8000;
  }

  /** Masking off bit 15 of a word that has it clear changes nothing. */
  lemma KeepLowWord(w: bv16)
    requires w as int < 0x8000
    ensures (w & 0x7FFF) as int == w as int
  {
    assert w < 0x8000;
    assert w & 0x7FFF == w;
  }

  /**
   * Readings the analyzer's arithmetic gives: 0x1900 is 50 half degrees (25.0 °C),
   * 0x9900 is minus 50 half degrees, 0x8000 is a negative zero, 0x0080 is half a degree.
   */
  lemma CodeReadings()
    ensures Decode(0x1900) == Celsius(false, 50)
    ensures Decode(0x9900) == Celsius(true, 50)
    ensures Decode(0x8000) == Celsius(true, 0)
    ensures Decode(0x0080) == Celsius(false, 1)
  {
    assert 0x1900 / 0x8000 == 0 && 0x1900 % 0x8000 == 0x1900 && 0x1900 / 0x80 == 50;
    assert 0x9900 / 0x8000 == 1 && 0x9900 % 0x8000 == 0x1900;
    assert 0x8000 / 0x8000 == 1 && 0x8000 % 0x8000 == 0;
  }

  /**
   * The sensor's own meaning of a 16-bit temperature word: bits 15..7 as a 9-bit
   * two's complement count of half degrees Celsius.
   */
  function SensorHalfDegrees(w: nat): (h: int)
    requires w < 0x10000
    ensures -256 <= h < 256
    ensures h < 0 <==> w >= 0x8000
  {
    var t := w / 0x80;
    if t >= 256 then t - 512 else t
  }

  /** With bit 15 clear, the analyzer's reading is the sensor's temperature. */
  lemma AgreesWithSensorWhenNonNegative(w: nat)
    requires w < 0x8000
    ensures !Decode(w).negative && Decode(w).halfDegrees == SensorHalfDegrees(w)
  {
  }

  /**
   * With bit 15 set, the analyzer reports minus h half degrees where the sensor
   * means minus (256 - h): the two agree only for h == 128, that is -64 °C.
   */
  lemma DiffersFromSensorWhenNegative(w: nat)
    requires 0x8000 <= w < 0x10000
    ensures Decode(w).negative
    ensures SensorHalfDegrees(w) == Decode(w).halfDegrees - 256
    ensures -SensorHalfDegrees(w) == Decode(w).halfDegrees <==> Decode(w).halfDegrees == 128
  {
    assert (w % 0x8000) == w - 0x8000;
    assert (w - 0x8000) / 0x80 == w / 0x80 - 256;
  }

  /** The sensor sends -25 °C as 0xE700; the analyzer reads that word as -103 °C. */
  lemma MinusTwentyFive()
    ensures SensorHalfDegrees(0xE700) == -50
    ensures Decode(0xE700) == Celsius(true, 206)
  {
    assert 0xE700 / 0x80 == 462;
    assert 0xE700 / 0x8000 == 1 && 0xE700 % 0x8000 == 0x6700 && 0x6700 / 0x80 == 206;
  }
}
