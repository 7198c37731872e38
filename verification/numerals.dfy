/**
 * Unsigned numerals in upper-case digits, as Python's `f"{n}"`, `f"{n:X}"` and
 * `f"{n:02X}"` render a non-negative integer, together with the parser that
 * reads them back.
 */
module Numerals {

  type Base = b: int | 2 <= b <= 16 witness 10

  /** The digit character for d: '0'..'9', then 'A'..'F'. */
  function DigitChar(d: nat): (c: char)
    requires d < 16
    ensures DigitValue(c) == d
  {
    if d < 10 then ('0' as int + d) as char else ('A' as int + d - 10) as char
  }

  /** The value of an upper-case digit character, or -1 for any other character. */
  function DigitValue(c: char): int
  {
    if '0' <= c <= '9' then c as int - '0' as int
    else if 'A' <= c <= 'F' then c as int - 'A' as int + 10
    else -1
  }

  predicate AllDigits(s: string, base: Base)
  {
    forall i | 0 <= i < |s| :: 0 <= DigitValue(s[i]) < base
  }

  /** A non-empty string of digits of the base. */
  predicate IsNumeral(s: string, base: Base)
  {
    |s| > 0 && AllDigits(s, base)
  }

  /** The number a string of digits denotes, most significant digit first. */
  function ValueOf(s: string, base: Base): nat
    requires AllDigits(s, base)
  {
    if |s| == 0 then 0 else ValueOf(s[..|s| - 1], base) * base + DigitValue(s[|s| - 1])
  }

  /** The shortest numeral for n: no leading zero except for n == 0 itself. */
  function Render(n: nat, base: Base): (s: string)
    ensures IsNumeral(s, base)
    ensures s[0] == '0' ==> n == 0 && |s| == 1
    ensures n < base <==> |s| == 1
    decreases n
  {
    if n < base then [DigitChar(n)]
    else
      DivShrinks(n, base);
      Render(n / base, base) + [DigitChar(n % base)]
  }

  /** Appending a digit multiplies by the base and adds the digit. */
  lemma ValueOfSnoc(s: string, c: char, base: Base)
    requires AllDigits(s, base) && 0 <= DigitValue(c) < base
    ensures AllDigits(s + [c], base)
    ensures ValueOf(s + [c], base) == ValueOf(s, base) * base + DigitValue(c)
  {
    assert (s + [c])[..|s|] == s;
  }

  /** Euclidean division by the base is determined by quotient and remainder. */
  lemma DivModUnique(n: nat, q: nat, r: nat, base: Base)
    requires n == q * base + r && r < base
    ensures n / base == q && n % base == r
  {
  }

  lemma DivMod(n: nat, base: Base)
    ensures n == (n / base) * base + n % base
  {
  }

  /** Dividing by the base shrinks every number at least as large as the base. */
  lemma DivShrinks(n: nat, base: Base)
    requires n >= base
    ensures 0 < n / base < n
  {
  }

  lemma AtLeastBase(m: nat, d: nat, base: Base)
    requires m >= 1
    ensures m * base + d >= base
  {
  }

  lemma {:induction false} RenderRoundTrip(n: nat, base: Base)
    ensures ValueOf(Render(n, base), base) == n
    decreases n
  {
    if n < base {
      var e: string := [];
      ValueOfSnoc(e, DigitChar(n), base);
      assert e + [DigitChar(n)] == Render(n, base);
    } else {
      var q, r := n / base, n % base;
      var head := Render(q, base);
      assert Render(n, base) == head + [DigitChar(r)];
      DivShrinks(n, base);
      assert q < n;
      RenderRoundTrip(q, base);
      ValueOfSnoc(head, DigitChar(r), base);
      assert ValueOf(head + [DigitChar(r)], base) == q * base + r;
      DivMod(n, base);
    }
  }

  /** Render and ValueOf are inverse on canonical numerals, that is, those without a leading zero. */
  lemma {:induction false} ParseRoundTrip(s: string, base: Base)
    requires IsNumeral(s, base)
    requires s[0] != '0' || |s| == 1
    ensures Render(ValueOf(s, base), base) == s
    decreases |s|
  {
    var init, last := s[..|s| - 1], s[|s| - 1];
    var d := DigitValue(last);
    assert s == init + [last];
    ValueOfSnoc(init, last, base);
    var m := ValueOf(init, base);
    var n := ValueOf(s, base);
    if |s| == 1 {
      assert m == 0;
      assert n == d;
      assert DigitChar(d) == last;
    } else {
      assert init[0] == s[0];
      ParseRoundTrip(init, base);
      assert m != 0;
      DivModUnique(n, m, d, base);
      assert n >= base by {
        AtLeastBase(m, d, base);
      }
      assert Render(n, base) == Render(m, base) + [DigitChar(d)];
      assert DigitChar(d) == last;
    }
  }

  /** Render is one-to-one: distinct numbers never share a numeral. */
  lemma RenderInjective(m: nat, n: nat, base: Base)
    requires Render(m, base) == Render(n, base)
    ensures m == n
  {
    RenderRoundTrip(m, base);
    RenderRoundTrip(n, base);
  }

  /** Python's `f"{n}"`. */
  function Decimal(n: nat): (s: string)
    ensures IsNumeral(s, 10) && ValueOf(s, 10) == n
    ensures s[0] != '0' || |s| == 1
  {
    RenderRoundTrip(n, 10);
    Render(n, 10)
  }

  /** Python's `f"{n:X}"`. */
  function Hex(n: nat): (s: string)
    ensures IsNumeral(s, 16) && ValueOf(s, 16) == n
    ensures s[0] != '0' || |s| == 1
  {
    RenderRoundTrip(n, 16);
    Render(n, 16)
  }

  /** Python's `f"{n:02X}"` for a byte: always exactly two digits. */
  function Hex2(n: nat): (s: string)
    requires n < 256
    ensures |s| == 2 && IsNumeral(s, 16) && ValueOf(s, 16) == n
  {
    if n < 16 then
      var s := "0" + Hex(n);
      assert s[..1] == "0" && s[..0] == [];
      s
    else
      var s := Hex(n);
      assert n / 16 < 16;
      s
  }
}
