/**
 * The numeric library calls of the grade programs, over exact reals: Double.parseDouble on plain
 * decimal text, Math.round, and the "%.1f" conversion of String.format / PrintWriter.printf.
 */
module JavaNumbers {
  import opened Outcomes
  import opened JavaText

  predicate IsDigit(c: char) {
    '0' <= c <= '9'
  }

  predicate AllDigits(s: string) {
    forall i :: 0 <= i < |s| ==> IsDigit(s[i])
  }

  function DigitChar(d: nat): (c: char)
    requires d < 10
    ensures IsDigit(c)
  {
    (48 + d) as char
  }

  function DigitValue(c: char): (d: nat)
    requires IsDigit(c)
    ensures d < 10 && DigitChar(d) == c
  {
    c as int - 48
  }

  /** The value of a string of decimal digits, most significant digit first. */
  function DigitsValue(s: string): nat
    requires AllDigits(s)
  {
    if s == [] then 0 else DigitsValue(s[..|s| - 1]) * 10 + DigitValue(s[|s| - 1])
  }

  /** The decimal digits of n without leading zeros. */
  function NatDigits(n: nat): (s: string)
    ensures AllDigits(s) && |s| >= 1
  {
    if n < 10 then [DigitChar(n)] else NatDigits(n / 10) + [DigitChar(n % 10)]
  }

  /** Reading back the digits of n gives n. */
  lemma {:induction false} DigitsValueOfNatDigits(n: nat)
    ensures DigitsValue(NatDigits(n)) == n
  {
    if n >= 10 {
      DigitsValueOfNatDigits(n / 10);
      var s := NatDigits(n);
      assert s[..|s| - 1] == NatDigits(n / 10);
    }
  }

  function Pow10(k: nat): (p: nat)
    ensures p >= 1
  {
    if k == 0 then 1 else 10 * Pow10(k - 1)
  }

  /** The index of the first c in s. */
  function IndexOf(s: string, c: char): (i: nat)
    requires c in s
    ensures i < |s| && s[i] == c && c !in s[..i]
  {
    if s[0] == c then 0
    else
      var j := IndexOf(s[1..], c);
      assert s[1..][..j] == s[1..j + 1];
      j + 1
  }

  /**
   * Unsigned plain decimal text: digits and an optional point followed by digits, with at least
   * one digit in all ("5", "5.", ".5").
   */
  function ParseUnsigned(body: string): Option<real>
  {
    var point := if '.' in body then IndexOf(body, '.') else |body|;
    var whole := body[..point];
    var fraction := if point < |body| then body[point + 1..] else [];
    if AllDigits(whole) && AllDigits(fraction) && |whole| + |fraction| > 0 then
      Some(DigitsValue(whole) as real + DigitsValue(fraction) as real / Pow10(|fraction|) as real)
    else
      None
  }

  /**
   * Double.parseDouble on plain decimal text: surrounding whitespace is ignored, then an optional
   * sign and unsigned decimal text. None is the NumberFormatException the call throws.
   */
  function ParseDouble(text: string): Option<real>
  {
    var s := Trim(text);
    match ParseUnsigned(Unsigned(s))
    case None => None
    case Some(v) => Some(if Negative(s) then -v else v)
  }

  /** The text starts with a minus sign. */
  predicate Negative(s: string) {
    |s| > 0 && s[0] == '-'
  }

  /** The text without its sign, if it has one. */
  function Unsigned(s: string): string {
    if |s| > 0 && (s[0] == '-' || s[0] == '+') then s[1..] else s
  }

  /** Math.round: the integer nearest to x, halves rounded up. */
  function Round(x: real): (n: int)
    ensures n as real - 0.5 <= x < n as real + 0.5
  {
    (x + 0.5).Floor
  }

  /** x is a whole number of tenths. */
  predicate IsTenth(x: real) {
    (x * 10.0).Floor as real == x * 10.0
  }

  /**
   * The "%.1f" conversion in a locale whose decimal separator is '.': the magnitude rounded
   * half-up to tenths, a '-' in front of a negative value, at least one digit before the point
   * and exactly one after it.
   */
  function FormatOneDecimal(g: real): (text: string)
    ensures |text| >= 3 && text[|text| - 2] == '.' && IsDigit(text[|text| - 1])
    ensures IsTrimmed(text)
    ensures forall c :: c in text ==> c == '-' || c == '.' || IsDigit(c)
  {
    var tenths: nat := Round(if g < 0.0 then -g * 10.0 else g * 10.0);
    var digits := NatDigits(tenths / 10);
    var text := (if g < 0.0 then "-" else "") + digits + "." + [DigitChar(tenths % 10)];
    assert forall c :: c in text ==> c == '-' || c == '.' || c in digits || IsDigit(c);
    text
  }

  /** In digits, a point and more text, the first point follows the digits. */
  lemma PointAfterDigits(digits: string, rest: string)
    requires AllDigits(digits)
    ensures '.' in digits + "." + rest
    ensures IndexOf(digits + "." + rest, '.') == |digits|
  {
    var body := digits + "." + rest;
    assert body[|digits|] == '.';
    assert body[..|digits|] == digits;
  }

  /** Digits, a point and one more digit read back as the number of tenths they spell. */
  lemma ParseTenths(tenths: nat)
    ensures ParseUnsigned(NatDigits(tenths / 10) + "." + [DigitChar(tenths % 10)]) == Some(tenths as real / 10.0)
  {
    var digits := NatDigits(tenths / 10);
    var last := [DigitChar(tenths % 10)];
    var body := digits + "." + last;
    PointAfterDigits(digits, last);
    assert body[..|digits|] == digits;
    assert body[|digits| + 1..] == last;
    DigitsValueOfNatDigits(tenths / 10);
    assert DigitsValue(last) == tenths % 10 by {
      assert last[..0] == [];
    }
    TenthsSplit(tenths);
  }

  lemma TenthsSplit(tenths: nat)
    ensures (tenths / 10) as real + (tenths % 10) as real / 10.0 == tenths as real / 10.0
  {
  }

  lemma RoundOfWhole(n: int)
    ensures Round(n as real) == n
  {
  }

  /** Trimmed digits behind an optional minus sign: trim keeps them, and the sign comes off again. */
  lemma SignedText(body: string, negative: bool)
    requires body != [] && IsDigit(body[0]) && IsTrimmed(body)
    ensures var text := (if negative then "-" else "") + body;
            Trim(text) == text && (Negative(text) <==> negative) && Unsigned(text) == body
  {
    var text := (if negative then "-" else "") + body;
    assert text[|text| - 1] == body[|body| - 1];
    if negative {
      assert text[0] == '-' && text[1..] == body;
    } else {
      assert text == body && body[0] != '-' && body[0] != '+';
      assert Unsigned(body) == body;
    }
  }

  /** A sign in front of trimmed unsigned text negates what the text spells. */
  lemma ParseSignedValue(body: string, negative: bool, v: real)
    requires body != [] && IsDigit(body[0]) && IsTrimmed(body)
    requires ParseUnsigned(body) == Some(v)
    ensures ParseDouble((if negative then "-" else "") + body) == Some(if negative then -v else v)
  {
    SignedText(body, negative);
  }

  /** The number of tenths "%.1f" prints for g, when g is a whole number of tenths. */
  lemma TenthsOf(g: real) returns (tenths: nat)
    requires IsTenth(g)
    ensures Round(if g < 0.0 then -g * 10.0 else g * 10.0) == tenths
    ensures g == if g < 0.0 then -(tenths as real / 10.0) else tenths as real / 10.0
  {
    var k := (g * 10.0).Floor;
    tenths := if k < 0 then -k else k;
    assert (if g < 0.0 then -g * 10.0 else g * 10.0) == tenths as real;
    RoundOfWhole(tenths);
  }

  /** What "%.1f" prints: a sign, the whole tenths and the last tenth. */
  lemma FormatOfTenths(g: real, tenths: nat)
    requires Round(if g < 0.0 then -g * 10.0 else g * 10.0) == tenths
    ensures FormatOneDecimal(g) == (if g < 0.0 then "-" else "") + (NatDigits(tenths / 10) + "." + [DigitChar(tenths % 10)])
  {
  }

  /** The text "%.1f" prints for a whole number of tenths parses back to that number. */
  lemma FormatParseRoundTrip(g: real)
    requires IsTenth(g)
    ensures ParseDouble(FormatOneDecimal(g)) == Some(g)
  {
    var tenths := TenthsOf(g);
    FormatOfTenths(g, tenths);
    var digits := NatDigits(tenths / 10);
    var last := DigitChar(tenths % 10);
    var body := digits + "." + [last];
    assert body[0] == digits[0];
    assert body[|body| - 1] == last;
    assert IsTrimmed(body);
    ParseTenths(tenths);
    ParseSignedValue(body, g < 0.0, tenths as real / 10.0);
  }
}
