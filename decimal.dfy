/**
 * Decimal rendering of unsigned integers, as Rust's `{}` formatting writes a
 * `u16`: the digits of the value, most significant first, with no sign and
 * no leading zeros. `ParseDecimal` reads such a rendering back.
 */
module Decimal {
  import opened Prelude

  predicate IsDigit(c: char) {
    '0' <= c <= '9'
  }

  predicate AllDigits(s: string) {
    forall i :: 0 <= i < |s| ==> IsDigit(s[i])
  }

  function DigitChar(d: nat): (c: char)
    requires d < 10
    ensures IsDigit(c) && c as int - '0' as int == d
  {
    ('0' as int + d) as char
  }

  /** The decimal rendering of `n`. */
  function NatToString(n: nat): (s: string)
    ensures s != [] && AllDigits(s)
    ensures s[0] == '0' <==> n == 0
    ensures n == 0 ==> s == "0"
    decreases n
  {
    if n < 10 then [DigitChar(n)] else NatToString(n / 10) + [DigitChar(n % 10)]
  }

  /** The value of a string of decimal digits, most significant first. */
  function DigitsValue(s: string): nat
    requires AllDigits(s)
  {
    if s == [] then 0 else DigitsValue(s[..|s| - 1]) * 10 + (s[|s| - 1] as int - '0' as int)
  }

  /**
   * Reads a rendering back: a non-empty string of decimal digits with no
   * leading zero (apart from `"0"` itself); anything else is `None`.
   */
  function ParseDecimal(s: string): Option<nat> {
    if s != [] && AllDigits(s) && (s[0] == '0' ==> |s| == 1) then Some(DigitsValue(s)) else None
  }

  /** Reading back the rendering of `n` gives `n`. */
  lemma {:induction false} ParseNatToString(n: nat)
    ensures ParseDecimal(NatToString(n)) == Some(n)
    decreases n
  {
    var s := NatToString(n);
    if n >= 10 {
      ParseNatToString(n / 10);
      assert s[..|s| - 1] == NatToString(n / 10);
      assert s[|s| - 1] == DigitChar(n % 10);
      assert DigitsValue(s) == DigitsValue(NatToString(n / 10)) * 10 + n % 10;
    }
  }

  /** The rendering is canonical: a digit string with no leading zero is the rendering of its value. */
  lemma {:induction false} NatToStringOfValue(s: string)
    requires s != [] && AllDigits(s)
    requires s[0] == '0' ==> |s| == 1
    ensures NatToString(DigitsValue(s)) == s
    decreases |s|
  {
    var init := s[..|s| - 1];
    if init != [] {
      assert init[0] == s[0];
      NatToStringOfValue(init);
      var v, d := DigitsValue(init), s[|s| - 1] as int - '0' as int;
      assert v > 0;
      assert (v * 10 + d) / 10 == v && (v * 10 + d) % 10 == d;
      assert s == init + [s[|s| - 1]];
    }
  }

  /** Only the rendering of `n` reads back as `n`: the reader accepts no other spelling. */
  lemma RenderingOfParse(s: string, n: nat)
    requires ParseDecimal(s) == Some(n)
    ensures s == NatToString(n)
  {
    NatToStringOfValue(s);
  }
}
