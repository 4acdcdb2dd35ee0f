/**
 * The evidently intended `StatusCode::from_bytes`, beside the one the source
 * writes. The source takes all five digits from `src[0]`; the intended parser
 * takes digit `i` from byte `i`. The parsers of module `Status` stay as
 * written; this module proves what the intended parser does, shows inputs on
 * which the two differ and says exactly where they agree.
 */
module Intended {
  import opened Prelude
  import opened Status
  import Utf8

  /**
   * The digit value that `b.wrapping_sub(b'0')` gives for a byte: at most
   * `hi` (for `hi` below 10) exactly when `b` is an ASCII digit up to `hi`.
   */
  function DigitOf(b: Byte): (d: Byte)
    ensures forall hi :: 0 <= hi < 10 ==> (d <= hi <==> IsDigitUpTo(b, hi))
    ensures IsDigitUpTo(b, 9) ==> b == ASCII_ZERO + d
  {
    WrappingSubU8(b, ASCII_ZERO)
  }

  /** True when `b` is an ASCII digit no greater than `hi`. */
  predicate IsDigitUpTo(b: Byte, hi: int) {
    ASCII_ZERO <= b <= ASCII_ZERO + hi
  }

  /** The five ASCII digits of `n`, zero-padded: the text a five-digit code is written as. */
  function FiveDigits(n: nat): (r: seq<Byte>)
    requires n < 100000
    ensures |r| == 5
    ensures IsDigitUpTo(r[0], 3) <==> n < 40000
    ensures forall i :: 0 <= i < 5 ==> IsDigitUpTo(r[i], 9)
  {
    [ASCII_ZERO + n / 10000, ASCII_ZERO + n / 1000 % 10, ASCII_ZERO + n / 100 % 10,
     ASCII_ZERO + n / 10 % 10, ASCII_ZERO + n % 10]
  }

  /**
   * `from_bytes` reading byte `i` for digit `i`. It accepts exactly five ASCII
   * digits whose first is at most 3, and what it accepts is the five-digit
   * text of the code it returns, so no accepted code exceeds 39999.
   */
  function FromBytesIntended(src: seq<Byte>): (r: Result<StatusCode, InvalidStatusCode>)
    ensures r.Ok? <==> |src| == 5 && IsDigitUpTo(src[0], 3) && forall i :: 1 <= i < 5 ==> IsDigitUpTo(src[i], 9)
    ensures r.Ok? ==> r.value as int < 40000 && src == FiveDigits(r.value as int)
  {
    if |src| != 5 then
      Err(InvalidStatusCode)
    else
      var a: U16 := DigitOf(src[0]);
      var b: U16 := DigitOf(src[1]);
      var c: U16 := DigitOf(src[2]);
      var d: U16 := DigitOf(src[3]);
      var e: U16 := DigitOf(src[4]);
      if a >= 4 || b > 9 || c > 9 || d > 9 || e > 9 then
        Err(InvalidStatusCode)
      else
        var status: U16 :=
          AddU16(AddU16(AddU16(AddU16(MulU16(a, 10000), MulU16(b, 1000)), MulU16(c, 100)), MulU16(d, 10)), e);
        FiveDigitsOfDigits(a, b, c, d, e);
        assert src == [ASCII_ZERO + a, ASCII_ZERO + b, ASCII_ZERO + c, ASCII_ZERO + d, ASCII_ZERO + e];
        Ok(status as StatusCode)
  }

  /** Five digits combined positionally are written back as those five digits. */
  lemma FiveDigitsOfDigits(a: nat, b: nat, c: nat, d: nat, e: nat)
    requires a < 10 && b < 10 && c < 10 && d < 10 && e < 10
    ensures a * 10000 + b * 1000 + c * 100 + d * 10 + e < 100000
    ensures FiveDigits(a * 10000 + b * 1000 + c * 100 + d * 10 + e)
         == [ASCII_ZERO + a, ASCII_ZERO + b, ASCII_ZERO + c, ASCII_ZERO + d, ASCII_ZERO + e]
  {
    DigitsOfSum(a, b, c, d, e);
  }

  /** The quotients and remainders by powers of ten of a positional sum of five digits. */
  lemma DigitsOfSum(a: nat, b: nat, c: nat, d: nat, e: nat)
    requires a < 10 && b < 10 && c < 10 && d < 10 && e < 10
    ensures var n := a * 10000 + b * 1000 + c * 100 + d * 10 + e;
      n / 10000 == a && n / 1000 % 10 == b && n / 100 % 10 == c && n / 10 % 10 == d && n % 10 == e
  {
    var n := a * 10000 + b * 1000 + c * 100 + d * 10 + e;
    assert n / 10 == a * 1000 + b * 100 + c * 10 + d;
    assert n / 100 == a * 100 + b * 10 + c;
    assert n / 1000 == a * 10 + b;
    assert n / 10000 == a;
  }

  /**
   * The intended parser on the five-digit text of any `n` below 100000: it
   * yields the same result as `from_u16(n)` for every `n` below 40000 and
   * fails for the rest.
   */
  lemma FromBytesIntendedOfFiveDigits(n: nat)
    requires n < 100000
    ensures n < 40000 ==> FromBytesIntended(FiveDigits(n)) == StatusCode.FromU16(n)
    ensures n >= 40000 ==> FromBytesIntended(FiveDigits(n)).Err?
  {
    var r := FromBytesIntended(FiveDigits(n));
    if n < 40000 {
      assert r.Ok?;
      var v := r.value as int;
      FiveDigitsInjective(v, n);
    }
  }

  /** Different numbers below 100000 have different five-digit texts. */
  lemma FiveDigitsInjective(m: nat, n: nat)
    requires m < 100000 && n < 100000
    requires FiveDigits(m) == FiveDigits(n)
    ensures m == n
  {
    var s, t := FiveDigits(m), FiveDigits(n);
    assert s[0] == t[0] && s[1] == t[1] && s[2] == t[2] && s[3] == t[3] && s[4] == t[4];
    Decompose(m);
    Decompose(n);
  }

  /** A number below 100000 is the positional sum of its five digits. */
  lemma Decompose(n: nat)
    requires n < 100000
    ensures n == n / 10000 * 10000 + n / 1000 % 10 * 1000 + n / 100 % 10 * 100 + n / 10 % 10 * 10 + n % 10
  {
    var q1, q2, q3, q4 := n / 10, n / 100, n / 1000, n / 10000;
    assert q2 == q1 / 10;
    assert q3 == q2 / 10;
    assert q4 == q3 / 10;
    assert n == q1 * 10 + n % 10;
    assert q1 == q2 * 10 + q1 % 10;
    assert q2 == q3 * 10 + q2 % 10;
    assert q3 == q4 * 10 + q3 % 10;
  }

  /** `from_str` with the intended byte parser: the same parser on the string's UTF-8 bytes. */
  function FromStrIntended(s: string): Result<StatusCode, InvalidStatusCode> {
    FromBytesIntended(Utf8.Encode(s))
  }

  /**
   * The intended `from_str` accepts exactly the strings of five ASCII digits
   * whose first is at most 3; any other character, ASCII or not, is rejected.
   */
  lemma FromStrIntendedIff(s: string)
    ensures FromStrIntended(s).Ok? <==> |s| == 5 && '0' <= s[0] <= '3' && forall i :: 1 <= i < 5 ==> '0' <= s[i] <= '9'
  {
    var bytes := Utf8.Encode(s);
    if FromStrIntended(s).Ok? {
      assert forall k :: 0 <= k < |bytes| ==> bytes[k] < 0x80 by {
        assert forall k :: 1 <= k < 5 ==> IsDigitUpTo(bytes[k], 9);
      }
      Utf8.AsciiIffAsciiBytes(s);
      Utf8.EncodeAscii(s);
    } else if |s| == 5 && '0' <= s[0] <= '3' && forall i :: 1 <= i < 5 ==> '0' <= s[i] <= '9' {
      assert Utf8.IsAscii(s);
      Utf8.EncodeAscii(s);
    }
  }

  /** On `"01234"` the source's parser yields `OK` (the value 0); the intended one yields 1234. */
  lemma AsWrittenMisreadsLeadingZero()
    ensures FromStr("01234") == Ok(OK)
    ensures FromStrIntended("01234") == Ok(1234 as StatusCode)
  {
    var bytes := Utf8.Encode("01234");
    assert bytes == [48, 49, 50, 51, 52] by {
      Utf8.EncodeAscii("01234");
    }
    assert bytes == FiveDigits(1234) by {
      FiveDigitsOfDigits(0, 1, 2, 3, 4);
    }
    FromBytesIntendedOfFiveDigits(1234);
  }

  /** On `"3abcd"` the source's parser accepts 33333; the intended one rejects the letters. */
  lemma AsWrittenAcceptsNonDigits()
    ensures FromStr("3abcd") == Ok(33333 as StatusCode)
    ensures FromStrIntended("3abcd").Err?
  {
    Utf8.EncodeAscii("3abcd");
  }

  /**
   * Where the two parsers agree: exactly on inputs the source rejects for their
   * length or first byte, and on five copies of one digit from `'0'` to `'3'`.
   */
  lemma AsWrittenAgreesIff(src: seq<Byte>)
    ensures StatusCode.FromBytes(src) == FromBytesIntended(src)
        <==> |src| != 5 || !IsDigitUpTo(src[0], 3) || src == [src[0], src[0], src[0], src[0], src[0]]
  {
    if |src| == 5 && IsDigitUpTo(src[0], 3) {
      var d := src[0] - ASCII_ZERO;
      FiveDigitsOfDigits(d, d, d, d, d);
      var r := FromBytesIntended(src);
      if src == [src[0], src[0], src[0], src[0], src[0]] {
        assert r.Ok?;
        FiveDigitsInjective(r.value as int, d * 11111);
      }
    }
  }
}
