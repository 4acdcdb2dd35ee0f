/**
 * `StatusCode`: an application status code, a `u16` that never exceeds
 * 40000, with its validated constructors, a fixed table of named codes and
 * their reason phrases, a success test, a default, equality against a raw
 * `u16`, parsing from text and a display form.
 */
module Status {
  import opened Prelude
  import Utf8
  import Decimal

  /** The largest value a `StatusCode` may wrap. */
  const MAX_CODE: int := 40000

  /** The ASCII code of the digit `'0'` (Rust's `b'0'`). */
  const ASCII_ZERO: Byte := '0' as int

  /** What `{}` prints for a code with no entry in the table. */
  const UNKNOWN_REASON: string := "<unknown status code>"

  /**
   * `struct StatusCode(u16)`. The field is private in the source, so every
   * value is made by a constructor that checks the bound; here the bound is
   * part of the type, and no value above `MAX_CODE` can be written down.
   */
  newtype StatusCode = n: int | 0 <= n <= MAX_CODE {

    /** `StatusCode::from_u16`: accepts exactly the values up to 40000 and wraps them unchanged. */
    static function FromU16(src: U16): (r: Result<StatusCode, InvalidStatusCode>)
      ensures r.Ok? <==> src <= MAX_CODE
      ensures r.Ok? ==> r.value as int == src
    {
      if src > MAX_CODE then Err(InvalidStatusCode) else Ok(src as StatusCode)
    }

    /**
     * `StatusCode::from_bytes`, as the source writes it: after the length
     * check, all five digits are taken from `src[0]`, so the other four bytes
     * are never looked at and an accepted input always yields a number with
     * five equal digits.
     */
    static function FromBytes(src: seq<Byte>): (r: Result<StatusCode, InvalidStatusCode>)
      ensures r.Ok? <==> |src| == 5 && ASCII_ZERO <= src[0] <= ASCII_ZERO + 3
      ensures r.Ok? ==> r.value.AsU16() == (src[0] - ASCII_ZERO) * 11111
    {
      if |src| != 5 then
        Err(InvalidStatusCode)
      else
        var a: U16 := WrappingSubU8(src[0], ASCII_ZERO);
        var b: U16 := WrappingSubU8(src[0], ASCII_ZERO);
        var c: U16 := WrappingSubU8(src[0], ASCII_ZERO);
        var d: U16 := WrappingSubU8(src[0], ASCII_ZERO);
        var e: U16 := WrappingSubU8(src[0], ASCII_ZERO);
        if a >= 4 || b > 9 || c > 9 || d > 9 || e > 9 then
          Err(InvalidStatusCode)
        else
          var status: U16 :=
            AddU16(AddU16(AddU16(AddU16(MulU16(a, 10000), MulU16(b, 1000)), MulU16(c, 100)), MulU16(d, 10)), e);
          Ok(status as StatusCode)
    }

    /** `StatusCode::as_u16`: the wrapped value, from which `from_u16` rebuilds this code. */
    function AsU16(): (r: U16)
      ensures r <= MAX_CODE
      ensures FromU16(r) == Ok(this)
    {
      U16From(this)
    }

    /** `StatusCode::canonical_reason`: the phrase the table gives this code, if any. */
    function CanonicalReason(): (r: Option<string>)
      ensures r.Some? <==> IsNamed(this)
      ensures forall i :: 0 <= i < |STATUS_CODES| && STATUS_CODES[i].0 == this ==> r == Some(STATUS_CODES[i].1)
    {
      ReasonPhraseFollowsTable(this);
      ReasonPhrase(AsU16())
    }

    /** `StatusCode::is_success`: only `OK` (the value 0) counts as success. */
    function IsSuccess(): (r: bool)
      ensures r <==> this == OK
    {
      this == 0
    }
  }

  /** `InvalidStatusCode`: the failure of a constructor; it carries no data. */
  datatype InvalidStatusCode = InvalidStatusCode

  // The constants generated by the `status_codes!` invocation.
  const OK: StatusCode := 0
  const CLIENT_ERROR: StatusCode := 10001
  const REGISTER_FAILED: StatusCode := 10100
  const NOT_AGREE_PRIVACY: StatusCode := 10101
  const COUNTRY_OR_REGION_NOT_ALLOWED: StatusCode := 10102
  const USERNAME_FAILED: StatusCode := 10110
  const USERNAME_EXISTS: StatusCode := 10111
  const USERNAME_CONTAINS_SENSITIVE_WORD: StatusCode := 10112
  const USERNAME_CONTAINS_SPECIAL_CHAR: StatusCode := 10113
  const PASSWORD_FAILED: StatusCode := 10120
  const PASSWORD_TO_SHORT: StatusCode := 10121
  const PASSWORD_TO_WEAK: StatusCode := 10122
  const VERIFICATION_CODE_FAILED: StatusCode := 10130
  const SMS_VERIFICATION_CODE_FAILED: StatusCode := 10131
  const EMAIL_VERIFICATION_CODE_FAILED: StatusCode := 10132
  const VOICE_VERIFICATION_CODE_FAILED: StatusCode := 10133

  /**
   * The `status_codes!` invocation itself: each named constant with its
   * phrase, in the order written. The constants above and the `match` in
   * `ReasonPhrase` are its expansion, which `CanonicalReason` is proved to
   * agree with.
   */
  const STATUS_CODES: seq<(StatusCode, string)> := [
    (OK, "Ok"),
    (CLIENT_ERROR, "Client Error"),
    (REGISTER_FAILED, "Register Failed"),
    (NOT_AGREE_PRIVACY, "Did Not Agree to the Privacy Agreement"),
    (COUNTRY_OR_REGION_NOT_ALLOWED, "Country or Region not allowed"),
    (USERNAME_FAILED, "Username Failed"),
    (USERNAME_EXISTS, "Username Already Exists"),
    (USERNAME_CONTAINS_SENSITIVE_WORD, "Username Contains Sensitive Word"),
    (USERNAME_CONTAINS_SPECIAL_CHAR, "Username Contains Special Character"),
    (PASSWORD_FAILED, "Password Failed"),
    (PASSWORD_TO_SHORT, "Password is To Short"),
    (PASSWORD_TO_WEAK, "Password is to WEAK"),
    (VERIFICATION_CODE_FAILED, "Verification Code Failed"),
    (SMS_VERIFICATION_CODE_FAILED, "Sms Verification Code Failed"),
    (EMAIL_VERIFICATION_CODE_FAILED, "Email Verification Code Failed"),
    (VOICE_VERIFICATION_CODE_FAILED, "Voice Verification Code Failed")
  ]

  /** True when `c` is one of the named constants. */
  predicate IsNamed(c: StatusCode) {
    exists i :: 0 <= i < |STATUS_CODES| && STATUS_CODES[i].0 == c
  }

  /** The free function `canonical_reason(num)` that the macro generates: one `match` arm per entry. */
  function ReasonPhrase(num: U16): (r: Option<string>)
    ensures r.Some? ==> num <= MAX_CODE
    ensures r.Some? ==> r.value != UNKNOWN_REASON
  {
    match num
    case 0 => Some("Ok")
    case 10001 => Some("Client Error")
    case 10100 => Some("Register Failed")
    case 10101 => Some("Did Not Agree to the Privacy Agreement")
    case 10102 => Some("Country or Region not allowed")
    case 10110 => Some("Username Failed")
    case 10111 => Some("Username Already Exists")
    case 10112 => Some("Username Contains Sensitive Word")
    case 10113 => Some("Username Contains Special Character")
    case 10120 => Some("Password Failed")
    case 10121 => Some("Password is To Short")
    case 10122 => Some("Password is to WEAK")
    case 10130 => Some("Verification Code Failed")
    case 10131 => Some("Sms Verification Code Failed")
    case 10132 => Some("Email Verification Code Failed")
    case 10133 => Some("Voice Verification Code Failed")
    case _ => None
  }

  /**
   * The `match` in `ReasonPhrase` and the invocation list agree: a value has a
   * phrase exactly when it is one of the named constants, and the phrase is
   * the one written beside that constant.
   */
  lemma ReasonPhraseFollowsTable(c: StatusCode)
    ensures ReasonPhrase(c as int).Some? <==> IsNamed(c)
    ensures forall i :: 0 <= i < |STATUS_CODES| && STATUS_CODES[i].0 == c ==> ReasonPhrase(c as int) == Some(STATUS_CODES[i].1)
  {
    var t := STATUS_CODES;
    if ReasonPhrase(c as int).Some? {
      assert t[0].0 == c || t[1].0 == c || t[2].0 == c || t[3].0 == c || t[4].0 == c || t[5].0 == c
        || t[6].0 == c || t[7].0 == c || t[8].0 == c || t[9].0 == c || t[10].0 == c || t[11].0 == c
        || t[12].0 == c || t[13].0 == c || t[14].0 == c || t[15].0 == c;
    }
  }

  /** `impl From<StatusCode> for u16`: the wrapped value, never above the bound. */
  function U16From(status: StatusCode): (r: U16)
    ensures r <= MAX_CODE
    ensures StatusCode.FromU16(r) == Ok(status)
  {
    status as int
  }

  /** `impl Default for StatusCode`: the default is `OK`, which is a success. */
  function Default(): (c: StatusCode)
    ensures c == OK && c.IsSuccess()
    ensures c.CanonicalReason() == Some("Ok")
  {
    OK
  }

  /** `impl PartialEq<u16> for StatusCode`: equal exactly when `from_u16(other)` yields this code. */
  function EqU16(status: StatusCode, other: U16): (r: bool)
    ensures r <==> StatusCode.FromU16(other) == Ok(status)
  {
    status.AsU16() == other
  }

  /** `impl PartialEq<StatusCode> for u16`: the same relation with the operands swapped. */
  function U16EqStatus(n: U16, other: StatusCode): (r: bool)
    ensures r == EqU16(other, n)
    ensures r <==> StatusCode.FromU16(n) == Ok(other)
  {
    n == other.AsU16()
  }

  /** `impl FromStr for StatusCode`: `from_bytes` on the UTF-8 bytes of the string. */
  function FromStr(s: string): (r: Result<StatusCode, InvalidStatusCode>)
    ensures r == StatusCode.FromBytes(Utf8.Encode(s))
    ensures r.Ok? <==> |Utf8.Encode(s)| == 5 && '0' <= s[0] <= '3'
    ensures r.Ok? ==> r.value.AsU16() == (s[0] as int - '0' as int) * 11111
  {
    StatusCode.FromBytes(Utf8.Encode(s))
  }

  /** `impl TryFrom<&str> for StatusCode`: `t.parse()`, that is `from_str`. */
  function TryFromStr(t: string): (r: Result<StatusCode, InvalidStatusCode>)
    ensures r == StatusCode.FromBytes(Utf8.Encode(t))
  {
    FromStr(t)
  }

  /** `impl TryFrom<u16> for StatusCode`: `from_u16`. */
  function TryFromU16(t: U16): (r: Result<StatusCode, InvalidStatusCode>)
    ensures r == StatusCode.FromU16(t)
    ensures r.Ok? <==> t <= MAX_CODE
  {
    StatusCode.FromU16(t)
  }

  /**
   * `impl Display for StatusCode`: `"{n} {phrase}"`, with a placeholder phrase
   * for unlisted codes. The text reads back as exactly the code's value and
   * that phrase.
   */
  function Display(status: StatusCode): (r: string)
    ensures ParseDisplay(r) == Some((status.AsU16() as nat, status.CanonicalReason().UnwrapOr(UNKNOWN_REASON)))
  {
    var phrase := status.CanonicalReason().UnwrapOr(UNKNOWN_REASON);
    ParseDisplayOfRendering(U16From(status), phrase);
    Decimal.NatToString(U16From(status)) + " " + phrase
  }

  /** The position of the first space in `s`, or `|s|` when there is none. */
  function IndexOfSpace(s: string): (k: nat)
    ensures k <= |s|
    ensures k < |s| ==> s[k] == ' '
  {
    if s == [] || s[0] == ' ' then 0 else 1 + IndexOfSpace(s[1..])
  }

  /** A space at `k` with none before it is the first space. */
  lemma {:induction false} IndexOfFirstSpace(s: string, k: nat)
    requires k < |s| && s[k] == ' '
    requires forall i :: 0 <= i < k ==> s[i] != ' '
    ensures IndexOfSpace(s) == k
  {
    if k > 0 {
      IndexOfFirstSpace(s[1..], k - 1);
    }
  }

  /**
   * Reads a display form back: the decimal number before the first space and
   * the phrase after it.
   */
  function ParseDisplay(s: string): Option<(nat, string)> {
    var k := IndexOfSpace(s);
    if k == |s| then
      None
    else
      match Decimal.ParseDecimal(s[..k])
      case None => None
      case Some(n) => Some((n, s[k + 1..]))
  }

  /** A number rendered in decimal, a space and any phrase read back as that number and phrase. */
  lemma ParseDisplayOfRendering(n: nat, phrase: string)
    ensures ParseDisplay(Decimal.NatToString(n) + " " + phrase) == Some((n, phrase))
  {
    var digits := Decimal.NatToString(n);
    var s := digits + " " + phrase;
    assert forall i :: 0 <= i < |digits| ==> s[i] == digits[i] && s[i] != ' ';
    assert s[|digits|] == ' ';
    IndexOfFirstSpace(s, |digits|);
    assert s[..|digits|] == digits;
    assert s[|digits| + 1..] == phrase;
    Decimal.ParseNatToString(n);
  }

  /** Only the exact rendering reads back: a text that parses as `n` and `phrase` is `n` in decimal, a space and `phrase`. */
  lemma ParseDisplayCanonical(s: string, n: nat, phrase: string)
    requires ParseDisplay(s) == Some((n, phrase))
    ensures s == Decimal.NatToString(n) + " " + phrase
  {
    var k := IndexOfSpace(s);
    Decimal.RenderingOfParse(s[..k], n);
    assert s == s[..k] + " " + s[k + 1..];
  }

  // Properties of the constructors, the table and the conversions.

  /** `from_u16(n).as_u16() == n` whenever `from_u16(n)` succeeds. */
  lemma FromU16ThenAsU16(n: U16)
    requires n <= MAX_CODE
    ensures StatusCode.FromU16(n).Ok? && StatusCode.FromU16(n).value.AsU16() == n
  {
  }

  /** As written, `from_bytes` on five bytes looks at nothing but the first. */
  lemma FromBytesFirstByteOnly(s: seq<Byte>, t: seq<Byte>)
    requires |s| == 5 && |t| == 5 && s[0] == t[0]
    ensures StatusCode.FromBytes(s) == StatusCode.FromBytes(t)
  {
  }

  /** A first byte below `'0'` wraps around to 208 or more and is rejected. */
  lemma FromBytesRejectsBelowZero(src: seq<Byte>)
    requires |src| == 5 && src[0] < ASCII_ZERO
    ensures WrappingSubU8(src[0], ASCII_ZERO) >= 208
    ensures StatusCode.FromBytes(src).Err?
  {
  }

  /** The invocation list has sixteen entries and no code appears in it twice. */
  lemma StatusCodesDistinct()
    ensures |STATUS_CODES| == 16
    ensures forall i, j :: 0 <= i < j < |STATUS_CODES| ==> STATUS_CODES[i].0 != STATUS_CODES[j].0
  {
  }

  /** Only the first named constant, `OK`, is a success; the fifteen error codes are not. */
  lemma OnlyOkSucceeds()
    ensures forall i :: 0 <= i < |STATUS_CODES| ==> (STATUS_CODES[i].0.IsSuccess() <==> i == 0)
  {
  }

  /** A code compares equal to its own `as_u16()`, from either side. */
  lemma EqOwnU16(status: StatusCode)
    ensures EqU16(status, status.AsU16()) && U16EqStatus(status.AsU16(), status)
  {
  }

  /** The display form of `OK` is `"0 Ok"`. */
  lemma DisplayOk()
    ensures Display(OK) == "0 Ok"
  {
  }

  /** An unlisted code such as 1 has no phrase and displays with the placeholder. */
  lemma DisplayUnlisted()
    ensures (1 as StatusCode).CanonicalReason() == None
    ensures Display(1 as StatusCode) == "1 " + UNKNOWN_REASON
  {
    var one := 1 as StatusCode;
    assert one.CanonicalReason() == None by {
      assert ReasonPhrase(1) == None;
    }
    assert Decimal.NatToString(1) == "1";
  }
}
