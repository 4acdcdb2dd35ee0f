# StatusCode, modelled in Dafny

A model of the `StatusCode` value type of `src/status.rs`: an application
status code that wraps a `u16` and never exceeds 40000. The model covers its
validated constructors (`from_u16`, `from_bytes`, `from_str` and the
`TryFrom` conversions), the `status_codes!` table of sixteen named codes
with their reason phrases, the success test, the default value, equality
against a raw `u16`, the conversion back to `u16` and the `Display` form.

Modules, one file each:

- `Prelude` (`prelude.dfy`): `Option`, `Result`, `u8` and `u16` as bounded
  integers, `u8::wrapping_sub`, and `u16` multiplication and addition that
  demand (and so prove) the absence of overflow.
- `Utf8` (`utf8.dfy`): the bytes of a `&str`, that is its UTF-8 encoding,
  which is what `from_str` passes to `from_bytes`.
- `Decimal` (`decimal.dfy`): the decimal rendering `{}` gives a `u16`, and a
  reader that turns it back into the number and accepts no other spelling.
- `Status` (`status.dfy`): `StatusCode` itself, modelled as the source
  writes it. `StatusCode` is a `newtype` whose values are the integers 0 to
  40000, so no value above the bound can exist, as the private field ensures
  in the source. The sixteen constants and the `match` of
  `canonical_reason` are the macro's expansion written out; the invocation
  list is kept as the sequence `STATUS_CODES`, and the expansion is proved
  to agree with it.
- `Intended` (`intended.dfy`): the parser that `from_bytes` was evidently
  meant to be, with the inputs on which it and the source's parser differ
  (see Findings).

The source's `from_bytes` takes all five digits from `src[0]`. The model of
`from_bytes`, `from_str` and `TryFrom<&str>` keeps that behaviour, so an
accepted input always gives a code with five equal digits (0, 11111, 22222
or 33333). The textual round trips one would expect ("01234" gives 1234, and
the numeric and textual constructors agree on every code) are proved about
the corrected parser in `Intended`. Even the corrected parser rejects a
first digit of 4, so 40000 is a valid code (`from_u16(40000)` succeeds) that
has no textual form. `FromBytesIntended` states this as "every accepted code
is below 40000".

Nothing here performs I/O. The rendering through `fmt::Formatter` is
modelled as a function that returns the string.

## Model

| member | source | states |
|---|---|---|
| `Status.StatusCode.FromU16` | src/status.rs:15-21 | succeeds if and only if the input is at most 40000, and then wraps exactly the input |
| `Status.StatusCode.FromBytes` | src/status.rs:24-41 | as written: succeeds if and only if the input has five bytes and the first is `'0'`..`'3'`; the code is then (first byte - `'0'`) * 11111; the `u16` arithmetic cannot overflow and the result stays within the bound |
| `Status.StatusCode.AsU16` | src/status.rs:44-46 | the wrapped value is at most 40000 and `from_u16` of it gives back the same code |
| `Status.StatusCode.CanonicalReason` | src/status.rs:49-51 | there is a phrase exactly for the named constants, and it is the phrase the invocation list gives that constant |
| `Status.StatusCode.IsSuccess` | src/status.rs:54-56 | true exactly for `OK` |
| `Status.ReasonPhrase` | src/status.rs:153-160 | a phrase is returned only for a number within the bound, and no phrase is the `<unknown status code>` placeholder, so `Display` can tell the two apart |
| `Status.ReasonPhraseFollowsTable` | src/status.rs:153-186 | the expanded `match` returns `Some` exactly on the sixteen listed codes, each with its listed phrase, and `None` elsewhere |
| `Status.StatusCodesDistinct` | src/status.rs:164-186 | the invocation list has sixteen entries and no code occurs twice |
| `Status.OnlyOkSucceeds` | src/status.rs:164-186 | of the named constants, only the first (`OK`) is a success |
| `Status.U16From` | src/status.rs:97-101 | the `u16` obtained is at most 40000 and `from_u16` of it gives back the code |
| `Status.Default` | src/status.rs:76-81 | the default is `OK`, a success, whose phrase is `"Ok"` |
| `Status.EqU16` | src/status.rs:83-88 | a code equals a `u16` exactly when `from_u16` of that `u16` yields the code |
| `Status.U16EqStatus` | src/status.rs:90-95 | the same relation as `EqU16` with the operands swapped (symmetry) |
| `Status.EqOwnU16` | src/status.rs:83-95 | every code equals its own `as_u16()`, from both sides |
| `Status.FromU16ThenAsU16` | src/status.rs:15-21 | `from_u16(n).as_u16() == n` for every `n` up to 40000 |
| `Status.FromBytesFirstByteOnly` | src/status.rs:29-33 | as written, two five-byte inputs with the same first byte give the same result |
| `Status.FromBytesRejectsBelowZero` | src/status.rs:29-37 | a first byte below `'0'` wraps to 208 or more and is rejected |
| `Status.FromStr` | src/status.rs:104-110 | is `from_bytes` on the UTF-8 bytes; succeeds exactly when those are five bytes and the first character is `'0'`..`'3'`, and then gives that digit times 11111 |
| `Status.TryFromStr` | src/status.rs:119-126 | is `from_bytes` on the UTF-8 bytes of the string, the same as `from_str` |
| `Status.TryFromU16` | src/status.rs:129-136 | is `from_u16`, so it succeeds exactly up to 40000 |
| `Status.Display` | src/status.rs:65-73 | reading the display form back yields exactly the code's `u16` and its phrase or `<unknown status code>`; with `ParseDisplayCanonical`, the text is therefore the canonical decimal of the `u16`, a space, then that phrase |
| `Status.ParseDisplayCanonical` | src/status.rs:65-73 | a text that reads back as a number and a phrase is exactly that number without leading zeros, one space, and the phrase, so no other string meets the read-back of `Display` |
| `Status.DisplayOk` | src/status.rs:65-73 | `OK` displays as `"0 Ok"` |
| `Status.DisplayUnlisted` | src/status.rs:65-73 | the unlisted code 1 has no phrase and displays as `"1 "` followed by the placeholder `<unknown status code>` |
| `Prelude.Option.UnwrapOr` | src/status.rs:71 | `unwrap_or` gives the contained value of `Some` and the default for `None` |
| `Prelude.WrappingSubU8` | src/status.rs:29 | `wrapping_sub` is the plain difference when no borrow occurs, and the difference plus 256 otherwise |
| `Utf8.Encode` | src/status.rs:108 | the bytes of a string are at least as many as its characters, empty exactly for the empty string, and start with the first byte of the first character's encoding |
| `Utf8.EncodeAscii` | src/status.rs:108 | an ASCII string's bytes are its character codes, one per character |
| `Utf8.EncodeLengthIffAscii` | src/status.rs:108 | a string has as many bytes as characters if and only if it is ASCII |
| `Utf8.AsciiIffAsciiBytes` | src/status.rs:108 | a string is ASCII if and only if every byte of its encoding is below 0x80 |
| `Decimal.NatToString` | src/status.rs:70 | the rendering is a non-empty string of digits that starts with `'0'` only for the value 0 |
| `Decimal.ParseNatToString` | src/status.rs:70 | reading the rendering back gives the number |
| `Decimal.RenderingOfParse` | src/status.rs:70 | a string that the reader accepts as `n` is the rendering of `n`: zero-padded or other spellings are refused |
| `Decimal.NatToStringOfValue` | src/status.rs:70 | every digit string without a leading zero is the rendering of its value |
| `Intended.FromBytesIntended` | src/status.rs:24-41 | corrected: succeeds exactly on five ASCII digits whose first is at most 3; the accepted input is the five-digit text of the code, which is below 40000 |
| `Intended.FromBytesIntendedOfFiveDigits` | src/status.rs:24-41 | corrected: the five-digit text of any `n` below 40000 parses to the same result as `from_u16(n)`, and every text from 40000 to 99999 fails |
| `Intended.FromStrIntendedIff` | src/status.rs:104-110 | corrected: on every string, `from_str` accepts exactly five ASCII digits whose first is at most 3; a string with any non-ASCII character is rejected |
| `Intended.AsWrittenMisreadsLeadingZero` | src/status.rs:29-33 | `"01234"` gives `OK` (0) as written, and 1234 with the corrected parser |
| `Intended.AsWrittenAcceptsNonDigits` | src/status.rs:29-35 | `"3abcd"` gives 33333 as written, and the corrected parser rejects it |
| `Intended.AsWrittenAgreesIff` | src/status.rs:29-40 | the two parsers agree exactly on inputs rejected for their length or first byte, and on five copies of one digit from `'0'` to `'3'` |

## Findings

| source | as written | input that shows it | evidently intended | confidence | as-written member | corrected member |
|---|---|---|---|---|---|---|
| src/status.rs:29-33 | all five digits are computed from `src[0]` | `"01234"` parses to 0 instead of 1234, and `"3abcd"` is accepted as 33333 | digit `i` is computed from `src[i]` | high; not executed | `Intended.AsWrittenMisreadsLeadingZero` | `Intended.FromBytesIntended` |

## Left out

- The `Debug` impls of `StatusCode` and `InvalidStatusCode` (src/status.rs:59-63, 196-202): formatting only.
- `Display` and `Error` for `InvalidStatusCode` (src/status.rs:204-210): a fixed message and trait wiring, with nothing to verify.
- The `fmt::Formatter` plumbing of `Display` (src/status.rs:65-73): the model returns the text, and write errors from the formatter are not modelled.
- The derived `Clone`, `Copy`, `PartialEq`, `Eq`, `PartialOrd`, `Ord` and `Hash` (src/status.rs:6) and `From<&StatusCode>` (src/status.rs:112-117): Dafny's own equality and ordering on the newtype are the same structural relations on the wrapped value.
- The `macro_rules!` mechanism (src/status.rs:138-162): only its expansion is modelled.
- `InvalidStatusCode::new` (src/status.rs:188-194): it is the datatype's only constructor.
- The overflow behaviour of `u16` arithmetic (panic in debug builds, wrap-around in release builds): `MulU16` and `AddU16` require that no overflow happens, and `from_bytes` is proved to meet that requirement.
- `MulU16` and `AddU16` (src/status.rs:39) have no `ensures`: they stand in for the built-in `u16` `*` and `+`, and what they contribute is their `requires`, the no-overflow obligation that `from_bytes` discharges.
- src/lib.rs: module wiring; its one test (`OK.is_success()`) is the `Default` and `OnlyOkSucceeds` contracts.
