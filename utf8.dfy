/**
 * The bytes of a Rust `&str`: its UTF-8 encoding. `StatusCode::from_str`
 * hands `s.as_ref()` (that byte slice) to `StatusCode::from_bytes`, so the
 * parser sees one byte per ASCII character and two to four bytes for any
 * other character.
 */
module Utf8 {
  import opened Prelude

  /** The UTF-8 encoding of one Unicode scalar value. */
  function EncodeChar(c: char): (r: seq<Byte>)
    ensures 1 <= |r| <= 4
    ensures (c as int < 0x80) <==> |r| == 1
    ensures |r| == 1 ==> r[0] == c as int
    ensures |r| > 1 ==> r[0] >= 0xC0
    ensures forall i :: 1 <= i < |r| ==> 0x80 <= r[i] < 0xC0
  {
    var n := c as int;
    if n < 0x80 then
      [n]
    else if n < 0x800 then
      [0xC0 + n / 0x40, 0x80 + n % 0x40]
    else if n < 0x1_0000 then
      [0xE0 + n / 0x1000, 0x80 + (n / 0x40) % 0x40, 0x80 + n % 0x40]
    else
      [0xF0 + n / 0x4_0000, 0x80 + (n / 0x1000) % 0x40, 0x80 + (n / 0x40) % 0x40, 0x80 + n % 0x40]
  }

  /** True when every character of `s` is ASCII. */
  predicate IsAscii(s: string) {
    forall i :: 0 <= i < |s| ==> s[i] as int < 0x80
  }

  /** The UTF-8 encoding of a string: the encodings of its characters, in order. */
  function Encode(s: string): (r: seq<Byte>)
    ensures |r| >= |s|
    ensures s == [] <==> r == []
    ensures s != [] ==> r[0] == EncodeChar(s[0])[0]
  {
    if s == [] then [] else EncodeChar(s[0]) + Encode(s[1..])
  }

  /** An ASCII string encodes to its character codes, one byte per character. */
  lemma {:induction false} EncodeAscii(s: string)
    requires IsAscii(s)
    ensures |Encode(s)| == |s|
    ensures forall i :: 0 <= i < |s| ==> Encode(s)[i] == s[i] as int
  {
    if s != [] {
      EncodeAscii(s[1..]);
    }
  }

  /** The encoding is exactly as long as the string if and only if the string is ASCII. */
  lemma {:induction false} EncodeLengthIffAscii(s: string)
    ensures |Encode(s)| == |s| <==> IsAscii(s)
  {
    if s != [] {
      EncodeLengthIffAscii(s[1..]);
      if !IsAscii(s[1..]) {
        var i :| 0 <= i < |s[1..]| && s[1..][i] as int >= 0x80;
        assert s[i + 1] as int >= 0x80;
      }
      if IsAscii(s[1..]) && s[0] as int < 0x80 {
        forall i | 0 <= i < |s| ensures s[i] as int < 0x80 {
          if i > 0 { assert s[i] == s[1..][i - 1]; }
        }
      }
    }
  }

  /** A string is ASCII exactly when every byte of its encoding is an ASCII byte. */
  lemma {:induction false} AsciiIffAsciiBytes(s: string)
    ensures IsAscii(s) <==> forall k :: 0 <= k < |Encode(s)| ==> Encode(s)[k] < 0x80
  {
    if s != [] {
      var tail := s[1..];
      AsciiIffAsciiBytes(tail);
      var head := EncodeChar(s[0]);
      assert Encode(s) == head + Encode(tail);
      if IsAscii(s) {
        assert IsAscii(tail) by {
          forall i | 0 <= i < |tail| ensures tail[i] as int < 0x80 {
            assert tail[i] == s[i + 1];
          }
        }
        assert s[0] as int < 0x80 && head == [s[0] as int];
        forall k | 0 <= k < |Encode(s)| ensures Encode(s)[k] < 0x80 {
          if k >= 1 {
            assert Encode(s)[k] == Encode(tail)[k - 1];
          }
        }
      } else if s[0] as int < 0x80 {
        var i :| 0 <= i < |s| && s[i] as int >= 0x80;
        assert tail[i - 1] == s[i];
        var k :| 0 <= k < |Encode(tail)| && Encode(tail)[k] >= 0x80;
        assert Encode(s)[|head| + k] == Encode(tail)[k];
      } else {
        assert Encode(s)[0] >= 0xC0;
      }
    }
  }
}
