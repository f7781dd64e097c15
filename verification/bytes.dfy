/**
  Bytes of the flat data file, and the two conversions between text and
  bytes the engine performs: Rust strings are stored as UTF-8 (so the
  offset arithmetic counts UTF-8 bytes), while the index reader turns each
  byte it reads back into the character with that code (`byte as char`).
 */
module Bytes {

  newtype byte = x: int | 0 <= x < 256

  const Comma: byte := 44
  const Newline: byte := 10

  /** A field or row delimiter of the data file. */
  predicate IsDelimiter(b: byte) {
    b == Comma || b == Newline
  }

  /** The UTF-8 encoding of one Unicode scalar value. */
  function EncodeChar(c: char): (bs: seq<byte>)
    ensures 1 <= |bs| <= 4
    ensures (c as int < 0x80) == (|bs| == 1)
    ensures |bs| == 1 ==> bs[0] as int == c as int
    ensures |bs| > 1 ==> forall i :: 0 <= i < |bs| ==> bs[i] >= 0x80
  {
    var cp := c as int;
    if cp < 0x80 then
      [cp as byte]
    else if cp < 0x800 then
      [(0xC0 + cp / 64) as byte, (0x80 + cp % 64) as byte]
    else if cp < 0x10000 then
      [(0xE0 + cp / 4096) as byte, (0x80 + (cp / 64) % 64) as byte, (0x80 + cp % 64) as byte]
    else
      [(0xF0 + cp / 262144) as byte, (0x80 + (cp / 4096) % 64) as byte,
       (0x80 + (cp / 64) % 64) as byte, (0x80 + cp % 64) as byte]
  }

  /** `s.as_bytes()`: the UTF-8 encoding of a string. */
  function Utf8(s: string): (bs: seq<byte>)
    ensures |s| <= |bs| <= 4 * |s|
  {
    if |s| == 0 then [] else EncodeChar(s[0]) + Utf8(s[1..])
  }

  /** Encoding distributes over concatenation. */
  lemma {:induction false} Utf8Append(a: string, b: string)
    ensures Utf8(a + b) == Utf8(a) + Utf8(b)
  {
    if |a| > 0 {
      assert (a + b)[1..] == a[1..] + b;
      Utf8Append(a[1..], b);
    } else {
      assert a + b == b;
    }
  }

  /** The index reader's `buffer[0] as char` applied to every byte. */
  function Latin1(bs: seq<byte>): (s: string)
    ensures |s| == |bs|
    ensures forall i :: 0 <= i < |bs| ==> s[i] as int == bs[i] as int
  {
    seq(|bs|, i requires 0 <= i < |bs| => bs[i] as char)
  }

  predicate IsAscii(s: string) {
    forall i :: 0 <= i < |s| ==> s[i] as int < 0x80
  }

  /** A field value the flat file can hold without quoting: no comma and no newline. */
  predicate IsPlainField(s: string) {
    forall i :: 0 <= i < |s| ==> s[i] != ',' && s[i] != '\n'
  }

  /** Every UTF-8 byte of a character other than ',' or '\n' is not a delimiter. */
  lemma EncodeCharHasNoDelimiter(c: char)
    requires c != ',' && c != '\n'
    ensures forall i :: 0 <= i < |EncodeChar(c)| ==> !IsDelimiter(EncodeChar(c)[i])
  {
  }

  /** A plain field encodes to bytes free of delimiters. */
  lemma {:induction false} PlainFieldHasNoDelimiter(s: string)
    requires IsPlainField(s)
    ensures forall i :: 0 <= i < |Utf8(s)| ==> !IsDelimiter(Utf8(s)[i])
  {
    if |s| > 0 {
      EncodeCharHasNoDelimiter(s[0]);
      assert IsPlainField(s[1..]) by {
        forall i | 0 <= i < |s[1..]| ensures s[1..][i] != ',' && s[1..][i] != '\n' {
          assert s[1..][i] == s[i + 1];
        }
      }
      PlainFieldHasNoDelimiter(s[1..]);
      var head := EncodeChar(s[0]);
      var tail := Utf8(s[1..]);
      forall i | 0 <= i < |Utf8(s)| ensures !IsDelimiter(Utf8(s)[i]) {
        if i < |head| {
          assert Utf8(s)[i] == head[i];
        } else {
          assert Utf8(s)[i] == tail[i - |head|];
        }
      }
    }
  }

  /** For ASCII text, UTF-8 encoding is one byte per character. */
  lemma {:induction false} AsciiEncodesBytewise(s: string)
    requires IsAscii(s)
    ensures |Utf8(s)| == |s|
    ensures forall i :: 0 <= i < |s| ==> Utf8(s)[i] as int == s[i] as int
  {
    if |s| > 0 {
      assert IsAscii(s[1..]) by {
        forall i | 0 <= i < |s[1..]| ensures s[1..][i] as int < 0x80 {
          assert s[1..][i] == s[i + 1];
        }
      }
      AsciiEncodesBytewise(s[1..]);
      assert Utf8(s) == [s[0] as int as byte] + Utf8(s[1..]);
      forall i | 0 <= i < |s| ensures Utf8(s)[i] as int == s[i] as int {
        if i > 0 {
          assert Utf8(s)[i] == Utf8(s[1..])[i - 1];
          assert s[i] == s[1..][i - 1];
        }
      }
    }
  }

  /** Reading back the UTF-8 bytes of ASCII text byte by byte yields the text. */
  lemma AsciiRoundTrip(s: string)
    requires IsAscii(s)
    ensures Latin1(Utf8(s)) == s
  {
    AsciiEncodesBytewise(s);
  }
}
