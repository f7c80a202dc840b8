/** The byte/string helpers of main.js (`asciiToBytes`, `bytesToAscii`),
    which stand in for TextEncoder/TextDecoder when the API key is written
    to and read from disk. A JavaScript string is a sequence of UTF-16
    code units (a character above U+FFFF is two of them); a byte array is
    a `Uint8Array`. */
module Ascii {

  /** One UTF-16 code unit, what `charCodeAt` returns. */
  type CodeUnit = x: int | 0 <= x < 0x1_0000

  /** A JavaScript string. */
  type JsString = seq<CodeUnit>

  /** One element of a `Uint8Array`. */
  type Byte = x: int | 0 <= x < 256

  /** `charCodeAt(i) & 0xff`: the low eight bits of a character code. */
  function LowByte(c: CodeUnit): Byte {
    c % 256
  }

  /** `String.fromCharCode(b)` for a byte value. */
  function CharOf(b: Byte): CodeUnit {
    b
  }

  /** The bytes `asciiToBytes` produces for a string. */
  function BytesOf(s: JsString): (r: seq<Byte>)
    ensures |r| == |s|
    ensures forall i :: 0 <= i < |s| ==> r[i] == s[i] % 256
  {
    if s == [] then [] else [LowByte(s[0])] + BytesOf(s[1..])
  }

  /** The string `bytesToAscii` produces for a byte sequence. */
  function StringOf(b: seq<Byte>): (r: JsString)
    ensures |r| == |b|
    ensures forall i :: 0 <= i < |b| ==> r[i] == b[i]
  {
    if b == [] then [] else [CharOf(b[0])] + StringOf(b[1..])
  }

  /** Every character code fits in one byte (a Latin-1 string). */
  predicate IsLatin1(s: JsString) {
    forall i :: 0 <= i < |s| ==> s[i] < 256
  }

  /** asciiToBytes (main.js:52-56): fills a fresh array of the string's
      length, one byte per character. */
  method AsciiToBytes(str: JsString) returns (u: array<Byte>)
    ensures fresh(u)
    ensures u[..] == BytesOf(str)
  {
    u := new Byte[|str|];
    for i := 0 to |str|
      invariant forall k :: 0 <= k < i ==> u[k] == LowByte(str[k])
    {
      u[i] := LowByte(str[i]);
    }
  }

  /** bytesToAscii (main.js:57-62): appends one character per byte. */
  method BytesToAscii(u: array<Byte>) returns (s: JsString)
    ensures s == StringOf(u[..])
  {
    s := [];
    for i := 0 to u.Length
      invariant |s| == i
      invariant forall k :: 0 <= k < i ==> s[k] == CharOf(u[k])
    {
      s := s + [CharOf(u[i])];
    }
  }

  /** Decoding bytes to a string and encoding it again gives back the
      original bytes. */
  lemma BytesRoundTrip(b: seq<Byte>)
    ensures BytesOf(StringOf(b)) == b
  {
    var r := BytesOf(StringOf(b));
    forall i | 0 <= i < |b| ensures r[i] == b[i] {
      assert StringOf(b)[i] == b[i];
    }
  }

  /** Encoding a string and decoding the bytes gives back the string exactly
      when every character code is below 256; otherwise the high bits are
      lost. */
  lemma StringRoundTrip(s: JsString)
    ensures StringOf(BytesOf(s)) == s <==> IsLatin1(s)
  {
    var r := StringOf(BytesOf(s));
    if IsLatin1(s) {
      forall i | 0 <= i < |s| ensures r[i] == s[i] {
        assert r[i] == s[i] % 256 == s[i];
      }
    } else {
      var i :| 0 <= i < |s| && s[i] >= 256;
      assert r[i] < 256;
    }
  }

  /** Output of bytesToAscii is always Latin-1, so asciiToBytes never loses
      information on it. */
  lemma StringOfIsLatin1(b: seq<Byte>)
    ensures IsLatin1(StringOf(b))
    ensures StringOf(BytesOf(StringOf(b))) == StringOf(b)
  {
    BytesRoundTrip(b);
  }
}
