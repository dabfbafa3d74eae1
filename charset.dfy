/**
 * Bytes and the platform charset.
 *
 * `new String(bytes)`, `String.getBytes()` and `ByteArrayOutputStream.toString()`
 * all use the JVM's platform charset. The model fixes that charset to ISO-8859-1:
 * every byte decodes to the character with the same code, and a character above
 * U+00FF is encoded as '?', as Java's ISO-8859-1 encoder does. Under this charset
 * a string index and a byte offset are the same number, which is what the
 * multipart parser silently relies on.
 */
module Charset {
  newtype byte = x: int | 0 <= x < 256

  const Unmappable: byte := 0x3F  // '?'

  /** True when every character fits the charset, so encoding loses nothing. */
  predicate IsLatin1(s: string) {
    forall c :: c in s ==> c as int < 256
  }

  function EncodeChar(c: char): byte {
    if c as int < 256 then c as int as byte else Unmappable
  }

  /** `String.getBytes()` */
  function Encode(s: string): (b: seq<byte>)
    ensures |b| == |s|
    ensures forall i :: 0 <= i < |s| ==> b[i] == EncodeChar(s[i])
  {
    seq(|s|, i requires 0 <= i < |s| => EncodeChar(s[i]))
  }

  /** `new String(bytes)` */
  function Decode(b: seq<byte>): (s: string)
    ensures |s| == |b|
    ensures forall i :: 0 <= i < |b| ==> s[i] as int == b[i] as int
    ensures IsLatin1(s)
  {
    seq(|b|, i requires 0 <= i < |b| => b[i] as int as char)
  }

  lemma DecodeEncode(s: string)
    requires IsLatin1(s)
    ensures Decode(Encode(s)) == s
  {
    forall i | 0 <= i < |s|
      ensures Decode(Encode(s))[i] == s[i]
    {
      assert s[i] in s;
    }
  }

  lemma EncodeDecode(b: seq<byte>)
    ensures Encode(Decode(b)) == b
  {
    assert forall i :: 0 <= i < |b| ==> Encode(Decode(b))[i] == b[i];
  }

  lemma Latin1Concat(s: string, t: string)
    requires IsLatin1(s) && IsLatin1(t)
    ensures IsLatin1(s + t)
  {
  }

  lemma EncodeConcat(s: string, t: string)
    ensures Encode(s + t) == Encode(s) + Encode(t)
  {
    assert forall i :: 0 <= i < |s + t| ==> Encode(s + t)[i] == (Encode(s) + Encode(t))[i];
  }

  lemma DecodeConcat(a: seq<byte>, b: seq<byte>)
    ensures Decode(a + b) == Decode(a) + Decode(b)
  {
    assert forall i :: 0 <= i < |a + b| ==> Decode(a + b)[i] == (Decode(a) + Decode(b))[i];
  }
}
