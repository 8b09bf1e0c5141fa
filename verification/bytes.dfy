/** Bytes and the two text encodings the card stack uses. */
module Bytes {

  newtype byte = x: int | 0 <= x < 256

  const CarriageReturn: byte := 13
  const LineFeed: byte := 10
  /** What Encoding.ASCII substitutes for a character it cannot encode. */
  const QuestionMark: byte := 63

  /** Encoding.Default.GetString: each byte becomes the character with that code. */
  function DecodeText(bs: seq<byte>): (s: string)
    ensures |s| == |bs|
    ensures forall i :: 0 <= i < |bs| ==> s[i] as int == bs[i] as int
  {
    if |bs| == 0 then "" else DecodeText(bs[..|bs| - 1]) + [bs[|bs| - 1] as int as char]
  }

  /** Encoding.ASCII.GetBytes of one character: ASCII stays, anything else is '?'. */
  function AsciiByte(c: char): byte
  {
    if c as int < 128 then c as int as byte else QuestionMark
  }

  /** Encoding.ASCII.GetBytes. */
  function AsciiBytes(s: string): (bs: seq<byte>)
    ensures |bs| == |s|
    ensures forall i :: 0 <= i < |s| ==> bs[i] == AsciiByte(s[i])
  {
    if |s| == 0 then [] else AsciiBytes(s[..|s| - 1]) + [AsciiByte(s[|s| - 1])]
  }

  predicate IsAscii(s: string)
  {
    forall i :: 0 <= i < |s| ==> s[i] as int < 128
  }

  /** Text that is pure ASCII survives encoding then decoding unchanged. */
  lemma AsciiRoundTrip(s: string)
    requires IsAscii(s)
    ensures DecodeText(AsciiBytes(s)) == s
  {
    var t := DecodeText(AsciiBytes(s));
    assert |t| == |s|;
    forall i | 0 <= i < |s|
      ensures t[i] == s[i]
    {
      assert t[i] as int == AsciiBytes(s)[i] as int == s[i] as int;
    }
  }

  /** Encoding distributes over concatenation. */
  lemma AsciiBytesAppend(a: string, b: string)
    ensures AsciiBytes(a + b) == AsciiBytes(a) + AsciiBytes(b)
  {
    var l := AsciiBytes(a + b);
    var r := AsciiBytes(a) + AsciiBytes(b);
    assert |l| == |r|;
    forall i | 0 <= i < |l|
      ensures l[i] == r[i]
    {
      if i < |a| {
        assert (a + b)[i] == a[i];
      } else {
        assert (a + b)[i] == b[i - |a|];
      }
    }
  }
}
