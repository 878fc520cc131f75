/**
 The byte encoding of a record. Code page 037 enters only as a pair of inverse maps on the
 256 byte values, so everything proved here holds for any such code page.
 */
module Ebcdic {
  import opened Prelude

  datatype RawEncoding = Ascii | CodePage(toAscii: Byte -> Byte, toEbcdic: Byte -> Byte) {

    ghost predicate Lossless() {
      CodePage? ==>
        forall b: Byte :: toAscii(toEbcdic(b)) == b && toEbcdic(toAscii(b)) == b
    }
  }

  type Encoding = e: RawEncoding | e.Lossless() witness Ascii

  /** The record's bytes as ASCII. */
  function ToAscii(s: seq<Byte>, enc: Encoding): (r: seq<Byte>)
    ensures |r| == |s|
  {
    match enc
    case Ascii => s
    case CodePage(f, _) => seq(|s|, i requires 0 <= i < |s| => f(s[i]))
  }

  /** ASCII bytes as the record stores them. */
  function FromAscii(s: seq<Byte>, enc: Encoding): (r: seq<Byte>)
    ensures |r| == |s|
  {
    match enc
    case Ascii => s
    case CodePage(_, g) => seq(|s|, i requires 0 <= i < |s| => g(s[i]))
  }

  lemma TranscodeRoundTrip(s: seq<Byte>, enc: Encoding)
    ensures ToAscii(FromAscii(s, enc), enc) == s
    ensures FromAscii(ToAscii(s, enc), enc) == s
  {
    assert |ToAscii(FromAscii(s, enc), enc)| == |s|;
  }
}
