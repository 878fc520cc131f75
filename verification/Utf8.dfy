/**
 UTF-8: the bytes of a string, and the lossy reading of bytes as a string in which every
 maximal ill-formed piece becomes the replacement character U+FFFD.
 */
module Utf8 {
  import opened Prelude

  const REPLACEMENT: char := '\U{FFFD}'

  /** The one to four bytes of a scalar value. */
  function EncodeChar(c: char): (bs: seq<Byte>)
    ensures 1 <= |bs| <= 4
  {
    var n := c as int;
    var m := n / 64;
    var h := m / 64;
    if n < 0x80 then [n]
    else if n < 0x800 then [0xC0 + m, 0x80 + n % 64]
    else if n < 0x1_0000 then [0xE0 + h, 0x80 + m % 64, 0x80 + n % 64]
    else [0xF0 + h / 64, 0x80 + h % 64, 0x80 + m % 64, 0x80 + n % 64]
  }

  function Encode(s: string): (bs: seq<Byte>) {
    if s == [] then [] else EncodeChar(s[0]) + Encode(s[1..])
  }

  predicate Tail(b: Byte) {
    0x80 <= b < 0xC0
  }

  /**
   Whether `b` may follow the lead byte: the second byte excludes overlong forms, surrogates and values
   past U+10FFFF.
   */
  predicate SecondOk(lead: Byte, b: Byte) {
    if lead == 0xE0 then 0xA0 <= b < 0xC0
    else if lead == 0xED then 0x80 <= b < 0xA0
    else if lead == 0xF0 then 0x90 <= b < 0xC0
    else if lead == 0xF4 then 0x80 <= b < 0x90
    else Tail(b)
  }

  /** How many bytes a lead byte announces; 0 for a byte that cannot start a character. */
  function Announced(lead: Byte): (k: nat)
    ensures k <= 4
  {
    if lead < 0x80 then 1
    else if 0xC2 <= lead < 0xE0 then 2
    else if 0xE0 <= lead < 0xF0 then 3
    else if 0xF0 <= lead < 0xF5 then 4
    else 0
  }

  /** The length of the longest prefix of `bs` that some well-formed character starts with (at least 1). */
  function Piece(bs: seq<Byte>): (k: nat)
    requires bs != []
    ensures 1 <= k <= |bs|
  {
    var want := Announced(bs[0]);
    if want <= 1 || |bs| == 1 || !SecondOk(bs[0], bs[1]) then 1
    else if want == 2 || |bs| == 2 || !Tail(bs[2]) then 2
    else if want == 3 || |bs| == 3 || !Tail(bs[3]) then 3
    else 4
  }

  function Scalar(bs: seq<Byte>): (n: int)
    requires bs != [] && |bs| == Announced(bs[0])
  {
    var lead: int, tail: int := bs[0], bs[|bs| - 1];
    if |bs| == 1 then lead
    else if |bs| == 2 then (lead - 0xC0) * 64 + (tail - 0x80)
    else
      var b1: int := bs[1];
      if |bs| == 3 then ((lead - 0xE0) * 64 + (b1 - 0x80)) * 64 + (tail - 0x80)
      else
        var b2: int := bs[2];
        (((lead - 0xF0) * 64 + (b1 - 0x80)) * 64 + (b2 - 0x80)) * 64 + (tail - 0x80)
  }

  predicate IsScalar(n: int) {
    0 <= n < 0xD800 || 0xE000 <= n < 0x11_0000
  }

  function DecodePiece(bs: seq<Byte>): char
    requires bs != []
  {
    if |bs| == Announced(bs[0]) && IsScalar(Scalar(bs)) then Scalar(bs) as char else REPLACEMENT
  }

  /** The lossy reading of arbitrary bytes. */
  function Lossy(bs: seq<Byte>): string {
    if bs == [] then [] else
      var k := Piece(bs);
      [DecodePiece(bs[..k])] + Lossy(bs[k..])
  }

  lemma ScalarOfChar(c: char)
    ensures |EncodeChar(c)| == Announced(EncodeChar(c)[0])
    ensures Scalar(EncodeChar(c)) == c as int
    ensures IsScalar(c as int)
  {
    var n := c as int;
    var m := n / 64;
    var h := m / 64;
    assert n == m * 64 + n % 64 && m == h * 64 + m % 64 && h == h / 64 * 64 + h % 64;
  }

  lemma PieceOfChar(c: char, rest: seq<Byte>)
    ensures Piece(EncodeChar(c) + rest) == |EncodeChar(c)|
  {
    var bs := EncodeChar(c);
    var all := bs + rest;
    assert forall i :: 0 <= i < |bs| ==> all[i] == bs[i];
    ScalarOfChar(c);
    var n := c as int;
    var m := n / 64;
    assert n == m * 64 + n % 64 && m == m / 64 * 64 + m % 64;
  }

  /** The decoder takes back exactly the bytes of one character, whatever follows them. */
  lemma LossyChar(c: char, rest: seq<Byte>)
    ensures Lossy(EncodeChar(c) + rest) == [c] + Lossy(rest)
  {
    var bs := EncodeChar(c);
    var all := bs + rest;
    assert all[..|bs|] == bs && all[|bs|..] == rest;
    PieceOfChar(c, rest);
    ScalarOfChar(c);
  }

  lemma LossyCons(c: char, t: string, s: string, tail: seq<Byte>, x: string)
    requires s == [c] + t && Lossy(tail) == t + x
    ensures Lossy(EncodeChar(c) + tail) == s + x
  {
    LossyChar(c, tail);
  }

  /** Reading back a string's own bytes is lossless, in front of any other bytes. */
  lemma {:induction false} LossyEncode(s: string, rest: seq<Byte>)
    ensures Lossy(Encode(s) + rest) == s + Lossy(rest)
  {
    if s == [] {
      assert Encode(s) + rest == rest;
    } else {
      var front, back := EncodeChar(s[0]), Encode(s[1..]);
      assert (front + back) + rest == front + (back + rest);
      LossyEncode(s[1..], rest);
      LossyCons(s[0], s[1..], s, back + rest, Lossy(rest));
    }
  }

  /** Bytes below 128 read as the characters of the same codes. */
  function Chars(bs: seq<Byte>): (s: string)
    ensures |s| == |bs|
  {
    seq(|bs|, i requires 0 <= i < |bs| => bs[i] as char)
  }

  predicate IsAscii(bs: seq<Byte>) {
    forall i :: 0 <= i < |bs| ==> bs[i] < 128
  }

  lemma {:induction false} LossyAscii(bs: seq<Byte>)
    requires IsAscii(bs)
    ensures Lossy(bs) == Chars(bs)
  {
    if bs != [] {
      LossyAscii(bs[1..]);
      assert Piece(bs) == 1 && bs[..1] == [bs[0]];
      assert Chars(bs) == [bs[0] as char] + Chars(bs[1..]);
    }
  }

  lemma {:induction false} EncodeAscii(bs: seq<Byte>)
    requires IsAscii(bs)
    ensures Encode(Chars(bs)) == bs
  {
    if bs != [] {
      EncodeAscii(bs[1..]);
      assert Chars(bs)[1..] == Chars(bs[1..]);
      assert bs == [bs[0]] + bs[1..];
    }
  }

  lemma {:induction false} EncodeConcat(a: string, b: string)
    ensures Encode(a + b) == Encode(a) + Encode(b)
  {
    hide EncodeChar;
    if a == [] {
      assert a + b == b;
    } else {
      EncodeConcat(a[1..], b);
      assert (a + b)[1..] == a[1..] + b;
    }
  }

  lemma LossyWhole(s: string)
    ensures Lossy(Encode(s)) == s
  {
    LossyEncode(s, []);
    assert Encode(s) + [] == Encode(s) && s + [] == s;
  }

  /** Every lead byte is followed by exactly the tail it announces. */
  predicate WellFormed(bs: seq<Byte>) {
    bs == [] || (Piece(bs) == Announced(bs[0]) && WellFormed(bs[Piece(bs)..]))
  }

  lemma SplitScalar(q: int, tail: Byte)
    requires Tail(tail)
    ensures var n := q * 64 + (tail as int - 0x80); n / 64 == q && n % 64 == tail as int - 0x80
  {
  }

  lemma CharOfTwo(p: seq<Byte>)
    requires |p| == 2 && Announced(p[0]) == 2 && Tail(p[1])
    ensures EncodeChar(DecodePiece(p)) == p
  {
    SplitScalar(p[0] as int - 0xC0, p[1]);
  }

  lemma CharOfThree(p: seq<Byte>)
    requires |p| == 3 && Announced(p[0]) == 3 && SecondOk(p[0], p[1]) && Tail(p[2])
    ensures EncodeChar(DecodePiece(p)) == p
  {
    var lead := p[0] as int - 0xE0;
    SplitScalar(lead, p[1]);
    SplitScalar(lead * 64 + (p[1] as int - 0x80), p[2]);
  }

  lemma CharOfFour(p: seq<Byte>)
    requires |p| == 4 && Announced(p[0]) == 4 && SecondOk(p[0], p[1]) && Tail(p[2]) && Tail(p[3])
    ensures EncodeChar(DecodePiece(p)) == p
  {
    var lead := p[0] as int - 0xF0;
    var m := lead * 64 + (p[1] as int - 0x80);
    SplitScalar(lead, p[1]);
    SplitScalar(m, p[2]);
    SplitScalar(m * 64 + (p[2] as int - 0x80), p[3]);
  }

  /** A complete piece is the encoding of the scalar value it denotes. */
  lemma CharOfPiece(bs: seq<Byte>)
    requires bs != [] && Piece(bs) == Announced(bs[0])
    ensures EncodeChar(DecodePiece(bs[..Piece(bs)])) == bs[..Piece(bs)]
  {
    var k := Piece(bs);
    var p := bs[..k];
    if k == 2 {
      CharOfTwo(p);
    } else if k == 3 {
      CharOfThree(p);
    } else if k == 4 {
      CharOfFour(p);
    }
  }

  lemma {:induction false} EncodeWellFormed(s: string)
    ensures WellFormed(Encode(s))
  {
    if s != [] {
      var front, back := EncodeChar(s[0]), Encode(s[1..]);
      PieceOfChar(s[0], back);
      ScalarOfChar(s[0]);
      assert (front + back)[|front|..] == back;
      EncodeWellFormed(s[1..]);
    }
  }

  lemma {:induction false} WellFormedEncodes(bs: seq<Byte>)
    requires WellFormed(bs)
    ensures Encode(Lossy(bs)) == bs
    decreases |bs|
  {
    hide EncodeChar, DecodePiece;
    if bs != [] {
      var k := Piece(bs);
      CharOfPiece(bs);
      WellFormedEncodes(bs[k..]);
      assert ([DecodePiece(bs[..k])] + Lossy(bs[k..]))[1..] == Lossy(bs[k..]);
      assert bs == bs[..k] + bs[k..];
    }
  }

  /** Bytes are the encoding of some string, namely of what they read as, exactly when they are well formed. */
  lemma WellFormedExact(bs: seq<Byte>)
    ensures WellFormed(bs) <==> Encode(Lossy(bs)) == bs
    ensures WellFormed(bs) <==> exists s :: Encode(s) == bs
  {
    if WellFormed(bs) { WellFormedEncodes(bs); }
    forall s | Encode(s) == bs
      ensures WellFormed(bs)
    {
      EncodeWellFormed(s);
    }
  }

  // ---------------------------------------------------------------- bytes cut short

  lemma EncodeCons(c: char, t: string)
    ensures Encode([c] + t) == EncodeChar(c) + Encode(t)
  {
    assert ([c] + t)[1..] == t;
  }

  /** The beginning of a character's bytes reads as one replacement character. */
  lemma LossyOfBeginning(c: char, w: nat)
    requires 0 < w < |EncodeChar(c)|
    ensures Lossy(EncodeChar(c)[..w]) == [REPLACEMENT]
  {
    var bs := EncodeChar(c)[..w];
    var m := c as int / 64;
    assert m == m / 64 * 64 + m % 64;
    ScalarOfChar(c);
    assert Announced(bs[0]) == |EncodeChar(c)| && Piece(bs) == w;
    assert bs[..w] == bs && bs[w..] == [];
  }

  /**
   Bytes of a string cut off at `w` read as the characters that are whole, and one replacement
   character for the one that is not.
   */
  lemma {:induction false} LossyOfCut(s: string, w: nat) returns (p: nat)
    requires w < |Encode(s)|
    ensures p < |s| && |Encode(s[..p])| <= w < |Encode(s[..p + 1])|
    ensures Lossy(Encode(s)[..w]) == s[..p] + if |Encode(s[..p])| == w then [] else [REPLACEMENT]
  {
    hide Lossy, Encode, EncodeChar;
    EncodeNothing();
    assert s != [];
    var c, t := s[0], s[1..];
    var head := EncodeChar(c);
    assert s == [c] + t;
    EncodeCons(c, t);
    if w < |head| {
      p := 0;
      assert s[..1] == [c] + [] && s[..0] == [];
      EncodeCons(c, []);
      assert Encode(s)[..w] == head[..w];
      if w > 0 {
        LossyOfBeginning(c, w);
        assert [] + [REPLACEMENT] == [REPLACEMENT];
      } else {
        LossyNothing();
        assert head[..0] == [];
      }
    } else {
      p := LossyOfCut(t, w - |head|);
      EncodeCons(c, t[..p]);
      EncodeCons(c, t[..p + 1]);
      assert s[..p + 1] == [c] + t[..p] && s[..p + 2] == [c] + t[..p + 1];
      assert Encode(s)[..w] == head + Encode(t)[..w - |head|];
      LossyChar(c, Encode(t)[..w - |head|]);
      p := p + 1;
    }
  }

  lemma EncodeNothing()
    ensures Encode([]) == []
  {
  }

  lemma LossyNothing()
    ensures Lossy([]) == []
  {
  }

  /** A beginning of a string has no more bytes than the string. */
  lemma EncodePrefix(s: string, p: nat, q: nat)
    requires p <= q <= |s|
    ensures |Encode(s[..p])| <= |Encode(s[..q])|
  {
    hide Encode;
    assert s[..q] == s[..p] + s[p..q];
    EncodeConcat(s[..p], s[p..q]);
  }
}
