/** Hexadecimal text fields: two digits a byte, the high or the low nibble first. */
module Hex {
  import opened Prelude
  import opened BinaryInt
  import opened Strings

  function HexChar(n: nat): (c: char)
    requires n < 16
  {
    if n < 10 then (48 + n) as char else (87 + n) as char
  }

  /** `to_digit(16)`: both letter cases are read. */
  function HexValue(c: char): (v: Option<nat>)
    ensures v.Some? ==> v.value < 16
  {
    var n := c as int;
    if 48 <= n <= 57 then Some(n - 48)
    else if 97 <= n <= 102 then Some(n - 87)
    else if 65 <= n <= 70 then Some(n - 55)
    else None
  }

  function Pair(b: Byte, order: Endian): string {
    match order
    case Big => [HexChar(b / 16), HexChar(b % 16)]
    case Little => [HexChar(b % 16), HexChar(b / 16)]
  }

  /** The text of a byte string: two digits a byte. */
  function Show(bs: seq<Byte>, order: Endian): (s: string)
    ensures |s| == 2 * |bs|
  {
    seq(2 * |bs|, i requires 0 <= i < 2 * |bs| => Pair(bs[i / 2], order)[i % 2])
  }

  predicate AllHex(s: string) {
    forall i :: 0 <= i < |s| ==> HexValue(s[i]).Some?
  }

  function Join(a: char, b: char, order: Endian): Byte
    requires HexValue(a).Some? && HexValue(b).Some?
  {
    var x, y := HexValue(a).value, HexValue(b).value;
    if order.Big? then 16 * x + y else 16 * y + x
  }

  function Read(s: string, order: Endian): (bs: seq<Byte>)
    requires |s| % 2 == 0 && AllHex(s)
    ensures |bs| == |s| / 2
  {
    seq(|s| / 2, j requires 0 <= j < |s| / 2 => Join(s[2 * j], s[2 * j + 1], order))
  }

  function WithoutBlanks(s: string): string {
    if s == [] then []
    else WithoutBlanks(s[..|s| - 1]) + (if IsWhitespace(s[|s| - 1]) then [] else [s[|s| - 1]])
  }

  /** Blanks dropped, an even number of digits, no longer than the field, zero-filled on the right. */
  function Encode(s: string, width: nat, order: Endian): (r: Result<seq<Byte>>)
    ensures r.Ok? ==> |r.value| == width
  {
    var clean := WithoutBlanks(s);
    if |clean| % 2 != 0 || !AllHex(clean) || |clean| / 2 > width then Err
    else Ok(Read(clean, order) + Repeat(0, width - |clean| / 2))
  }

  method ShowBytes(bs: seq<Byte>, order: Endian) returns (s: string)
    ensures s == Show(bs, order)
  {
    s := [];
    for i := 0 to |bs|
      invariant |s| == 2 * i
      invariant forall j :: 0 <= j < i ==> [s[2 * j], s[2 * j + 1]] == Pair(bs[j], order)
    {
      s := s + Pair(bs[i], order);
    }
    ghost var all := Show(bs, order);
    forall i | 0 <= i < |s|
      ensures s[i] == all[i]
    {
      var j := i / 2;
      assert i == 2 * j || i == 2 * j + 1;
      assert [s[2 * j], s[2 * j + 1]] == Pair(bs[j], order);
    }
  }

  method EncodeText(s: string, width: nat, order: Endian) returns (r: Result<seq<Byte>>)
    ensures r == Encode(s, width, order)
  {
    var clean := WithoutBlanks(s);
    if |clean| % 2 != 0 {
      return Err;
    }
    var bytes: seq<Byte> := [];
    for i := 0 to |clean| / 2
      invariant |bytes| == i && forall j :: 0 <= j < 2 * i ==> HexValue(clean[j]).Some?
      invariant forall j :: 0 <= j < i ==> bytes[j] == Join(clean[2 * j], clean[2 * j + 1], order)
    {
      if HexValue(clean[2 * i]).None? || HexValue(clean[2 * i + 1]).None? {
        return Err;
      }
      bytes := bytes + [Join(clean[2 * i], clean[2 * i + 1], order)];
    }
    if |bytes| > width {
      return Err;
    }
    assert bytes == Read(clean, order);
    return Ok(bytes + Repeat(0, width - |bytes|));
  }

  /** The lower-case form the decoder shows. */
  function Lower(s: string): (r: string)
    ensures |r| == |s|
  {
    seq(|s|, i requires 0 <= i < |s| => if 'A' <= s[i] <= 'F' then (s[i] as int + 32) as char else s[i])
  }

  lemma PairOfJoin(a: char, b: char, order: Endian)
    requires HexValue(a).Some? && HexValue(b).Some?
    ensures Pair(Join(a, b, order), order) == [Lower([a])[0], Lower([b])[0]]
  {
    hide HexValue, HexChar;
    CharOfValue(a);
    CharOfValue(b);
    var x, y := HexValue(a).value, HexValue(b).value;
    assert (16 * x + y) / 16 == x && (16 * x + y) % 16 == y;
    assert (16 * y + x) / 16 == y && (16 * y + x) % 16 == x;
  }

  lemma CharOfValue(c: char)
    requires HexValue(c).Some?
    ensures HexChar(HexValue(c).value) == Lower([c])[0]
  {
  }

  lemma JoinOfPair(b: Byte, order: Endian)
    ensures var p := Pair(b, order);
            HexValue(p[0]).Some? && HexValue(p[1]).Some? && Join(p[0], p[1], order) == b &&
            !IsWhitespace(p[0]) && !IsWhitespace(p[1])
  {
  }

  lemma ShowAt(bs: seq<Byte>, order: Endian, j: nat)
    requires j < |bs|
    ensures Show(bs, order)[2 * j] == Pair(bs[j], order)[0]
    ensures Show(bs, order)[2 * j + 1] == Pair(bs[j], order)[1]
  {
    hide Pair;
  }

  /** Whatever bytes are shown, they are shown in lower-case hexadecimal digits. */
  lemma ShownIsHex(bs: seq<Byte>, order: Endian)
    ensures var s := Show(bs, order);
            forall i :: 0 <= i < |s| ==> '0' <= s[i] <= '9' || 'a' <= s[i] <= 'f'
  {
    var s := Show(bs, order);
    forall i | 0 <= i < |s|
      ensures '0' <= s[i] <= '9' || 'a' <= s[i] <= 'f'
    {
      assert s[i] == Pair(bs[i / 2], order)[i % 2];
    }
  }

  lemma HexZero()
    ensures forall order: Endian :: Pair(0, order) == ['0', '0']
  {
  }

  /** What comes back: the digits in lower case without blanks, then zeros to the field's width. */
  lemma RoundTrip(s: string, width: nat, order: Endian)
    requires Encode(s, width, order).Ok?
    ensures |Encode(s, width, order).value| == width
    ensures Show(Encode(s, width, order).value, order)
         == Lower(WithoutBlanks(s)) + Repeat('0', 2 * width - |WithoutBlanks(s)|)
  {
    hide WithoutBlanks, Pair, Join, HexValue, HexChar;
    HexZero();
    var clean, bs := WithoutBlanks(s), Encode(s, width, order).value;
    var back := Lower(clean) + Repeat('0', 2 * width - |clean|);
    forall i | 0 <= i < 2 * width
      ensures Show(bs, order)[i] == back[i]
    {
      var j := i / 2;
      assert i == 2 * j || i == 2 * j + 1;
      if j < |clean| / 2 {
        assert bs[j] == Join(clean[2 * j], clean[2 * j + 1], order);
        PairOfJoin(clean[2 * j], clean[2 * j + 1], order);
      } else {
        assert bs[j] == 0;
      }
    }
  }

  lemma {:induction false} NoBlanks(s: string)
    requires forall i :: 0 <= i < |s| ==> !IsWhitespace(s[i])
    ensures WithoutBlanks(s) == s
  {
    if s != [] {
      NoBlanks(s[..|s| - 1]);
      assert s == s[..|s| - 1] + [s[|s| - 1]];
    }
  }

  /** Every byte string is the encoding of its own hexadecimal text. */
  lemma BytesRoundTrip(bs: seq<Byte>, order: Endian)
    ensures Encode(Show(bs, order), |bs|, order) == Ok(bs)
  {
    hide Show, HexValue, Pair, Join, WithoutBlanks, IsWhitespace;
    var s := Show(bs, order);
    forall i | 0 <= i < |s|
      ensures HexValue(s[i]).Some? && !IsWhitespace(s[i])
    {
      var j := i / 2;
      assert i == 2 * j || i == 2 * j + 1;
      ShowAt(bs, order, j);
      JoinOfPair(bs[j], order);
    }
    NoBlanks(s);
    forall j | 0 <= j < |bs|
      ensures Read(s, order)[j] == bs[j]
    {
      ShowAt(bs, order, j);
      JoinOfPair(bs[j], order);
    }
    assert Read(s, order) + Repeat(0, 0) == bs;
  }

  lemma HexDigit(n: nat)
    requires n < 16
    ensures HexChar(n) == "0123456789abcdef"[n]
  {
  }

  /** Byte j is shown as its two digits, the high nibble's first in big-endian order and last otherwise. */
  lemma ShownAt(bs: seq<Byte>, order: Endian, j: nat)
    requires j < |bs|
    ensures var high, low := "0123456789abcdef"[bs[j] / 16], "0123456789abcdef"[bs[j] % 16];
            Show(bs, order)[2 * j] == (if order.Big? then high else low) &&
            Show(bs, order)[2 * j + 1] == (if order.Big? then low else high)
  {
    hide HexChar;
    ShowAt(bs, order, j);
    HexDigit(bs[j] / 16);
    HexDigit(bs[j] % 16);
  }

  /** The digits read by value, in either letter case. */
  lemma HexDigitRead(n: nat)
    requires n < 16
    ensures HexValue("0123456789abcdef"[n]) == Some(n) && HexValue("0123456789ABCDEF"[n]) == Some(n)
  {
  }

  /** Two digits are packed high nibble first in big-endian order and low nibble first otherwise. */
  lemma JoinedAt(s: string, width: nat, order: Endian, j: nat)
    requires Encode(s, width, order).Ok? && j < width
    ensures var clean, b := WithoutBlanks(s), Encode(s, width, order).value[j];
            if 2 * j + 1 < |clean| then
              HexValue(clean[2 * j]).Some? && HexValue(clean[2 * j + 1]).Some? &&
              b / 16 == HexValue(clean[if order.Big? then 2 * j else 2 * j + 1]).value &&
              b % 16 == HexValue(clean[if order.Big? then 2 * j + 1 else 2 * j]).value
            else b == 0
  {
    hide HexValue, WithoutBlanks;
  }
}
