/**
 The template specification: tokens split on blanks outside parentheses, scalar codes, groups, and
 count-prefixed groups that become tables whose length the field before them holds.
 */
module Template {
  import opened Prelude
  import opened Layouts
  import opened DisplayNumber
  import opened BinaryInt
  import opened Addressing
  import opened Ebcdic
  import Decode
  import Encode
  import Normal
  import Picture
  import RoundTrip
  import Strings

  /** The order `=` and `@` stand for, on a little-endian machine. */
  const NATIVE: Endian := Little

  // ---------------------------------------------------------------- tokens

  /** The tokens of a template, `cur` being the one begun and `depth` the parentheses open in it. */
  function Tokens(src: string, depth: nat, cur: string): Result<seq<string>> {
    if src == [] then
      if depth != 0 then Err else Ok(if cur == [] then [] else [cur])
    else
      var c, rest := src[0], src[1..];
      if c == '(' then Tokens(rest, depth + 1, cur + [c])
      else if c == ')' then
        if depth == 0 then Err else Tokens(rest, depth - 1, cur + [c])
      else if Strings.IsWhitespace(c) && depth == 0 then
        var tail :- Tokens(rest, 0, []);
        Ok(if cur == [] then tail else [cur] + tail)
      else Tokens(rest, depth, cur + [c])
  }

  function Tokenize(src: string): Result<seq<string>> {
    Tokens(src, 0, [])
  }

  predicate Follows(whole: Result<seq<string>>, done: seq<string>, rest: Result<seq<string>>) {
    if rest.Err? then whole.Err? else whole == Ok(done + rest.value)
  }

  /** `tokenize`, one character at a time; the running depth is never negative. */
  method TokenizeLoop(src: string) returns (r: Result<seq<string>>)
    ensures r == Tokenize(src)
  {
    var tokens: seq<string>, cur: string, depth := [], [], 0;
    ghost var whole := Tokenize(src);
    if whole.Ok? { assert [] + whole.value == whole.value; }
    assert src[0..] == src;
    for i := 0 to |src|
      invariant depth >= 0
      invariant Follows(whole, tokens, Tokens(src[i..], depth, cur))
    {
      var ch := src[i];
      assert src[i..][0] == ch && src[i..][1..] == src[i + 1..];
      if ch == '(' {
        depth := depth + 1;
        cur := cur + [ch];
      } else if ch == ')' {
        if depth == 0 {
          return Err;
        }
        depth := depth - 1;
        cur := cur + [ch];
      } else if Strings.IsWhitespace(ch) && depth == 0 {
        if cur != [] {
          ghost var tail := Tokens(src[i + 1..], 0, []);
          if tail.Ok? { assert tokens + ([cur] + tail.value) == (tokens + [cur]) + tail.value; }
          tokens := tokens + [cur];
          cur := [];
        }
      } else {
        cur := cur + [ch];
      }
    }
    assert src[|src|..] == [];
    if depth != 0 {
      return Err;
    }
    if cur != [] {
      tokens := tokens + [cur];
    } else {
      assert tokens + [] == tokens;
    }
    return Ok(tokens);
  }

  /** The parentheses open after a piece of a token; None where the token would end or is unbalanced. */
  function DepthAfter(t: string, depth: nat): Option<nat> {
    if t == [] then Some(depth)
    else if t[0] == '(' then DepthAfter(t[1..], depth + 1)
    else if t[0] == ')' then if depth == 0 then None else DepthAfter(t[1..], depth - 1)
    else if Strings.IsWhitespace(t[0]) && depth == 0 then None
    else DepthAfter(t[1..], depth)
  }

  /** A whole token: not empty, balanced, and with no blank outside its parentheses. */
  predicate Whole(t: string) {
    t != [] && DepthAfter(t, 0) == Some(0)
  }

  lemma {:induction false} DepthConcat(a: string, b: string, depth: nat)
    ensures var mid := DepthAfter(a, depth);
            DepthAfter(a + b, depth) == if mid.None? then None else DepthAfter(b, mid.value)
  {
    if a == [] {
      assert a + b == b;
    } else {
      assert (a + b)[1..] == a[1..] + b;
      DepthConcat(a[1..], b, if a[0] == '(' then depth + 1 else if a[0] == ')' && depth > 0 then depth - 1 else depth);
    }
  }

  lemma DepthSnoc(t: string, c: char)
    ensures var mid := DepthAfter(t, 0);
            DepthAfter(t + [c], 0) == if mid.None? then None else DepthAfter([c], mid.value)
    ensures forall depth: nat {:trigger DepthAfter([c], depth)} :: DepthAfter([c], depth) ==
              if c == '(' then Some(depth + 1)
              else if c == ')' then (if depth == 0 then None else Some(depth - 1))
              else if Strings.IsWhitespace(c) && depth == 0 then None
              else Some(depth)
  {
    DepthConcat(t, [c], 0);
    assert [c][1..] == [];
  }

  predicate AllWhole(tokens: seq<string>) {
    forall i :: 0 <= i < |tokens| ==> Whole(tokens[i])
  }

  /** Tokenizing only ever yields whole tokens. */
  lemma {:induction false} TokensWhole(src: string, depth: nat, cur: string)
    requires Tokens(src, depth, cur).Ok? && DepthAfter(cur, 0) == Some(depth)
    ensures AllWhole(Tokens(src, depth, cur).value)
    decreases |src|
  {
    hide DepthAfter;
    if src != [] {
      var c, rest := src[0], src[1..];
      DepthSnoc(cur, c);
      if c == '(' {
        TokensWhole(rest, depth + 1, cur + [c]);
      } else if c == ')' {
        TokensWhole(rest, depth - 1, cur + [c]);
      } else if Strings.IsWhitespace(c) && depth == 0 {
        NoDepth();
        TokensWhole(rest, 0, []);
      } else {
        TokensWhole(rest, depth, cur + [c]);
      }
    }
  }

  lemma NoDepth()
    ensures DepthAfter([], 0) == Some(0)
  {
  }

  /** A piece of a token is taken over as it stands. */
  lemma {:induction false} TokensTake(t: string, rest: string, depth: nat, cur: string)
    requires DepthAfter(t, depth).Some?
    ensures Tokens(t + rest, depth, cur) == Tokens(rest, DepthAfter(t, depth).value, cur + t)
    decreases |t|
  {
    if t == [] {
      assert t + rest == rest && cur + t == cur;
    } else {
      var c := t[0];
      var next := if c == '(' then depth + 1 else if c == ')' then depth - 1 else depth;
      assert (t + rest)[1..] == t[1..] + rest;
      TokensTake(t[1..], rest, next, cur + [c]);
      assert (cur + [c]) + t[1..] == cur + t;
    }
  }

  /** Tokens with a blank between them. */
  function Joined(tokens: seq<string>): string {
    if tokens == [] then [] else tokens[0] + " " + Joined(tokens[1..])
  }

  /** Whole tokens, joined with blanks, are split again into themselves. */
  lemma {:induction false} JoinedTokenize(tokens: seq<string>)
    requires AllWhole(tokens)
    ensures Tokenize(Joined(tokens)) == Ok(tokens)
  {
    if tokens != [] {
      var t, rest := tokens[0], Joined(tokens[1..]);
      assert tokens[0] + " " + rest == t + (" " + rest);
      TokensTake(t, " " + rest, 0, []);
      assert [] + t == t;
      assert (" " + rest)[1..] == rest;
      assert forall i :: 0 <= i < |tokens| - 1 ==> tokens[1..][i] == tokens[i + 1];
      JoinedTokenize(tokens[1..]);
      assert tokens == [t] + tokens[1..];
    }
  }

  /** Splitting yields exactly the lists of whole tokens: each is whole, and joining them splits back. */
  lemma TokenizeNormalises(src: string)
    requires Tokenize(src).Ok?
    ensures AllWhole(Tokenize(src).value) && Tokenize(Joined(Tokenize(src).value)) == Tokenize(src)
  {
    NoDepth();
    TokensWhole(src, 0, []);
    JoinedTokenize(Tokenize(src).value);
  }

  function Total(tokens: seq<string>): nat {
    if tokens == [] then 0 else |tokens[0]| + Total(tokens[1..])
  }

  lemma {:induction false} TokensShorter(src: string, depth: nat, cur: string)
    requires Tokens(src, depth, cur).Ok?
    ensures Total(Tokens(src, depth, cur).value) <= |cur| + |src|
    decreases |src|
  {
    if src == [] {
      if cur != [] { assert [cur][1..] == []; }
    } else {
      var c, rest := src[0], src[1..];
      if c == '(' {
        TokensShorter(rest, depth + 1, cur + [c]);
      } else if c == ')' {
        TokensShorter(rest, depth - 1, cur + [c]);
      } else if Strings.IsWhitespace(c) && depth == 0 {
        TokensShorter(rest, 0, []);
        var tail := Tokens(rest, 0, []).value;
        assert ([cur] + tail)[1..] == tail;
      } else {
        TokensShorter(rest, depth, cur + [c]);
      }
    }
  }

  // ---------------------------------------------------------------- parts of a token

  function OrderControl(token: string): Option<Endian> {
    if token == "<" then Some(Little)
    else if token == ">" || token == "!" then Some(Big)
    else if token == "=" || token == "@" then Some(NATIVE)
    else None
  }

  datatype Named = Named(name: Option<string>, body: string)

  /** A name before a colon that stands before any parenthesis and slash. */
  function SplitName(token: string): (n: Named)
    ensures |n.body| <= |token|
  {
    var colon := IndexFrom(token, ':', 0);
    if colon < |token| && colon < IndexFrom(token, '(', 0) && colon < IndexFrom(token, '/', 0) then
      Named(Some(token[..colon]), token[colon + 1..])
    else Named(None, token)
  }

  /** The place of `/(`, if any. */
  function SlashAt(body: string): (i: nat)
    ensures i <= |body|
    ensures i < |body| ==> i + 1 < |body| && body[i] == '/' && body[i + 1] == '('
    ensures forall j :: 0 <= j < i && j + 1 < |body| ==> !(body[j] == '/' && body[j + 1] == '(')
  {
    if |body| < 2 then |body|
    else if body[0] == '/' && body[1] == '(' then 0
    else
      var i := SlashAt(body[1..]);
      assert forall j :: 0 < j < i + 1 && j + 1 < |body| ==> body[j] == body[1..][j - 1];
      i + 1
  }

  /** How many characters after an open parenthesis its match stands. */
  function CloseAfter(s: string, depth: nat): (k: Option<nat>)
    ensures k.Some? ==> k.value < |s|
  {
    if s == [] then None
    else if s[0] == ')' && depth == 1 then Some(0)
    else
      match CloseAfter(s[1..], if s[0] == '(' then depth + 1 else if s[0] == ')' && depth > 0 then depth - 1 else depth)
      case None => None
      case Some(k) => Some(k + 1)
  }

  function Weight(c: char): int {
    if c == '(' then 1 else if c == ')' then -1 else 0
  }

  /** Opening parentheses less closing ones. */
  function Surplus(s: string): int {
    if s == [] then 0 else Surplus(s[..|s| - 1]) + Weight(s[|s| - 1])
  }

  lemma SurplusSnoc(s: string, i: nat)
    requires i < |s|
    ensures Surplus(s[..i + 1]) == Surplus(s[..i]) + Weight(s[i])
  {
    assert s[..i + 1][..i] == s[..i];
  }

  lemma {:induction false} SurplusCons(c: char, t: string)
    ensures Surplus([c] + t) == Weight(c) + Surplus(t)
  {
    var s := [c] + t;
    if t == [] {
      assert s[..0] == [];
    } else {
      assert s[..|s| - 1] == [c] + t[..|t| - 1];
      SurplusCons(c, t[..|t| - 1]);
    }
  }

  /** From a depth above 0, no beginning of `s` gets back to 0 before its first `n` characters do. */
  predicate StaysOpen(s: string, depth: int, n: nat)
    requires n <= |s|
  {
    forall j :: 0 <= j <= n ==> depth + Surplus(s[..j]) > 0
  }

  lemma StaysOpenCons(s: string, depth: int, n: nat)
    requires s != [] && n < |s|
    ensures StaysOpen(s, depth, n + 1) <==> depth > 0 && StaysOpen(s[1..], depth + Weight(s[0]), n)
  {
    forall j | 0 <= j <= n
      ensures Surplus(s[..j + 1]) == Weight(s[0]) + Surplus(s[1..][..j])
    {
      assert s[..j + 1] == [s[0]] + s[1..][..j];
      SurplusCons(s[0], s[1..][..j]);
    }
    if StaysOpen(s, depth, n + 1) {
      assert depth + Surplus(s[..0]) > 0;
      forall j | 0 <= j <= n
        ensures depth + Weight(s[0]) + Surplus(s[1..][..j]) > 0
      {
        assert depth + Surplus(s[..j + 1]) > 0;
      }
    }
    if depth > 0 && StaysOpen(s[1..], depth + Weight(s[0]), n) {
      forall j | 0 <= j <= n + 1
        ensures depth + Surplus(s[..j]) > 0
      {
        if j > 0 { assert depth + Weight(s[0]) + Surplus(s[1..][..j - 1]) > 0; }
      }
    }
  }

  lemma StaysOpenNone(s: string, depth: int)
    ensures StaysOpen(s, depth, 0) <==> depth > 0
  {
    assert s[..0] == [];
    assert StaysOpen(s, depth, 0) ==> depth + Surplus(s[..0]) > 0;
  }

  lemma {:induction false} ClosesFirst(s: string, depth: nat)
    requires depth > 0
    ensures match CloseAfter(s, depth)
            case None => StaysOpen(s, depth, |s|)
            case Some(k) => depth + Surplus(s[..k + 1]) == 0 && StaysOpen(s, depth, k)
    decreases |s|
  {
    hide StaysOpen, Surplus;
    StaysOpenNone(s, depth);
    if s != [] {
      SurplusFirst(s);
      if !(s[0] == ')' && depth == 1) {
        var next := depth + Weight(s[0]);
        ClosesFirst(s[1..], next);
        var close := CloseAfter(s[1..], next);
        StaysOpenCons(s, depth, if close.None? then |s| - 1 else close.value);
        if close.Some? {
          assert s[..close.value + 2] == [s[0]] + s[1..][..close.value + 1];
          SurplusCons(s[0], s[1..][..close.value + 1]);
        }
      }
    }
  }

  lemma SurplusFirst(s: string)
    requires s != []
    ensures Surplus(s[..1]) == Weight(s[0])
  {
    assert s[..1][..0] == [];
  }

  /**
   The body in parentheses is the shortest beginning in which as many close as open; there is none if
   none is found.
   */
  lemma ShortestBalanced(body: string)
    requires body != [] && body[0] == '('
    ensures match CloseAfter(body[1..], 1)
            case None => forall j :: 0 < j <= |body| ==> Surplus(body[..j]) > 0
            case Some(k) =>
              Surplus(body[..k + 2]) == 0 && forall j :: 0 < j < k + 2 ==> Surplus(body[..j]) > 0
  {
    hide Surplus;
    var rest := body[1..];
    ClosesFirst(rest, 1);
    forall j | 0 < j <= |body|
      ensures Surplus(body[..j]) == 1 + Surplus(rest[..j - 1])
    {
      assert body[..j] == [body[0]] + rest[..j - 1];
      SurplusCons(body[0], rest[..j - 1]);
    }
  }

  /** `strip_group`'s loop: counts the depth up and down until it is back at 0, which happens there first. */
  method CloseLoop(body: string) returns (close: Option<nat>)
    requires body != [] && body[0] == '('
    ensures close.Some? ==> close.value < |body| && Surplus(body[..close.value + 1]) == 0
    ensures forall j :: 0 < j <= (if close.None? then |body| else close.value) ==> Surplus(body[..j]) > 0
    ensures var k := CloseAfter(body[1..], 1);
            close == if k.None? then None else Some(k.value + 1)
  {
    var depth := 0;
    ShortestBalanced(body);
    for i := 0 to |body|
      invariant depth == Surplus(body[..i])
      invariant forall j :: 0 < j <= i ==> Surplus(body[..j]) > 0
    {
      SurplusSnoc(body, i);
      if body[i] == '(' {
        depth := depth + 1;
      } else if body[i] == ')' {
        depth := depth - 1;
        if depth == 0 {
          return Some(i);
        }
      }
    }
    return None;
  }

  datatype Body = Body(inner: string, count: Option<nat>)

  /** A parenthesised body and its trailing count. */
  function StripGroup(body: string): (r: Result<Body>)
    requires body != [] && body[0] == '('
    ensures r.Ok? ==> |r.value.inner| < |body|
  {
    match CloseAfter(body[1..], 1)
    case None => Err
    case Some(k) =>
      var count :- ParseCount(body[k + 2..]);
      Ok(Body(body[1..k + 1], count))
  }

  /** A bare or parenthesised count; nothing at all is no count. */
  function ParseCount(s: string): Result<Option<nat>> {
    if s == [] then Ok(None)
    else if s[0] == '(' && (|s| < 2 || s[|s| - 1] != ')') then Err
    else
      var inner := if s[0] == '(' then s[1..|s| - 1] else s;
      match Picture.ParseCount(Strings.Trim(inner))
      case None => Err
      case Some(n) => Ok(Some(n))
  }

  datatype Scalar = Scalar(kind: FieldKind, width: nat, occurs: Option<nat>)

  /** The element of a repeatable code: a binary integer or a flag. */
  function Element(code: char, order: Endian): Option<Scalar> {
    match code
    case 'c' => Some(Scalar(Binary(order, true), 1, None))
    case 'C' => Some(Scalar(Binary(order, false), 1, None))
    case 's' => Some(Scalar(Binary(order, true), 2, None))
    case 'S' => Some(Scalar(Binary(order, false), 2, None))
    case 'l' => Some(Scalar(Binary(order, true), 4, None))
    case 'i' => Some(Scalar(Binary(order, true), 4, None))
    case 'L' => Some(Scalar(Binary(order, false), 4, None))
    case 'I' => Some(Scalar(Binary(order, false), 4, None))
    case 'q' => Some(Scalar(Binary(order, true), 8, None))
    case 'Q' => Some(Scalar(Binary(order, false), 8, None))
    case 'n' => Some(Scalar(Binary(Big, false), 2, None))
    case 'N' => Some(Scalar(Binary(Big, false), 4, None))
    case 'v' => Some(Scalar(Binary(Little, false), 2, None))
    case 'V' => Some(Scalar(Binary(Little, false), 4, None))
    case '?' => Some(Scalar(Bool, 1, None))
    case _ => None
  }

  /** A code whose count is its width. */
  function Stretchable(code: char): Option<FieldKind> {
    match code
    case 'A' => Some(Text(Left, true, 32))
    case 'a' => Some(Text(Left, true, 0))
    case 'Z' => Some(Text(Left, true, 0))
    case 'H' => Some(Hex(Big))
    case 'h' => Some(Hex(Little))
    case 'x' => Some(Pad(0))
    case _ => None
  }

  predicate PictureToken(body: string) {
    body != [] && (body[0] == '9' || body[0] == 'X' || (body[0] == 'S' && |body| > 1 && body[1] == '9'))
  }

  /** A count with an order suffix of its own. */
  function OwnOrder(tail: string, order: Endian): (string, Endian) {
    if tail != [] && tail[|tail| - 1] == '<' then (tail[..|tail| - 1], Little)
    else if tail != [] && tail[|tail| - 1] == '>' then (tail[..|tail| - 1], Big)
    else (tail, order)
  }

  /** The order a control token sets; `=` and `@` set the machine's, here little-endian. */
  lemma ControlOrders(token: string)
    ensures OrderControl(token).Some? <==> |token| == 1 && token[0] in "<>!=@"
    ensures |token| == 1 ==>
      (OrderControl(token) == Some(Big) <==> token[0] in ">!") &&
      (OrderControl(token) == Some(Little) <==> token[0] in "<=@")
  {
    if |token| == 1 { assert token == [token[0]]; }
  }

  /** The integer codes by width, sign and order: capitals are unsigned, `nNvV` fix both themselves. */
  lemma ElementCodes(code: char, order: Endian)
    ensures Element(code, order).Some? <==> code in "cCsSlLiIqQnNvV?"
    ensures Element(code, order).Some? ==>
      var s := Element(code, order).value;
      s.occurs.None? &&
      s.width == (if code in "cC?" then 1 else if code in "sSnv" then 2 else if code in "qQ" then 8 else 4)
    ensures Element(code, order).Some? ==>
      var k := Element(code, order).value.kind;
      if code == '?' then k.Bool?
      else k == Binary(if code in "nN" then Big else if code in "vV" then Little else order, code in "csliq")
  {
  }

  /** The codes whose count is a width: text padded by blanks or NULs, digits of either nibble order, fillers of 0. */
  lemma StretchableCodes(code: char)
    ensures Stretchable(code).Some? <==> code in "AaZHhx"
    ensures Stretchable(code).Some? ==>
      var k := Stretchable(code).value;
      if code in "AaZ" then k == Text(Left, true, if code == 'A' then 32 else 0)
      else if code == 'x' then k == Pad(0)
      else k == Hex(if code == 'H' then Big else Little)
  {
  }

  /** A trailing `<` or `>` overrides the order for its own code only. */
  lemma OwnOrders(digits: string, order: Endian)
    ensures OwnOrder(digits + ['<'], order) == (digits, Little) && OwnOrder(digits + ['>'], order) == (digits, Big)
    ensures digits == [] || digits[|digits| - 1] !in "<>" ==> OwnOrder(digits, order) == (digits, order)
  {
    assert (digits + ['<'])[..|digits|] == digits && (digits + ['>'])[..|digits|] == digits;
  }

  function ParseCode(code: char, tail: string, order: Endian): Result<Scalar> {
    var (digits, local) := OwnOrder(tail, order);
    var count :- ParseCount(digits);
    var stretched, element := Stretchable(code), Element(code, local);
    if stretched.Some? then Ok(Scalar(stretched.value, if count.Some? then count.value else 1, None))
    else if element.Some? then Ok(element.value.(occurs := count))
    else Err
  }

  /** A picture, or a one-letter code with a count and an order of its own; an empty code is refused. */
  function ParseBody(body: string, order: Endian): Result<Scalar> {
    if body == [] then Err
    else if PictureToken(body) then
      var s :- Picture.ParsePic(body, Picture.Display, None);
      Ok(Scalar(s.kind, s.width, None))
    else ParseCode(body[0], body[1..], order)
  }

  /** A body that starts like a picture is one, of a display item. */
  lemma PicturesRead(body: string, order: Endian)
    requires body != [] && (body[0] == '9' || body[0] == 'X' || (|body| > 1 && body[0] == 'S' && body[1] == '9'))
    ensures var s := Picture.ParsePic(body, Picture.Display, None);
            ParseBody(body, order) == if s.Err? then Err else Ok(Scalar(s.value.kind, s.value.width, None))
  {
    hide Picture.ParsePic, ParseCode;
  }

  // ---------------------------------------------------------------- fields

  function AutoName(n: nat): string {
    "field_" + Strings.NatString(n)
  }

  function NameOf(name: Option<string>, auto: nat): (string, nat) {
    if name.Some? then (name.value, auto) else (AutoName(auto + 1), auto + 1)
  }

  /** The fields of one token, the counter after it, and where the next token starts. */
  datatype Piece = Piece(fields: seq<Field>, auto: nat, end: nat)

  function ParseToken(token: string, order: Endian, auto: nat, offset: nat): Result<Piece>
    decreases |token|, 1
  {
    var n := SplitName(token);
    if n.body == [] then Err
    else if SlashAt(n.body) < |n.body| then CountedGroup(n, order, auto, offset)
    else if n.body[0] == '(' then
      var g :- StripGroup(n.body);
      var tokens :- Tokenize(g.inner);
      assert Total(tokens) <= |g.inner| by { TokensShorter(g.inner, 0, []); }
      var inside :- ParseTokens(tokens, Big, 0, 0);
      var (name, named) := NameOf(n.name, auto);
      var f := Field(name, offset, inside.end, Group(inside.fields), g.count, None, None);
      Ok(Piece([f], named, offset + f.TotalWidth()))
    else
      var s :- ParseBody(n.body, order);
      var (name, named) := NameOf(n.name, auto);
      var f := Field(name, offset, s.width, s.kind, s.occurs, None, None);
      Ok(Piece([f], named, offset + f.TotalWidth()))
  }

  /** `code/(…)`: a visible integer field, and a table of as many groups as it says. */
  function CountedGroup(n: Named, order: Endian, auto: nat, offset: nat): Result<Piece>
    requires SlashAt(n.body) < |n.body|
    decreases |n.body|, 0
  {
    var k := SlashAt(n.body);
    var count :- ParseBody(n.body[..k], order);
    if count.occurs.Some? || !(count.kind.Binary? || count.kind.Int?) then Err
    else
      var g :- StripGroup(n.body[k + 1..]);
      if g.count.Some? then Err
      else
        var tokens :- Tokenize(g.inner);
        assert Total(tokens) <= |g.inner| by { TokensShorter(g.inner, 0, []); }
        var inside :- ParseTokens(tokens, Big, 0, 0);
        var (base, named) := NameOf(n.name, auto);
        var after := offset + count.width;
        Ok(Piece([Field(base + "_count", offset, count.width, count.kind, None, None, None),
                  Field(base, after, inside.end, Group(inside.fields), None, Some(base + "_count"), None)],
                 named, after))
  }

  function ParseTokens(tokens: seq<string>, order: Endian, auto: nat, offset: nat): Result<Piece>
    decreases Total(tokens), |tokens| + 1
  {
    if tokens == [] then Ok(Piece([], auto, offset))
    else if OrderControl(tokens[0]).Some? then
      ParseTokens(tokens[1..], OrderControl(tokens[0]).value, auto, offset)
    else
      var piece :- ParseToken(tokens[0], order, auto, offset);
      var rest :- ParseTokens(tokens[1..], order, piece.auto, piece.end);
      Ok(Piece(piece.fields + rest.fields, rest.auto, rest.end))
  }

  function Parse(src: string): Result<Layout> {
    var tokens :- Tokenize(src);
    var all :- ParseTokens(tokens, Big, 0, 0);
    Ok(FromFields(all.fields))
  }

  // ---------------------------------------------------------------- what a token says

  /** As many parentheses close as open, and none closes before it is open. */
  predicate Balanced(s: string) {
    Surplus(s) == 0 && forall j :: 0 <= j <= |s| ==> Surplus(s[..j]) >= 0
  }

  /** A balanced body in parentheses is found whole, and what follows it is its count. */
  lemma GroupWritten(inner: string, tail: string)
    requires Balanced(inner)
    ensures StripGroup(['('] + inner + [')'] + tail)
         == if ParseCount(tail).Err? then Err else Ok(Body(inner, ParseCount(tail).value))
  {
    hide Surplus, ParseCount;
    var body, s := ['('] + inner + [')'] + tail, inner + [')'] + tail;
    var n := |inner|;
    assert body[1..] == s;
    ClosesFirst(s, 1);
    assert s[..n + 1] == inner + [')'] && (inner + [')'])[..n] == inner;
    SurplusSnoc(inner + [')'], n);
    assert (inner + [')'])[..n + 1] == inner + [')'];
    assert Surplus(s[..n + 1]) == -1;
    assert forall j :: 0 <= j <= n ==> s[..j] == inner[..j];
    assert forall j :: 0 <= j <= n ==> Surplus(s[..j]) >= 0;
    assert CloseAfter(s, 1) == Some(n);
    assert body[1..n + 1] == inner && body[n + 2..] == tail;
  }

  /** A count is its digits, bare or in parentheses; without any there is none. */
  lemma CountWritten(n: nat)
    requires n <= Picture.USIZE_MAX
    ensures ParseCount([]) == Ok(None)
    ensures ParseCount(Strings.NatString(n)) == Ok(Some(n))
    ensures ParseCount(['('] + Strings.NatString(n) + [')']) == Ok(Some(n))
  {
    hide Strings.NatString, Strings.Trim, Picture.ParseCount;
    var digits := Strings.NatString(n);
    Strings.NatShown(n);
    Picture.CountParsed(n);
    var held := ['('] + digits + [')'];
    assert held[1..|held| - 1] == digits;
  }

  /** A name stands before the first colon when no parenthesis and no slash stands before that. */
  lemma NameWritten(name: string, body: string)
    requires ':' !in name && '(' !in name && '/' !in name
    ensures SplitName(name + [':'] + body) == Named(Some(name), body)
  {
    var token, n := name + [':'] + body, |name|;
    assert token[n] == ':' && forall i :: 0 <= i < n ==> token[i] == name[i];
    FirstIs(token, ':', n);
    FirstBehind(token, '(', n);
    FirstBehind(token, '/', n);
    assert token[..n] == name && token[n + 1..] == body;
  }

  lemma FirstIs(s: string, c: char, n: nat)
    requires n < |s| && s[n] == c && forall i :: 0 <= i < n ==> s[i] != c
    ensures IndexFrom(s, c, 0) == n
  {
    assert forall k :: n < k <= |s| ==> s[0..k][n] == c;
  }

  lemma FirstBehind(s: string, c: char, n: nat)
    requires n < |s| && forall i :: 0 <= i <= n ==> s[i] != c
    ensures IndexFrom(s, c, 0) > n
  {
  }

  lemma NoName(token: string)
    requires ':' !in token
    ensures SplitName(token) == Named(None, token)
  {
  }

  /** The name a field gets: its own, or `field_` and the next number. */
  function Called(name: Option<string>, auto: nat): string {
    if name.Some? then name.value else ['f', 'i', 'e', 'l', 'd', '_'] + Strings.NatString(auto + 1)
  }

  function CountAfter(name: Option<string>, auto: nat): nat {
    if name.Some? then auto else auto + 1
  }

  lemma NamesCalled(name: Option<string>, auto: nat)
    ensures NameOf(name, auto) == (Called(name, auto), CountAfter(name, auto))
  {
    hide Strings.NatString;
  }

  /** One field behind what stands before it, and the place behind all its occurrences. */
  function Alone(name: string, width: nat, kind: FieldKind, occurs: Option<nat>, auto: nat, offset: nat): Piece {
    var all: nat := if occurs.Some? then width * occurs.value else width;
    Piece([Field(name, offset, width, kind, occurs, None, None)], auto, offset + all)
  }

  /** A token that is no group stands for one field, repeated as its code says. */
  lemma ScalarToken(token: string, order: Endian, auto: nat, offset: nat)
    requires var body := SplitName(token).body; body != [] && body[0] != '(' && '/' !in body
    ensures var n := SplitName(token);
            var s := ParseBody(n.body, order);
            ParseToken(token, order, auto, offset) ==
            if s.Err? then Err
            else Ok(Alone(Called(n.name, auto), s.value.width, s.value.kind, s.value.occurs,
                          CountAfter(n.name, auto), offset))
  {
    hide ParseBody, SplitName, Called, AutoName, NameOf, CountedGroup, ParseTokens;
    NamesCalled(SplitName(token).name, auto);
  }

  /**
   A token in parentheses stands for a group of the fields inside, laid out from 0 in big-endian order
   and repeated by the count behind it; with a counted group anywhere inside it is refused.
   */
  lemma GroupToken(token: string, inner: string, tail: string, order: Endian, auto: nat, offset: nat)
    requires SplitName(token).body == ['('] + inner + [')'] + tail && Balanced(inner)
    ensures var n := SplitName(token);
            var count, tokens := ParseCount(tail), Tokenize(inner);
            var inside := if tokens.Err? then Err else ParseTokens(tokens.value, Big, 0, 0);
            ParseToken(token, order, auto, offset) ==
            if SlashAt(n.body) < |n.body| || count.Err? || inside.Err? then Err
            else Ok(Alone(Called(n.name, auto), inside.value.end, Group(inside.value.fields), count.value,
                          CountAfter(n.name, auto), offset))
  {
    hide ParseTokens, SplitName, Called, AutoName, NameOf, ParseCount, Tokenize, ParseBody, StripGroup;
    var n := SplitName(token);
    if SlashAt(n.body) < |n.body| { ParenCode(n.body[..SlashAt(n.body)], order); }
    NamesCalled(n.name, auto);
    GroupWritten(inner, tail);
  }

  lemma ParenCode(body: string, order: Endian)
    requires body != [] ==> body[0] == '('
    ensures ParseBody(body, order).Err?
  {
    hide ParseCount;
  }

  /**
   A code, a slash and a group stand for two fields: the integer that counts, named after the other with
   `_count` behind, and a table of the group, as long as that integer says, reserving nothing.
   */
  lemma CountedToken(token: string, code: string, inner: string, order: Endian, auto: nat, offset: nat)
    requires SplitName(token).body == code + ['/', '('] + inner + [')'] && '/' !in code && Balanced(inner)
    ensures var name := SplitName(token).name;
            var base, s, tokens := Called(name, auto), ParseBody(code, order), Tokenize(inner);
            var inside := if tokens.Err? then Err else ParseTokens(tokens.value, Big, 0, 0);
            var counter := base + ['_', 'c', 'o', 'u', 'n', 't'];
            ParseToken(token, order, auto, offset) ==
            if s.Err? || s.value.occurs.Some? || !(s.value.kind.Binary? || s.value.kind.Int?) || inside.Err? then Err
            else Ok(Piece([Field(counter, offset, s.value.width, s.value.kind, None, None, None),
                           Field(base, offset + s.value.width, inside.value.end, Group(inside.value.fields), None,
                                 Some(counter), None)],
                          CountAfter(name, auto), offset + s.value.width))
  {
    hide ParseTokens, SplitName, Called, AutoName, ParseCount, Tokenize, ParseBody, StripGroup;
    var n := SplitName(token);
    var k := |code|;
    assert n.body[k] == '/' && n.body[k + 1] == '(' && forall i :: 0 <= i < k ==> n.body[i] == code[i];
    assert SlashAt(n.body) == k;
    assert n.body[..k] == code && n.body[k + 1..] == ['('] + inner + [')'] + [];
    NamesCalled(n.name, auto);
    GroupWritten(inner, []);
    NoCount();
  }

  lemma NoCount()
    ensures ParseCount([]) == Ok(None)
  {
  }

  /** What a code stands for with a count or without one. */
  function Coded(code: char, count: Option<nat>, order: Endian): Result<Scalar> {
    var stretched, element := Stretchable(code), Element(code, order);
    if stretched.Some? then Ok(Scalar(stretched.value, if count.Some? then count.value else 1, None))
    else if element.Some? then Ok(Scalar(element.value.kind, element.value.width, count))
    else Err
  }

  /** A code with a count and an order of its own: text, digits and fillers stretch, the others repeat. */
  lemma CodeWritten(code: char, n: nat, order: Endian)
    requires n <= Picture.USIZE_MAX
    ensures var digits := Strings.NatString(n);
            ParseCode(code, digits, order) == Coded(code, Some(n), order) &&
            ParseCode(code, digits + ['<'], order) == Coded(code, Some(n), Little) &&
            ParseCode(code, digits + ['>'], order) == Coded(code, Some(n), Big)
    ensures ParseCode(code, [], order) == Coded(code, None, order)
  {
    hide Strings.NatString, ParseCount, Stretchable, Element, OwnOrder;
    var digits := Strings.NatString(n);
    Strings.NatShown(n);
    CountWritten(n);
    OwnOrders(digits, order);
    OwnOrders([], order);
    assert digits[|digits| - 1] !in "<>" by { assert Strings.IsDigit(digits[|digits| - 1]); }
    ElementOnce(code, order);
  }

  lemma ElementOnce(code: char, order: Endian)
    ensures Element(code, order).Some? ==> Element(code, order).value.occurs.None?
  {
  }

  // ---------------------------------------------------------------- the source's loop

  predicate Continues(whole: Result<Piece>, done: seq<Field>, rest: Result<Piece>) {
    if rest.Err? then whole.Err? else whole == Ok(rest.value.(fields := done + rest.value.fields))
  }

  lemma ParseTokensCons(tokens: seq<string>, order: Endian, auto: nat, offset: nat)
    requires tokens != []
    ensures ParseTokens(tokens, order, auto, offset) ==
            if OrderControl(tokens[0]).Some? then
              ParseTokens(tokens[1..], OrderControl(tokens[0]).value, auto, offset)
            else
              var piece := ParseToken(tokens[0], order, auto, offset);
              if piece.Err? then Err
              else
                var rest := ParseTokens(tokens[1..], order, piece.value.auto, piece.value.end);
                if rest.Err? then Err
                else Ok(Piece(piece.value.fields + rest.value.fields, rest.value.auto, rest.value.end))
  {
    hide ParseToken;
  }

  lemma ContinuesStep(whole: Result<Piece>, done: seq<Field>, some: seq<Field>, rest: Piece)
    requires Continues(whole, done, Ok(rest.(fields := some + rest.fields)))
    ensures Continues(whole, done + some, Ok(rest))
  {
    assert done + (some + rest.fields) == (done + some) + rest.fields;
  }

  lemma ContinuesEnds(whole: Result<Piece>, done: seq<Field>, order: Endian, auto: nat, offset: nat)
    ensures Continues(whole, [], whole)
    ensures Continues(whole, done, ParseTokens([], order, auto, offset)) ==> whole == Ok(Piece(done, auto, offset))
  {
    assert done + [] == done;
    if whole.Ok? { assert [] + whole.value.fields == whole.value.fields; }
  }

  /** `parse_tokens`: the loop over tokens, with its running offset, order and counter. */
  method ParseLoop(tokens: seq<string>) returns (r: Result<Piece>)
    ensures r == ParseTokens(tokens, Big, 0, 0)
  {
    hide ParseTokens, ParseToken, OrderControl;
    var fields: seq<Field>, offset: nat, order, auto: nat := [], 0, Big, 0;
    ghost var whole := ParseTokens(tokens, Big, 0, 0);
    ContinuesEnds(whole, [], order, auto, offset);
    assert tokens[0..] == tokens;
    for i := 0 to |tokens|
      invariant Continues(whole, fields, ParseTokens(tokens[i..], order, auto, offset))
    {
      ParseTokensCons(tokens[i..], order, auto, offset);
      assert tokens[i..][0] == tokens[i] && tokens[i..][1..] == tokens[i + 1..];
      var control := OrderControl(tokens[i]);
      if control.Some? {
        order := control.value;
        continue;
      }
      var piece := ParseToken(tokens[i], order, auto, offset);
      if piece.Err? {
        return Err;
      }
      auto, offset := piece.value.auto, piece.value.end;
      ghost var rest := ParseTokens(tokens[i + 1..], order, auto, offset);
      if rest.Ok? { ContinuesStep(whole, fields, piece.value.fields, rest.value); }
      fields := fields + piece.value.fields;
    }
    assert tokens[|tokens|..] == [];
    ContinuesEnds(whole, fields, order, auto, offset);
    return Ok(Piece(fields, auto, offset));
  }

  // ---------------------------------------------------------------- the layout is contiguous

  /** Every dynamic table stands right behind a single integer field that holds its length. */
  predicate Controlled(fields: seq<Field>)
    decreases fields
  {
    fields == [] ||
    ((fields[0].kind.Group? ==> Controlled(fields[0].kind.children)) &&
     (|fields| > 1 && fields[1].dependingOn.Some? ==> Controls(fields[0], fields[1])) && Controlled(fields[1..]))
  }

  predicate Controls(count: Field, table: Field) {
    table.dependingOn == Some(count.name) && count.occurs.None? && count.dependingOn.None? &&
    (count.kind.Binary? || count.kind.Int?)
  }

  /** What a list of fields built from `offset` keeps. */
  predicate Built(fields: seq<Field>, offset: nat, end: nat) {
    Tight(fields, offset) && end == offset + StaticWidth(fields) && Controlled(fields) &&
    (fields != [] ==> fields[0].dependingOn.None?)
  }

  lemma BuiltNothing(offset: nat)
    ensures Built([], offset, offset)
  {
  }

  lemma BuiltConcat(a: seq<Field>, b: seq<Field>, offset: nat, mid: nat, end: nat)
    requires Built(a, offset, mid) && Built(b, mid, end)
    ensures Built(a + b, offset, end)
  {
    hide Tight, Controlled, StaticWidth;
    TightConcat(a, b, offset);
    ControlledConcat(a, b);
    if a == [] {
      assert a + b == b;
    } else {
      assert (a + b)[0] == a[0];
    }
  }

  lemma {:induction false} TightConcat(a: seq<Field>, b: seq<Field>, offset: nat)
    requires Tight(a, offset) && Tight(b, offset + StaticWidth(a))
    ensures Tight(a + b, offset) && StaticWidth(a + b) == StaticWidth(a) + StaticWidth(b)
    decreases |a|
  {
    if a == [] {
      assert a + b == b;
    } else {
      assert (a + b)[1..] == a[1..] + b;
      TightConcat(a[1..], b, offset + a[0].ReservedWidth());
    }
  }

  lemma {:induction false} ControlledConcat(a: seq<Field>, b: seq<Field>)
    requires Controlled(a) && Controlled(b) && (b != [] ==> b[0].dependingOn.None?)
    ensures Controlled(a + b)
    decreases |a|
  {
    if a == [] {
      assert a + b == b;
    } else {
      var all := a + b;
      assert all[1..] == a[1..] + b;
      ControlledConcat(a[1..], b);
      if |a| > 1 { assert all[1] == a[1]; }
    }
  }

  lemma BuiltOne(f: Field)
    requires f.dependingOn.None?
    requires f.kind.Group? ==> Built(f.kind.children, 0, f.width)
    ensures Built([f], f.offset, f.offset + f.TotalWidth())
  {
    TightCons(f, []);
    ControlledOne(f);
    assert [f] + [] == [f];
  }

  lemma ControlledOne(f: Field)
    requires f.kind.Group? ==> Controlled(f.kind.children)
    ensures Controlled([f])
  {
    assert [f][1..] == [];
  }

  lemma BuiltTable(count: Field, table: Field)
    requires Controls(count, table) && !count.kind.Group? && count.offset + count.width == table.offset
    requires table.kind.Group? && Built(table.kind.children, 0, table.width)
    ensures Built([count, table], count.offset, table.offset)
  {
    TightCons(table, []);
    TightCons(count, [table]);
    ControlledOne(table);
    assert [table] + [] == [table] && [count] + [table] == [count, table];
    assert [count, table][1..] == [table];
  }

  lemma {:induction false} TokensBuilt(tokens: seq<string>, order: Endian, auto: nat, offset: nat)
    requires ParseTokens(tokens, order, auto, offset).Ok?
    ensures var p := ParseTokens(tokens, order, auto, offset).value; Built(p.fields, offset, p.end)
    decreases Total(tokens), |tokens| + 1
  {
    hide ParseTokens, ParseToken, Built, OrderControl;
    if tokens == [] {
      ContinuesEnds(ParseTokens([], order, auto, offset), [], order, auto, offset);
      NoTokens(order, auto, offset);
      BuiltNothing(offset);
    } else {
      ParseTokensCons(tokens, order, auto, offset);
      if OrderControl(tokens[0]).Some? {
        TokensBuilt(tokens[1..], OrderControl(tokens[0]).value, auto, offset);
      } else {
        TokenBuilt(tokens[0], order, auto, offset);
        var piece := ParseToken(tokens[0], order, auto, offset).value;
        TokensBuilt(tokens[1..], order, piece.auto, piece.end);
        var rest := ParseTokens(tokens[1..], order, piece.auto, piece.end).value;
        BuiltConcat(piece.fields, rest.fields, offset, piece.end, rest.end);
      }
    }
  }

  lemma NoTokens(order: Endian, auto: nat, offset: nat)
    ensures ParseTokens([], order, auto, offset) == Ok(Piece([], auto, offset))
  {
  }

  lemma {:induction false} TokenBuilt(token: string, order: Endian, auto: nat, offset: nat)
    requires ParseToken(token, order, auto, offset).Ok?
    ensures var p := ParseToken(token, order, auto, offset).value; Built(p.fields, offset, p.end)
    decreases |token|, 1
  {
    hide ParseTokens, Built, Tokenize, ParseBody, StripGroup, CountedGroup, SplitName, NameOf;
    var n := SplitName(token);
    if SlashAt(n.body) < |n.body| {
      SplitShorter(token);
      CountedBuilt(n, order, auto, offset);
    } else if n.body[0] == '(' {
      var inner := StripGroup(n.body).value.inner;
      SplitShorter(token);
      StripShorter(n.body);
      TokenizeTotal(inner);
      TokensBuilt(Tokenize(inner).value, Big, 0, 0);
      BuiltOne(ParseToken(token, order, auto, offset).value.fields[0]);
    } else {
      BodyLeaf(n.body, order);
      BuiltOne(ParseToken(token, order, auto, offset).value.fields[0]);
    }
  }

  lemma SplitShorter(token: string)
    ensures |SplitName(token).body| <= |token|
  {
  }

  lemma StripShorter(body: string)
    requires body != [] && body[0] == '(' && StripGroup(body).Ok?
    ensures |StripGroup(body).value.inner| < |body|
  {
  }

  lemma TokenizeTotal(src: string)
    requires Tokenize(src).Ok?
    ensures Total(Tokenize(src).value) <= |src|
  {
    TokensShorter(src, 0, []);
  }

  lemma CodeLeaf(code: char, order: Endian)
    ensures Element(code, order).Some? ==> !Element(code, order).value.kind.Group?
    ensures Stretchable(code).Some? ==> !Stretchable(code).value.Group?
  {
  }

  lemma BodyLeaf(body: string, order: Endian)
    requires ParseBody(body, order).Ok?
    ensures !ParseBody(body, order).value.kind.Group?
  {
    hide Picture.ParsePic, Element, Stretchable, ParseCount;
    if PictureToken(body) {
      Picture.PictureLeaf(body, Picture.Display, None);
    } else {
      CodeLeaf(body[0], OwnOrder(body[1..], order).1);
    }
  }

  lemma {:induction false} CountedBuilt(n: Named, order: Endian, auto: nat, offset: nat)
    requires SlashAt(n.body) < |n.body| && CountedGroup(n, order, auto, offset).Ok?
    ensures var p := CountedGroup(n, order, auto, offset).value; Built(p.fields, offset, p.end)
    decreases |n.body|, 0
  {
    hide ParseTokens, Built, Tokenize, ParseBody;
    var k := SlashAt(n.body);
    var inner := StripGroup(n.body[k + 1..]).value.inner;
    TokenizeTotal(inner);
    TokensBuilt(Tokenize(inner).value, Big, 0, 0);
    var fields := CountedGroup(n, order, auto, offset).value.fields;
    BuiltTable(fields[0], fields[1]);
  }

  /**
   Every accepted template lowers to a contiguous layout in order, as wide as reported, in which each
   dynamic table's length is the integer field right before it.
   */
  lemma TemplateLaid(src: string)
    requires Parse(src).Ok?
    ensures var layout := Parse(src).value;
            Tight(layout.fields, 0) && RoundTrip.Ordered(layout.fields) && Controlled(layout.fields) &&
            layout.recordLen == StaticWidth(layout.fields)
            == ParseTokens(Tokenize(src).value, Big, 0, 0).value.end
  {
    hide ParseTokens, Tokenize, Tight, StaticWidth, StaticEnd, Controlled;
    TokensBuilt(Tokenize(src).value, Big, 0, 0);
    var fields := Parse(src).value.fields;
    if fields == [] { NoBytes(); }
    TightStaticEnd(fields, 0);
    TightOrdered(fields, 0);
  }

  lemma TemplateRoundTrip(src: string, values: Pairs, enc: Encoding)
    requires Parse(src).Ok?
    requires var fields := Parse(src).value.fields;
             Encode.Supplied(fields, values) && Normal.InSeq(fields, values, map[])
    ensures var layout := Parse(src).value;
            var record := Encode.EncodeRecord(layout, values, enc);
            record.Ok? && record == SerialSeq(layout.fields, values, enc) &&
            Decode.DecodeRecord(layout, record.value, enc) == Ok(Normal.NormSeq(layout.fields, values, map[]).pairs)
  {
    hide ParseTokens, Encode.Supplied, Normal.InSeq, Normal.NormSeq, Tight, RoundTrip.Ordered, SerialSeq, Controlled;
    TemplateLaid(src);
    var layout := Parse(src).value;
    RoundTrip.RoundTrip(layout, values, enc);
    EncodeIsSerial(layout.fields, values, enc);
  }
}
