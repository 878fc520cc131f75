/**
 Positional notation, most significant digit first, in any base above one. The decimal,
 packed, zoned, hexadecimal and binary codecs all read and write numbers through it.
 */
module Radix {
  import opened Prelude

  predicate IsDigits(base: nat, ds: seq<nat>) {
    forall i :: 0 <= i < |ds| ==> ds[i] < base
  }

  function Pow(base: nat, e: nat): nat {
    if e == 0 then 1 else base * Pow(base, e - 1)
  }

  /** The number a digit string denotes. */
  function Value(base: nat, ds: seq<nat>): nat {
    if ds == [] then 0 else Value(base, ds[..|ds| - 1]) * base + ds[|ds| - 1]
  }

  /** The low `w` digits of `n`. */
  function Digits(base: nat, n: nat, w: nat): (ds: seq<nat>)
    requires base > 1
    ensures |ds| == w
    ensures IsDigits(base, ds)
    decreases w
  {
    if w == 0 then [] else Digits(base, n / base, w - 1) + [n % base]
  }

  lemma DigitsSnoc(base: nat, n: nat, w: nat)
    requires base > 1 && w > 0
    ensures Digits(base, n, w)[..w - 1] == Digits(base, n / base, w - 1)
    ensures Digits(base, n, w)[w - 1] == n % base
  {
  }

  /** The shortest digit string of `n`: a single 0 for zero, no leading zero otherwise. */
  function Shortest(base: nat, n: nat): (ds: seq<nat>)
    requires base > 1
    ensures |ds| >= 1
    ensures IsDigits(base, ds)
    decreases n
  {
    if n < base then [n] else DivShrinks(base, n); Shortest(base, n / base) + [n % base]
  }

  lemma DivShrinks(base: nat, n: nat)
    requires base > 1 && n > 0
    ensures n / base < n
  {
    var q := n / base;
    assert n == base * q + n % base;
    MulMonotone(2, base, q);
  }

  lemma MulMonotone(a: int, b: int, c: nat)
    requires a <= b
    ensures a * c <= b * c
  {
    assert (b - a) * c >= 0;
  }

  lemma PowZero(base: nat)
    ensures Pow(base, 0) == 1
  {
  }

  lemma PowStep(base: nat, e: nat)
    ensures Pow(base, e + 1) == base * Pow(base, e)
  {
  }

  lemma Associate(a: int, b: int, c: int)
    ensures a * (b * c) == a * b * c
  {
  }

  lemma {:induction false} PowAdd(base: nat, a: nat, b: nat)
    ensures Pow(base, a + b) == Pow(base, a) * Pow(base, b)
  {
    hide Pow;
    if a == 0 {
      PowZero(base);
    } else {
      PowAdd(base, a - 1, b);
      PowStep(base, a - 1);
      PowStep(base, a - 1 + b);
      Associate(base, Pow(base, a - 1), Pow(base, b));
    }
  }

  lemma PowPositive(base: nat, e: nat)
    requires base > 0
    ensures Pow(base, e) > 0
  {
    if e > 0 { PowPositive(base, e - 1); }
  }

  lemma {:induction false} PowMonotone(base: nat, a: nat, b: nat)
    requires base > 0 && a <= b
    ensures Pow(base, a) <= Pow(base, b)
    decreases b
  {
    if a < b {
      PowMonotone(base, a, b - 1);
      PowPositive(base, b - 1);
      MulMonotone(1, base, Pow(base, b - 1));
    }
  }

  /** Digit strings of length w stay below base^w. */
  lemma {:induction false} ValueBound(base: nat, ds: seq<nat>)
    requires base > 1 && IsDigits(base, ds)
    ensures Value(base, ds) < Pow(base, |ds|)
  {
    if ds != [] {
      var front := ds[..|ds| - 1];
      ValueBound(base, front);
      var p := Pow(base, |ds| - 1);
      MulMonotone(Value(base, front), p - 1, base);
      assert (p - 1) * base == p * base - base;
      assert p * base == base * p;
    }
  }

  lemma DivMod(base: nat, q: nat, r: nat)
    requires base > 1 && r < base
    ensures (q * base + r) / base == q
    ensures (q * base + r) % base == r
  {
    var n := q * base + r;
    var d := n / base - q;
    assert n == base * (n / base) + n % base;
    assert base * (n / base) == q * base + d * base by {
      assert base * (q + d) == q * base + d * base;
    }
    assert d * base == r - n % base;
    if d >= 1 { MulMonotone(1, d, base); }
    if d <= -1 { MulMonotone(d, -1, base); }
  }

  /** Writing the value of a w-digit string in w digits gives the string back. */
  lemma {:induction false} DigitsOfValue(base: nat, ds: seq<nat>)
    requires base > 1 && IsDigits(base, ds)
    ensures Digits(base, Value(base, ds), |ds|) == ds
  {
    if ds != [] {
      var front := ds[..|ds| - 1];
      DigitsOfValue(base, front);
      DivMod(base, Value(base, front), ds[|ds| - 1]);
      assert ds == front + [ds[|ds| - 1]];
    }
  }

  /** The value of the low w digits: `n` reduced modulo base^w. */
  lemma {:induction false} ValueOfDigits(base: nat, n: nat, w: nat)
    requires base > 1
    ensures Value(base, Digits(base, n, w)) == n % PowPos(base, w)
    decreases w
  {
    if w > 0 {
      var ds := Digits(base, n, w);
      ValueOfDigits(base, n / base, w - 1);
      assert ds[..w - 1] == Digits(base, n / base, w - 1);
      SplitMod(base, PowPos(base, w - 1), PowPos(base, w), n);
    } else {
      ModOf(1, n, 0);
    }
  }

  /** ... which is `n` itself exactly when it fits. */
  lemma DigitsFit(base: nat, n: nat, w: nat)
    requires base > 1
    ensures n < Pow(base, w) <==> Value(base, Digits(base, n, w)) == n
  {
    ValueOfDigits(base, n, w);
    SmallMod(n, PowPos(base, w));
  }

  function PowPos(base: nat, e: nat): (p: nat)
    requires base > 0
    ensures p > 0 && p == Pow(base, e)
  {
    PowPositive(base, e);
    Pow(base, e)
  }

  lemma SmallMod(n: nat, m: nat)
    requires m > 0
    ensures n < m <==> n % m == n
  {
    if n < m { ModOf(m, 0, n); }
  }

  lemma ModOf(m: nat, q: nat, r: nat)
    requires m > 0 && r < m
    ensures (q * m + r) % m == r
  {
    if m > 1 { DivMod(m, q, r); }
  }

  /** Reducing modulo base * p keeps the last digit and reduces the rest modulo p. */
  lemma SplitMod(base: nat, p: nat, m: nat, n: nat)
    requires base > 1 && p > 0 && m == base * p && m > 0
    ensures n % m == (n / base % p) * base + n % base
  {
    var q, r := n / base, n % base;
    DivModLaw(n, base);
    DivModLaw(q, p);
    SplitModAt(base, p, m, n, q, r, q / p, q % p);
  }

  lemma DivModLaw(n: nat, d: nat)
    requires d > 0
    ensures n == n / d * d + n % d && n % d < d
  {
    assert n / d * d == d * (n / d);
  }

  lemma SplitModAt(base: nat, p: nat, m: nat, n: nat, q: nat, r: nat, a: nat, b: nat)
    requires base > 1 && p > 0 && m == base * p && m > 0
    requires n == q * base + r && r < base && q == a * p + b && b < p
    ensures n % m == b * base + r
  {
    Regroup(base, p, a, b);
    RestBelow(base, p, b, r);
    ModOf(m, a, b * base + r);
  }

  lemma Regroup(base: nat, p: nat, a: nat, b: nat)
    ensures (a * p + b) * base == a * (base * p) + b * base
  {
    assert (a * p + b) * base == a * p * base + b * base;
    assert a * p * base == a * (p * base);
  }

  lemma RestBelow(base: nat, p: nat, b: nat, r: nat)
    requires b < p && r < base
    ensures b * base + r < base * p
  {
    MulMonotone(b, p - 1, base);
    assert (p - 1) * base == p * base - base;
  }

  /** A number needs more than w digits exactly when it is at least base^w. */
  lemma {:induction false} ShortestLength(base: nat, n: nat, w: nat)
    requires base > 1 && w > 0
    ensures |Shortest(base, n)| <= w <==> n < Pow(base, w)
    decreases w
  {
    PowPositive(base, w - 1);
    var p := Pow(base, w - 1);
    if n < base {
      MulMonotone(1, p, base);
    } else if w == 1 {
      assert Pow(base, 1) == base;
    } else {
      ShortestLength(base, n / base, w - 1);
      DivBelow(base, n, p);
    }
  }

  lemma DivBelow(base: nat, n: nat, p: nat)
    requires base > 1
    ensures n / base < p <==> n < base * p
  {
    var q := n / base;
    assert n == base * q + n % base;
    if q < p {
      MulMonotone(q, p - 1, base);
      assert (p - 1) * base == base * p - base;
      assert q * base == base * q;
    } else {
      MulMonotone(p, q, base);
      assert q * base == base * q && p * base == base * p;
    }
  }

  /** Zero-padding the shortest string on the left gives the w-digit string. */
  lemma {:induction false} PadShortest(base: nat, n: nat, w: nat)
    requires base > 1 && |Shortest(base, n)| <= w
    ensures Repeat(0 as nat, w - |Shortest(base, n)|) + Shortest(base, n) == Digits(base, n, w)
    decreases w
  {
    if n < base {
      ModOf(base, 0, n);
      DivBelow(base, n, 1);
      DigitsOfZero(base, w - 1);
      assert n / base == 0;
    } else {
      PadShortest(base, n / base, w - 1);
      var k := w - |Shortest(base, n)|;
      assert Repeat(0 as nat, k) + Shortest(base, n)
          == (Repeat(0 as nat, k) + Shortest(base, n / base)) + [n % base];
    }
  }

  lemma {:induction false} DigitsOfZero(base: nat, w: nat)
    requires base > 1
    ensures Digits(base, 0, w) == Repeat(0 as nat, w)
    decreases w
  {
    if w > 0 {
      DivBelow(base, 0, 1);
      ModOf(base, 0, 0);
      DigitsOfZero(base, w - 1);
    }
  }

  /** The shortest digits of a number of more than one digit do not start with 0. */
  lemma {:induction false} ShortestLeads(base: nat, n: nat)
    requires base > 1
    ensures |Shortest(base, n)| > 1 ==> Shortest(base, n)[0] != 0
    ensures |Shortest(base, n)| == 1 ==> Shortest(base, n)[0] == n
    decreases n
  {
    if n >= base {
      DivShrinks(base, n);
      ShortestLeads(base, n / base);
      DivBelow(base, n, 1);
    }
  }

  lemma {:induction false} ShortestValue(base: nat, n: nat)
    requires base > 1
    ensures Value(base, Shortest(base, n)) == n
    decreases n
  {
    hide Value;
    if n < base {
      ValueSingle(base, n);
    } else {
      DivShrinks(base, n);
      ShortestValue(base, n / base);
      ValueSnoc(base, Shortest(base, n / base), n % base);
      DivModLaw(n, base);
    }
  }

  lemma ValueEmpty(base: nat)
    ensures Value(base, []) == 0
  {
  }

  lemma ValueSingle(base: nat, d: nat)
    ensures Value(base, [d]) == d
  {
    assert [d][..0] == [];
  }

  lemma ValueSnoc(base: nat, ds: seq<nat>, d: nat)
    ensures Value(base, ds + [d]) == Value(base, ds) * base + d
  {
    assert (ds + [d])[..|ds|] == ds;
  }

  /** Appending digits scales the prefix. */
  lemma {:induction false} ValueConcat(base: nat, a: seq<nat>, b: seq<nat>)
    ensures Value(base, a + b) == Value(base, a) * Pow(base, |b|) + Value(base, b)
    decreases |b|
  {
    if b == [] {
      assert a + b == a;
    } else {
      var front, last := b[..|b| - 1], b[|b| - 1];
      ValueConcat(base, a, front);
      assert a + b == (a + front) + [last] && b == front + [last];
      ValueSnoc(base, a + front, last);
      ValueSnoc(base, front, last);
      Distribute(Value(base, a), Pow(base, |front|), Value(base, front), base);
    }
  }

  lemma Distribute(x: int, p: int, y: int, base: int)
    ensures (x * p + y) * base == x * (base * p) + y * base
  {
    assert x * p * base == x * (base * p);
  }

  /** Leading zeros do not change the value. */
  lemma LeadingZeros(base: nat, zeros: seq<nat>, ds: seq<nat>)
    requires forall i :: 0 <= i < |zeros| ==> zeros[i] == 0
    ensures Value(base, zeros + ds) == Value(base, ds)
  {
    ValueConcat(base, zeros, ds);
    ZeroValue(base, zeros);
  }

  lemma {:induction false} ZeroValue(base: nat, zeros: seq<nat>)
    requires forall i :: 0 <= i < |zeros| ==> zeros[i] == 0
    ensures Value(base, zeros) == 0
  {
    if zeros != [] { ZeroValue(base, zeros[..|zeros| - 1]); }
  }

  /** A prefix never denotes more than the whole string, so checking every prefix is checking the end. */
  lemma {:induction false} PrefixValue(base: nat, ds: seq<nat>, k: nat)
    requires base > 1 && k <= |ds|
    ensures Value(base, ds[..k]) <= Value(base, ds)
    decreases |ds| - k
  {
    if k == |ds| {
      assert ds[..k] == ds;
    } else {
      PrefixValue(base, ds, k + 1);
      assert ds[..k + 1][..k] == ds[..k];
      MulMonotone(1, base, Value(base, ds[..k]));
    }
  }

  /** Dividing twice is dividing once by the product. */
  lemma DivTwice(n: nat, a: nat, b: nat)
    requires a > 0 && b > 0
    ensures a * b > 0 && n / a / b == n / (a * b)
  {
    var q, r := n / a, n % a;
    DivModLaw(n, a);
    DivModLaw(q, b);
    var x, y := q / b, q % b;
    assert (x * b + y) * a + r == x * (a * b) + (y * a + r) by {
      assert (x * b + y) * a == x * b * a + y * a;
      assert x * b * a == x * (a * b);
    }
    MulMonotone(y, b - 1, a);
    assert (b - 1) * a == a * b - a;
    QuotientIs(n, a * b, x, y * a + r);
  }

  lemma QuotientIs(n: nat, d: nat, q: nat, r: nat)
    requires n == q * d + r && r < d
    ensures n / d == q
  {
    if d > 1 { DivMod(d, q, r); }
  }

  /** The digit of `n` that counts base^e. */
  function PlaceDigit(base: nat, n: nat, e: nat): (d: nat)
    requires base > 1
    ensures d < base
  {
    n / PowPos(base, e) % base
  }

  /** The i-th of w digits is the one that counts base^(w - 1 - i). */
  lemma {:induction false} DigitAt(base: nat, n: nat, w: nat, i: nat)
    requires base > 1 && i < w
    ensures Digits(base, n, w)[i] == PlaceDigit(base, n, w - 1 - i)
    decreases w
  {
    DigitsSnoc(base, n, w);
    if i < w - 1 {
      var p := PowPos(base, w - 2 - i);
      DigitAt(base, n / base, w - 1, i);
      assert Digits(base, n, w)[i] == Digits(base, n, w)[..w - 1][i];
      DivTwice(n, base, p);
      PowStep(base, w - 2 - i);
    } else {
      assert PowPos(base, 0) == 1 && n / 1 == n;
    }
  }
}
