/** Types shared by every module: bytes, optional values and results. */
module Prelude {

  type Byte = b: nat | b < 256

  datatype Option<+T> = None | Some(value: T)

  /** The source's `Result`: every error carries only a message, so one failure value models them all. */
  datatype Result<+T> = Ok(value: T) | Err {

    predicate IsFailure() {
      Err?
    }

    function PropagateFailure<U>(): Result<U>
      requires Err?
    {
      Err
    }

    function Extract(): T
      requires Ok?
    {
      value
    }
  }

  function Max(a: int, b: int): int {
    if a < b then b else a
  }

  function Min(a: int, b: int): int {
    if a < b then a else b
  }

  const I64_MAX: int := 0x7FFF_FFFF_FFFF_FFFF
  const I64_MIN: int := -0x8000_0000_0000_0000
  const I128_MAX: int := 0x7FFF_FFFF_FFFF_FFFF_FFFF_FFFF_FFFF_FFFF
  const I128_MIN: int := -0x8000_0000_0000_0000_0000_0000_0000_0000

  function Abs(n: int): nat {
    if n < 0 then -n else n
  }

  function Repeat<T>(x: T, n: nat): seq<T> {
    seq(n, _ => x)
  }

  /** The first index of `x` at or after `from`, or |s| when there is none. */
  function IndexFrom<T(==)>(s: seq<T>, x: T, from: nat): (i: nat)
    requires from <= |s|
    ensures from <= i <= |s|
    ensures x !in s[from..i]
    ensures i < |s| ==> s[i] == x
    decreases |s| - from
  {
    if from == |s| || s[from] == x then
      from
    else
      var i := IndexFrom(s, x, from + 1);
      assert s[from..i] == [s[from]] + s[from + 1..i];
      i
  }

  lemma MultipleMod(q: int, m: nat)
    requires m > 0
    ensures (m * q) % m == 0
  {
    var d := q - m * q / m;
    assert (m * q) % m == m * d;
    assert d * m == m * d;
  }
}
