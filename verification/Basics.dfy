/** Types and small facts shared by all modules. */
module Basics {
  type Byte = bv8
  type Bytes = seq<Byte>

  datatype Option<+T> = None | Some(value: T)
  datatype Result<+T, +E> = Ok(value: T) | Err(error: E) {
    predicate IsFailure() { Err? }
    function PropagateFailure<U>(): Result<U, E>
      requires Err?
    {
      Err(error)
    }
    function Extract(): T
      requires Ok?
    {
      value
    }
  }

  // ---- Bytes as numbers ---------------------------------------------------------------------

  type Octet = n: nat | n < 256

  function ByteOf(n: Octet): Byte { n as Byte }

  function ByteValue(b: Byte): Octet { b as int }

  lemma Doubled(b: Byte)
    requires b < 128
    ensures (2 * b) as int == 2 * (b as int) && (2 * b + 1) as int == 2 * (b as int) + 1
  {}

  /** A byte for each octet, built by doubling. */
  lemma {:induction false} ByteFor(n: Octet) returns (b: Byte)
    ensures b as int == n
  {
    b := 0;
    if n > 0 {
      var half := ByteFor(n / 2);
      Doubled(half);
      b := if n % 2 == 0 then 2 * half else 2 * half + 1;
    }
  }

  lemma ValueOfByte(n: Octet)
    ensures ByteValue(ByteOf(n)) == n
  {
    var b := ByteFor(n);
    assert ByteOf(b as int) == b;
  }

  lemma ByteOfValue(b: Byte)
    ensures ByteOf(ByteValue(b)) == b
  {}

  function Min(a: int, b: int): int { if a <= b then a else b }
  function Max(a: int, b: int): int { if a <= b then b else a }

  function Digit(d: nat): (c: char)
    requires d < 10
    ensures '0' <= c <= '9' && c == "0123456789"[d]
  {
    ('0' as int + d) as char
  }

  lemma DigitInjective(d: nat, e: nat)
    requires d < 10 && e < 10 && Digit(d) == Digit(e)
    ensures d == e
  {
    assert Digit(d) as int - '0' as int == d && Digit(e) as int - '0' as int == e;
  }

  /** The decimal digits of a number. */
  function Decimal(n: nat): (s: string)
    ensures |s| > 0
    ensures forall i :: 0 <= i < |s| ==> '0' <= s[i] <= '9'
  {
    if n < 10 then [Digit(n)] else Decimal(n / 10) + [Digit(n % 10)]
  }

  lemma DecimalEnds(n: nat)
    ensures var s := Decimal(n);
            && s[|s| - 1] == Digit(n % 10)
            && (n < 10 <==> |s| == 1)
            && (n >= 10 ==> s[..|s| - 1] == Decimal(n / 10))
  {}

  lemma {:induction false} DecimalInjective(m: nat, n: nat)
    requires Decimal(m) == Decimal(n)
    ensures m == n
    decreases m
  {
    hide Decimal, Digit;
    DecimalEnds(m);
    DecimalEnds(n);
    DigitInjective(m % 10, n % 10);
    if m >= 10 {
      DecimalInjective(m / 10, n / 10);
    }
  }

  function Zeros(n: nat): Bytes { seq(n, _ => 0) }

  function Pow2(e: nat): nat { if e == 0 then 1 else 2 * Pow2(e - 1) }

  ghost predicate Distinct<T>(xs: seq<T>) {
    forall i, j :: 0 <= i < j < |xs| ==> xs[i] != xs[j]
  }

  // ---- 64-bit numbers -----------------------------------------------------------------------

  const U64_LIMIT: nat := 0x1_0000_0000_0000_0000

  type U64 = n: nat | n < U64_LIMIT

  /** Addition and subtraction as the release build performs them. */
  function WrapAdd(a: nat, b: nat): U64 { (a + b) % U64_LIMIT }
  function WrapSub(a: U64, b: U64): U64 { (a - b) % U64_LIMIT }

  function SaturatingSub(a: nat, b: nat): nat { if a < b then 0 else a - b }

  // ---- Concatenation of a list of buffers ---------------------------------------------------

  function Flatten<T>(parts: seq<seq<T>>): seq<T> {
    if parts == [] then [] else parts[0] + Flatten(parts[1..])
  }

  lemma {:induction false} FlattenAppend<T>(a: seq<seq<T>>, b: seq<seq<T>>)
    ensures Flatten(a + b) == Flatten(a) + Flatten(b)
  {
    if a == [] {
      assert a + b == b;
    } else {
      assert (a + b)[1..] == a[1..] + b;
      FlattenAppend(a[1..], b);
    }
  }

  lemma FlattenPush<T>(a: seq<seq<T>>, x: seq<T>)
    ensures Flatten(a + [x]) == Flatten(a) + x
  {
    FlattenAppend(a, [x]);
    assert Flatten([x]) == x + Flatten<T>([]);
  }

  /** Part `i` sits after the parts before it. */
  lemma FlattenPart<T>(parts: seq<seq<T>>, i: nat)
    requires i < |parts|
    ensures var at := |Flatten(parts[..i])|;
            at + |parts[i]| <= |Flatten(parts)| && Flatten(parts)[at..at + |parts[i]|] == parts[i]
  {
    assert parts == (parts[..i] + [parts[i]]) + parts[i + 1..];
    FlattenAppend(parts[..i] + [parts[i]], parts[i + 1..]);
    FlattenPush(parts[..i], parts[i]);
  }

  /** Copies a list of buffers into one. */
  method Join<T>(parts: seq<seq<T>>) returns (whole: seq<T>)
    ensures whole == Flatten(parts)
  {
    whole := [];
    for i := 0 to |parts|
      invariant whole == Flatten(parts[..i])
    {
      FlattenPush(parts[..i], parts[i]);
      assert parts[..i + 1] == parts[..i] + [parts[i]];
      whole := whole + parts[i];
    }
    assert parts[..|parts|] == parts;
  }

  // ---- Multiples of a size, kept apart from other arithmetic ---------------------------------

  function Times(i: nat, size: nat): nat { i * size }

  lemma TimesStep(i: nat, size: nat)
    ensures Times(i + 1, size) == Times(i, size) + size && Times(0, size) == 0 && Times(1, size) == size
  {}

  lemma {:induction false} TimesFits(i: nat, k: nat, size: nat)
    requires i < k
    ensures Times(i, size) + size <= Times(k, size)
    ensures Times(i + 1, size) == Times(i, size) + size
  {
    hide Times;
    TimesStep(k - 1, size);
    if i < k - 1 {
      TimesFits(i, k - 1, size);
    }
  }

  lemma TimesIsProduct(a: nat, b: nat)
    ensures Times(a, b) == a * b
  {}

  /** Division undoes multiplication. */
  lemma DivTimes(n: nat, size: nat)
    requires n > 0
    ensures Times(n, size) / n == size
  {
    var q := (n * size) / n;
    assert n * size == n * q + (n * size) % n;
    AtLeast(n, size - q); Distribute(n, q, size - q);
    AtLeast(n, q - size); Distribute(n, size, q - size);
  }

  lemma {:induction false} AtLeast(n: nat, t: int)
    ensures t >= 1 ==> n * t >= n
    decreases t
  {
    if t > 1 {
      AtLeast(n, t - 1);
      Distribute(n, t - 1, 1);
    }
  }

  lemma Distribute(n: nat, a: int, b: int)
    ensures n * (a + b) == n * a + n * b
  {}

  // ---- Equal slices --------------------------------------------------------------------------

  /** The equal slices of a buffer, put together again. */
  lemma {:induction false} FlattenSlices<T>(parts: seq<seq<T>>, whole: seq<T>, size: nat)
    requires |whole| == Times(|parts|, size)
    requires forall i :: 0 <= i < |parts| ==> Slice(whole, i, size) == Some(parts[i])
    ensures Flatten(parts) == whole
    decreases |parts|
  {
    hide Times;
    if parts == [] {
      TimesStep(0, size);
    } else {
      var k := |parts| - 1;
      TimesStep(k, size);
      var front := whole[..Times(k, size)];
      forall i | 0 <= i < k ensures Slice(front, i, size) == Some(parts[..k][i]) {
        TimesFits(i, k, size);
        var at := Times(i, size);
        assert front[at..at + size] == whole[at..at + size];
        assert Slice(whole, i, size) == Some(parts[i]);
      }
      FlattenSlices(parts[..k], front, size);
      FlattenPush(parts[..k], parts[k]);
      assert parts == parts[..k] + [parts[k]];
      assert whole == front + whole[Times(k, size)..];
    }
  }

  function Slice<T>(whole: seq<T>, i: nat, size: nat): Option<seq<T>> {
    if Times(i, size) + size <= |whole| then Some(whole[Times(i, size)..Times(i, size) + size]) else None
  }

  lemma {:induction false} FlattenEqualLength<T>(parts: seq<seq<T>>, size: nat)
    requires forall i :: 0 <= i < |parts| ==> |parts[i]| == size
    ensures |Flatten(parts)| == Times(|parts|, size)
  {
    hide Times;
    TimesStep(0, size);
    if parts != [] {
      FlattenEqualLength(parts[1..], size);
      TimesStep(|parts| - 1, size);
    }
  }

  /** Parts of equal length are the equal slices of their concatenation. */
  lemma SliceFlatten<T>(parts: seq<seq<T>>, i: nat, size: nat)
    requires i < |parts| && forall j :: 0 <= j < |parts| ==> |parts[j]| == size
    ensures Slice(Flatten(parts), i, size) == Some(parts[i])
  {
    hide Times;
    FlattenPart(parts, i);
    FlattenEqualLength(parts[..i], size);
  }

  // ---- Division, rounding up ----------------------------------------------------------------

  function CeilDiv(n: nat, d: nat): nat
    requires d > 0
  {
    (n + d - 1) / d
  }

  lemma TimesComm(a: nat, b: nat)
    ensures Times(a, b) == Times(b, a)
  {}

  lemma CeilDivBounds(n: nat, d: nat)
    requires d > 0
    ensures n <= Times(d, CeilDiv(n, d)) <= n + d - 1
    ensures n > 0 <==> CeilDiv(n, d) > 0
  {}

  /** A buffer of `n` bytes cut into pieces of `d`: every piece but the last is full. */
  lemma PieceBounds(n: nat, d: nat, i: nat)
    requires d > 0
    ensures i < CeilDiv(n, d) <==> Times(i, d) < n
  {
    hide Times, CeilDiv;
    var q := CeilDiv(n, d);
    CeilDivBounds(n, d);
    TimesComm(q, d);
    if i < q {
      TimesStep(q - 1, d);
      if i < q - 1 { TimesFits(i, q - 1, d); }
    } else if q < i {
      TimesFits(q, i, d);
    }
  }
}
