/**
 The systematic Reed-Solomon code of the reed-solomon-erasure crate: `k` data shards are read,
 byte position by byte position, as the values of a polynomial of degree below `k` at the points
 0, 1, ..., k-1 of GF(2^8), and shard `r` holds its values at point `r`.
 */
module ReedSolomon {
  import opened Basics
  import opened GaloisField

  // ---- Polynomials, lowest coefficient first ------------------------------------------------

  function Eval(p: seq<Byte>, x: Byte): Byte {
    if p == [] then 0 else Add(p[0], Mul(x, Eval(p[1..], x)))
  }

  function Sum(p: seq<Byte>, q: seq<Byte>): seq<Byte>
    requires |p| == |q|
  {
    seq(|p|, i requires 0 <= i < |p| => Add(p[i], q[i]))
  }

  function Scale(c: Byte, p: seq<Byte>): seq<Byte> {
    seq(|p|, i requires 0 <= i < |p| => Mul(c, p[i]))
  }

  /** The quotient of `p` by the linear factor with root `a`. */
  function Quotient(p: seq<Byte>, a: Byte): (q: seq<Byte>)
    ensures |q| == if |p| == 0 then 0 else |p| - 1
  {
    if |p| <= 1 then [] else [Eval(p[1..], a)] + Quotient(p[1..], a)
  }

  lemma {:induction false} EvalSum(p: seq<Byte>, q: seq<Byte>, x: Byte)
    requires |p| == |q|
    ensures Eval(Sum(p, q), x) == Add(Eval(p, x), Eval(q, x))
  {
    hide Add, Mul;
    if p == [] {
      AddZero(0);
    } else {
      assert Sum(p, q)[1..] == Sum(p[1..], q[1..]);
      EvalSum(p[1..], q[1..], x);
      var u, v := Eval(p[1..], x), Eval(q[1..], x);
      MulAdd(x, u, v);
      AddInterchange(p[0], Mul(x, u), q[0], Mul(x, v));
    }
  }

  lemma {:induction false} EvalScale(c: Byte, p: seq<Byte>, x: Byte)
    ensures Eval(Scale(c, p), x) == Mul(c, Eval(p, x))
  {
    hide Add, Mul;
    if p == [] {
      MulNone(c);
    } else {
      assert Scale(c, p)[1..] == Scale(c, p[1..]);
      EvalScale(c, p[1..], x);
      var u := Eval(p[1..], x);
      MulAdd(c, p[0], Mul(x, u));
      MulAssoc(x, c, u); MulComm(x, c); MulAssoc(c, x, u);
    }
  }

  lemma {:induction false} EvalPadded(p: seq<Byte>, x: Byte)
    ensures Eval(p + [0], x) == Eval(p, x)
  {
    hide Add, Mul;
    if p == [] {
      assert Eval([0], x) == Add(0, Mul(x, Eval([], x)));
      MulNone(x); AddZero(0);
    } else {
      assert (p + [0])[1..] == p[1..] + [0];
      EvalPadded(p[1..], x);
    }
  }

  /** Division with remainder by a linear factor. */
  lemma {:induction false} EvalQuotient(p: seq<Byte>, a: Byte, x: Byte)
    requires p != []
    ensures Eval(p, x) == Add(Eval(p, a), Mul(Add(x, a), Eval(Quotient(p, a), x)))
  {
    hide Add, Mul;
    var t := p[1..];
    if t == [] {
      MulNone(x); MulNone(a); MulNone(Add(x, a)); AddZero(Eval(p, a));
    } else {
      EvalQuotient(t, a, x);
      var ta, q := Eval(t, a), Eval(Quotient(t, a), x);
      assert Quotient(p, a)[1..] == Quotient(t, a);
      Telescope(p[0], a, x, ta, q);
    }
  }

  // c + x(ta + (x+a)q) == (c + a*ta) + (x+a)(ta + x*q)
  lemma Telescope(c: Byte, a: Byte, x: Byte, ta: Byte, q: Byte)
    ensures Add(c, Mul(x, Add(ta, Mul(Add(x, a), q)))) == Add(Add(c, Mul(a, ta)), Mul(Add(x, a), Add(ta, Mul(x, q))))
  {
    hide Add, Mul;
    var s := Add(x, a);
    var sxq := Mul(s, Mul(x, q));
    MulAdd(x, ta, Mul(s, q));
    MulAssoc(x, s, q); MulComm(x, s); MulAssoc(s, x, q);
    MulAdd(s, ta, Mul(x, q));
    AddMul(x, a, ta);
    var xt, at := Mul(x, ta), Mul(a, ta);
    AddAssoc(xt, at, sxq);
    AddAssoc(c, at, Add(xt, Add(at, sxq)));
    AddAssoc(at, xt, Add(at, sxq)); AddComm(at, xt); AddAssoc(xt, at, Add(at, sxq));
    AddAssoc(at, at, sxq); AddZero(at); AddZero(sxq);
  }

  // ---- Interpolation ------------------------------------------------------------------------

  function Slopes(xs: seq<Byte>, ys: seq<Byte>): seq<Byte>
    requires |xs| == |ys| > 0
  {
    seq(|xs| - 1, i requires 0 <= i < |xs| - 1 => Mul(Add(ys[i + 1], ys[0]), Inv(Add(xs[i + 1], xs[0]))))
  }

  /** Newton's form of the polynomial of degree below `|xs|` through the points (xs[i], ys[i]). */
  function Interpolate(xs: seq<Byte>, ys: seq<Byte>): (p: seq<Byte>)
    requires |xs| == |ys|
    ensures |p| == |xs|
    decreases |xs|
  {
    if xs == [] then []
    else
      var q := Interpolate(xs[1..], Slopes(xs, ys));
      Sum([ys[0]] + q, Scale(xs[0], q) + [0])
  }

  lemma EvalInterpolate(xs: seq<Byte>, ys: seq<Byte>, x: Byte)
    requires |xs| == |ys| > 0
    ensures Eval(Interpolate(xs, ys), x)
         == Add(ys[0], Mul(Add(x, xs[0]), Eval(Interpolate(xs[1..], Slopes(xs, ys)), x)))
  {
    hide Add, Mul, Inv;
    var q := Interpolate(xs[1..], Slopes(xs, ys));
    EvalSum([ys[0]] + q, Scale(xs[0], q) + [0], x);
    assert ([ys[0]] + q)[1..] == q;
    EvalPadded(Scale(xs[0], q), x);
    EvalScale(xs[0], q, x);
    var v := Eval(q, x);
    AddAssoc(ys[0], Mul(x, v), Mul(xs[0], v));
    AddMul(x, xs[0], v);
  }

  lemma {:induction false} InterpolateHits(xs: seq<Byte>, ys: seq<Byte>, j: nat)
    requires |xs| == |ys| && j < |xs|
    requires Distinct(xs)
    ensures Eval(Interpolate(xs, ys), xs[j]) == ys[j]
    decreases |xs|
  {
    hide Add, Mul, Inv;
    EvalInterpolate(xs, ys, xs[j]);
    var q := Interpolate(xs[1..], Slopes(xs, ys));
    if j == 0 {
      AddZero(xs[0]); MulUnits(Eval(q, xs[0])); AddZero(ys[0]);
    } else {
      InterpolateHits(xs[1..], Slopes(xs, ys), j - 1);
      var dx, dy := Add(xs[j], xs[0]), Add(ys[j], ys[0]);
      AddCancel(xs[j], xs[0]);
      InvLaw(dx);
      MulComm(dx, Mul(dy, Inv(dx))); MulAssoc(dy, Inv(dx), dx); MulComm(Inv(dx), dx);
      MulComm(dy, 1); MulUnits(dy);
      AddComm(ys[0], dy); AddCancel(ys[j], ys[0]);
    }
  }

  // ---- Uniqueness ---------------------------------------------------------------------------

  lemma {:induction false} RootsVanish(p: seq<Byte>, xs: seq<Byte>, x: Byte)
    requires |p| <= |xs| && Distinct(xs)
    requires forall i :: 0 <= i < |xs| ==> Eval(p, xs[i]) == 0
    ensures Eval(p, x) == 0
    decreases |p|
  {
    hide Add, Mul;
    if p != [] {
      var a, q := xs[0], Quotient(p, xs[0]);
      forall i | 0 <= i < |xs[1..]| ensures Eval(q, xs[1..][i]) == 0 {
        var b := xs[i + 1];
        EvalQuotient(p, a, b);
        AddZero(Mul(Add(b, a), Eval(q, b)));
        AddCancel(b, a);
        MulCancel(Add(b, a), Eval(q, b));
      }
      RootsVanish(q, xs[1..], x);
      EvalQuotient(p, a, x);
      MulNone(Add(x, a)); AddZero(0);
    }
  }

  /** Two polynomials of degree below `|xs|` that agree on `xs` agree everywhere. */
  lemma AgreeEverywhere(p: seq<Byte>, q: seq<Byte>, xs: seq<Byte>, x: Byte)
    requires |p| == |q| <= |xs| && Distinct(xs)
    requires forall i :: 0 <= i < |xs| ==> Eval(p, xs[i]) == Eval(q, xs[i])
    ensures Eval(p, x) == Eval(q, x)
  {
    hide Add;
    forall i | 0 <= i < |xs| ensures Eval(Sum(p, q), xs[i]) == 0 {
      EvalSum(p, q, xs[i]); AddZero(Eval(p, xs[i]));
    }
    RootsVanish(Sum(p, q), xs, x);
    EvalSum(p, q, x);
    AddCancel(Eval(p, x), Eval(q, x));
  }

  // ---- The code -----------------------------------------------------------------------------

  /** The field has 256 points, which bounds the number of shards. */
  type ShardIndex = Octet

  function Point(r: ShardIndex): Byte { ByteOf(r) }

  function Points(at: seq<ShardIndex>): seq<Byte> {
    seq(|at|, i requires 0 <= i < |at| => Point(at[i]))
  }

  function FirstPoints(k: nat): seq<ShardIndex>
    requires k <= 256
  {
    seq(k, i requires 0 <= i < k => i)
  }

  /** Byte `r` of the codeword whose first `|column|` bytes are `column`. */
  function Codeword(column: seq<Byte>, r: ShardIndex): Byte
    requires |column| <= 256
  {
    Eval(Interpolate(Points(FirstPoints(|column|)), column), Point(r))
  }

  lemma PointsDistinct(at: seq<ShardIndex>)
    requires Distinct(at)
    ensures Distinct(Points(at))
  {
    hide ByteOf;
    forall i, j | 0 <= i < j < |at| ensures Point(at[i]) != Point(at[j]) {
      ValueOfByte(at[i]); ValueOfByte(at[j]);
    }
  }

  /** The code is systematic: data bytes are their own codeword bytes. */
  /**
   The code is the values of a polynomial: whichever polynomial with at most as many coefficients
   as there are data shards takes their bytes at 0, 1, 2 and so on, shard `r` is its value at `r`.
   */
  lemma CodewordIsPolynomial(column: seq<Byte>, p: seq<Byte>, r: ShardIndex)
    requires |column| <= 256 && |p| == |column|
    requires forall i :: 0 <= i < |column| ==> Eval(p, ByteOf(i)) == column[i]
    ensures Codeword(column, r) == Eval(p, ByteOf(r))
  {
    hide Eval, Interpolate, ByteOf;
    var at := FirstPoints(|column|);
    var xs := Points(at);
    PointsDistinct(at);
    forall i | 0 <= i < |column| ensures Eval(Interpolate(xs, column), xs[i]) == Eval(p, xs[i]) {
      InterpolateHits(xs, column, i);
    }
    AgreeEverywhere(Interpolate(xs, column), p, xs, ByteOf(r));
  }

  lemma Systematic(column: seq<Byte>, r: ShardIndex)
    requires r < |column| <= 256
    ensures Codeword(column, r) == column[r]
  {
    hide Eval, Interpolate;
    var at := FirstPoints(|column|);
    PointsDistinct(at);
    assert Points(at)[r] == Point(r);
    InterpolateHits(Points(at), column, r);
  }

  /** Any `k` distinct codeword bytes determine every codeword byte. */
  lemma AnyKDetermine(column: seq<Byte>, at: seq<ShardIndex>, ys: seq<Byte>, r: ShardIndex)
    requires |column| <= 256 && Distinct(at)
    requires |at| == |ys| == |column|
    requires forall i :: 0 <= i < |at| ==> ys[i] == Codeword(column, at[i])
    ensures Eval(Interpolate(Points(at), ys), Point(r)) == Codeword(column, r)
  {
    hide Eval, Interpolate;
    var xs := Points(at);
    var p := Interpolate(Points(FirstPoints(|column|)), column);
    PointsDistinct(at);
    forall i | 0 <= i < |xs| ensures Eval(Interpolate(xs, ys), xs[i]) == Eval(p, xs[i]) {
      InterpolateHits(xs, ys, i);
    }
    AgreeEverywhere(Interpolate(xs, ys), p, xs, Point(r));
  }

  // ---- The operations of the crate ----------------------------------------------------------

  datatype CodeError =
    | TooFewDataShards | TooFewParityShards | TooManyShards
    | WrongShardCount | EmptyShard | IncorrectShardSize | TooFewShardsPresent

  /** Why the crate refuses to build a code, if it does. */
  function ConfigError(k: nat, m: nat): Option<CodeError> {
    if k == 0 then Some(TooFewDataShards)
    else if m == 0 then Some(TooFewParityShards)
    else if k + m > 256 then Some(TooManyShards)
    else None
  }

  /** The positions of the shards that are present, in increasing order. */
  function Present<T>(shards: seq<Option<T>>): (at: seq<nat>)
    ensures |at| <= |shards|
    ensures forall i :: 0 <= i < |at| ==> at[i] < |shards| && shards[at[i]].Some?
    ensures forall i, j :: 0 <= i < j < |at| ==> at[i] < at[j]
    ensures forall r :: 0 <= r < |shards| && shards[r].Some? ==> r in at
    decreases |shards|
  {
    if shards == [] then []
    else
      var n := |shards| - 1;
      var rest := Present(shards[..n]);
      if shards[n].Some? then rest + [n] else rest
  }

  /** The first present shard that is empty or differs in size from the one before it. */
  function SizeError(shards: seq<Option<Bytes>>, size: Option<nat>): (e: Option<CodeError>)
    ensures e.None? ==> forall r :: 0 <= r < |shards| && shards[r].Some? ==>
      |shards[r].value| > 0 && (size.Some? ==> |shards[r].value| == size.value)
    ensures e.None? ==> forall q, r :: 0 <= q < |shards| && 0 <= r < |shards| && shards[q].Some? && shards[r].Some? ==>
      |shards[q].value| == |shards[r].value|
    decreases |shards|
  {
    if shards == [] then None
    else match shards[0]
      case None => SizeError(shards[1..], size)
      case Some(data) =>
        if data == [] then Some(EmptyShard)
        else if size.Some? && size.value != |data| then Some(IncorrectShardSize)
        else SizeError(shards[1..], Some(|data|))
  }

  function Column(data: seq<Bytes>, j: nat): seq<Byte>
    requires forall i :: 0 <= i < |data| ==> j < |data[i]|
  {
    seq(|data|, i requires 0 <= i < |data| => data[i][j])
  }

  predicate SameSize(data: seq<Bytes>, size: nat) {
    forall i :: 0 <= i < |data| ==> |data[i]| == size
  }

  /** Shard `r` of the code over the data shards `data`. */
  function CodeShard(data: seq<Bytes>, size: nat, r: ShardIndex): (s: Bytes)
    requires |data| <= 256 && SameSize(data, size)
    ensures |s| == size
  {
    seq(size, j requires 0 <= j < size => Codeword(Column(data, j), r))
  }

  /** The first buffer that is empty, or not as long as those before it, is what is wrong. */
  lemma {:induction false} SizeErrorFirst(shards: seq<Option<Bytes>>, size: nat, i: nat)
    requires i < |shards| && shards[i].Some? && size > 0
    requires forall q :: 0 <= q < i && shards[q].Some? ==> |shards[q].value| == size
    requires |shards[i].value| != size
    ensures var before := exists q :: 0 <= q < i && shards[q].Some?;
            var e := if shards[i].value == [] then EmptyShard else IncorrectShardSize;
            && SizeError(shards, Some(size)) == Some(e)
            && (before || e == EmptyShard ==> SizeError(shards, None) == Some(e))
  {
    if i > 0 {
      assert forall q :: 0 <= q < i - 1 && shards[1..][q].Some? ==> |shards[q + 1].value| == size;
      SizeErrorFirst(shards[1..], size, i - 1);
      if shards[0].None? && exists q :: 0 <= q < i && shards[q].Some? {
        var q :| 0 <= q < i && shards[q].Some?;
        assert shards[1..][q - 1].Some?;
      }
    }
  }

  /** Rebuilds shard `r` from the shards at positions `at`. */
  function Rebuild(shards: seq<Option<Bytes>>, at: seq<ShardIndex>, size: nat, r: ShardIndex): Bytes
    requires forall i :: 0 <= i < |at| ==> at[i] < |shards| && shards[at[i]].Some? && |shards[at[i]].value| == size
  {
    seq(size, j requires 0 <= j < size =>
      Eval(Interpolate(Points(at), seq(|at|, i requires 0 <= i < |at| => shards[at[i]].value[j])), Point(r)))
  }

  /** The crate's reconstruction: fills in every missing shard from the first `k` present ones. */
  function Reconstruct(k: nat, m: nat, shards: seq<Option<Bytes>>): Result<seq<Option<Bytes>>, CodeError>
    requires ConfigError(k, m).None?
  {
    var at := Present(shards);
    if |shards| != k + m then Err(WrongShardCount)
    else if SizeError(shards, None).Some? then Err(SizeError(shards, None).value)
    else if |at| == k + m then Ok(shards)
    else if |at| < k then Err(TooFewShardsPresent)
    else
      var size := |shards[at[0]].value|;
      Ok(seq(k + m, r requires 0 <= r < k + m =>
        if shards[r].Some? then shards[r] else Some(Rebuild(shards, at[..k], size, r))))
  }

  /**
   What the crate refuses, in order; otherwise shards that are present stay as they are, whatever they
   hold, and only missing ones are rebuilt, from the first `k` that are present.
   */
  lemma ReconstructExact(k: nat, m: nat, shards: seq<Option<Bytes>>, r: nat)
    requires ConfigError(k, m).None?
    ensures var result, at := Reconstruct(k, m, shards), Present(shards);
            && (|shards| != k + m ==> result == Err(WrongShardCount))
            && (|shards| == k + m && SizeError(shards, None).Some? ==> result == Err(SizeError(shards, None).value))
            && (|shards| == k + m && SizeError(shards, None).None? && |at| < k ==> result == Err(TooFewShardsPresent))
            && (|shards| == k + m && SizeError(shards, None).None? && |at| >= k ==>
                  && result.Ok? && |result.value| == k + m
                  && (r < k + m && shards[r].Some? ==> result.value[r] == shards[r])
                  && (r < k + m && shards[r].None? ==>
                        result.value[r] == Some(Rebuild(shards, at[..k], |shards[at[0]].value|, r))))
  {
    hide Rebuild, SizeError;
    if |shards| == k + m && |Present(shards)| == k + m {
      AllPresent(shards);
    }
  }

  /** `shards` holds, at every position that is present, the shard of the code at that position. */
  ghost predicate SomeOfCode(shards: seq<Option<Bytes>>, data: seq<Bytes>, size: nat)
    requires |data| <= 256 && SameSize(data, size)
  {
    |shards| <= 256 && forall r :: 0 <= r < |shards| && shards[r].Some? ==> shards[r].value == CodeShard(data, size, r)
  }

  lemma {:induction false} NoSizeError(shards: seq<Option<Bytes>>, size: nat, before: Option<nat>)
    requires size > 0 && (before.Some? ==> before.value == size)
    requires forall r :: 0 <= r < |shards| && shards[r].Some? ==> |shards[r].value| == size
    ensures SizeError(shards, before).None?
    decreases |shards|
  {
    if shards != [] {
      NoSizeError(shards[1..], size, if shards[0].Some? then Some(size) else before);
    }
  }

  lemma RebuildCorrect(shards: seq<Option<Bytes>>, data: seq<Bytes>, size: nat, at: seq<ShardIndex>, r: ShardIndex)
    requires |data| <= 256 && SameSize(data, size) && SomeOfCode(shards, data, size)
    requires Distinct(at) && |at| == |data|
    requires forall i :: 0 <= i < |at| ==> at[i] < |shards| && shards[at[i]].Some?
    ensures Rebuild(shards, at, size, r) == CodeShard(data, size, r)
  {
    hide Eval, Interpolate, Codeword;
    forall j | 0 <= j < size ensures Rebuild(shards, at, size, r)[j] == CodeShard(data, size, r)[j] {
      AnyKDetermine(Column(data, j), at, seq(|at|, i requires 0 <= i < |at| => shards[at[i]].value[j]), r);
    }
  }

  /** With any `k` shards of the code in place, reconstruction restores all of them. */
  lemma ReconstructCorrect(k: nat, m: nat, shards: seq<Option<Bytes>>, data: seq<Bytes>, size: nat)
    requires ConfigError(k, m).None? && |shards| == k + m && |data| == k
    requires size > 0 && SameSize(data, size) && SomeOfCode(shards, data, size)
    requires |Present(shards)| >= k
    ensures Reconstruct(k, m, shards) == Ok(seq(k + m, r requires 0 <= r < k + m => Some(CodeShard(data, size, r))))
  {
    hide Rebuild, CodeShard, Present, SizeError;
    NoSizeError(shards, size, None);
    var at := Present(shards);
    var full := seq(k + m, r requires 0 <= r < k + m => Some(CodeShard(data, size, r)));
    if |at| == k + m {
      AllPresent(shards);
      assert shards == full;
    } else {
      var filled := Reconstruct(k, m, shards).value;
      forall r | 0 <= r < k + m ensures filled[r] == full[r] {
        RebuildCorrect(shards, data, size, at[..k], r);
      }
      assert filled == full;
    }
  }

  lemma {:induction false} AllPresent<T>(shards: seq<Option<T>>)
    requires |Present(shards)| == |shards|
    ensures forall r :: 0 <= r < |shards| ==> shards[r].Some?
    decreases |shards|
  {
    if shards != [] {
      AllPresent(shards[..|shards| - 1]);
    }
  }
}
