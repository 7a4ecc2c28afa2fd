/**
 The field GF(2^8) over which the shards are coded: bytes added with XOR and multiplied as
 polynomials over GF(2) modulo x^8 + x^4 + x^3 + x^2 + 1.  All field laws are proved here, so that
 the modules above never look inside `Add` and `Mul`.
 */
module GaloisField {
  import opened Basics
  /** Addition, which is its own inverse. */
  function Add(a: Byte, b: Byte): Byte { a ^ b }

  /** Multiplication by the polynomial x, reduced by the field polynomial. */
  function XTime(a: Byte): Byte { Add(Double(a), Overflow(a)) }

  function Double(a: Byte): Byte { a << 1 }

  function Overflow(a: Byte): Byte { if a & 0x80 != 0 then 0x1d else 0 }

  /** The coefficient of x^0 in `b`, as a factor of `a`. */
  function Sel(b: Byte, a: Byte): Byte { if b & 1 != 0 then a else 0 }

  function Half(b: Byte): Byte { b >> 1 }

  /** Multiplication by Horner's rule over the bits of `b`. */
  function Mul(a: Byte, b: Byte): Byte
    decreases b
  {
    if b == 0 then 0 else Add(Sel(b, a), XTime(Mul(a, Half(b))))
  }

  // ---- Addition -----------------------------------------------------------------------------

  lemma AddZero(a: Byte)
    ensures Add(a, 0) == a == Add(0, a) && Add(a, a) == 0
  {}

  lemma AddComm(a: Byte, b: Byte)
    ensures Add(a, b) == Add(b, a)
  {}

  lemma AddAssoc(a: Byte, b: Byte, c: Byte)
    ensures Add(Add(a, b), c) == Add(a, Add(b, c))
  {}

  lemma AddCancel(a: Byte, b: Byte)
    ensures Add(Add(a, b), b) == a
    ensures Add(a, b) == 0 <==> a == b
  {}

  lemma AddInterchange(a: Byte, b: Byte, c: Byte, d: Byte)
    ensures Add(Add(a, b), Add(c, d)) == Add(Add(a, c), Add(b, d))
  {
    hide Add;
    AddAssoc(a, b, Add(c, d)); AddAssoc(b, c, d); AddComm(b, c); AddAssoc(c, b, d); AddAssoc(a, c, Add(b, d));
  }

  // ---- Single steps of multiplication -------------------------------------------------------

  lemma XTimeAdd(a: Byte, b: Byte)
    ensures XTime(Add(a, b)) == Add(XTime(a), XTime(b))
  {
    hide Add, Double, Overflow;
    DoubleAdd(a, b); OverflowAdd(a, b);
    AddInterchange(Double(a), Double(b), Overflow(a), Overflow(b));
  }

  lemma DoubleAdd(a: Byte, b: Byte)
    ensures Double(Add(a, b)) == Add(Double(a), Double(b))
  {}

  lemma OverflowAdd(a: Byte, b: Byte)
    ensures Overflow(Add(a, b)) == Add(Overflow(a), Overflow(b))
  {}

  lemma XTimeZero()
    ensures XTime(0) == 0
  {}

  lemma SelLaws(c: Byte, a: Byte, b: Byte)
    ensures Sel(c, Add(a, b)) == Add(Sel(c, a), Sel(c, b))
    ensures Sel(c, XTime(a)) == XTime(Sel(c, a))
    ensures Sel(0, a) == 0 && Sel(c, 0) == 0
    ensures Sel(c, a) == (if Sel(c, 1) == 0 then 0 else a) && Sel(c, 1) in {0, 1}
  {}

  lemma HalfLaws(a: Byte)
    ensures a != 0 ==> Half(a) < a
    ensures Half(0) == 0
    ensures a == Add(Sel(a, 1), XTime(Half(a)))
  {}

  /** Horner's rule holds for every second factor, zero included. */
  lemma MulUnfold(a: Byte, b: Byte)
    ensures Mul(a, b) == Add(Sel(b, a), XTime(Mul(a, Half(b))))
    ensures b != 0 ==> Half(b) < b
  {
    hide Add, XTime, Sel, Half;
    AddZero(0); XTimeZero(); SelLaws(0, a, 0); HalfLaws(b); HalfLaws(0);
  }

  // ---- Ring laws ----------------------------------------------------------------------------

  lemma {:induction false} AddMul(a: Byte, b: Byte, c: Byte)
    ensures Mul(Add(a, b), c) == Add(Mul(a, c), Mul(b, c))
    decreases c
  {
    hide Add, XTime, Sel, Half, Mul;
    if c == 0 {
      MulNone(a); MulNone(b); MulNone(Add(a, b)); AddZero(0);
    } else {
      MulUnfold(a, c); MulUnfold(b, c); MulUnfold(Add(a, b), c);
      AddMul(a, b, Half(c));
      SelLaws(c, a, b);
      XTimeAdd(Mul(a, Half(c)), Mul(b, Half(c)));
      AddInterchange(Sel(c, a), Sel(c, b), XTime(Mul(a, Half(c))), XTime(Mul(b, Half(c))));
    }
  }

  lemma MulNone(a: Byte)
    ensures Mul(a, 0) == 0
  {}

  lemma {:induction false} MulXTime(a: Byte, b: Byte)
    ensures Mul(XTime(a), b) == XTime(Mul(a, b))
    decreases b
  {
    hide Add, XTime, Sel, Half, Mul;
    if b == 0 {
      MulNone(a); MulNone(XTime(a)); XTimeZero();
    } else {
      MulUnfold(a, b); MulUnfold(XTime(a), b);
      MulXTime(a, Half(b));
      SelLaws(b, a, 0);
      XTimeAdd(Sel(b, a), XTime(Mul(a, Half(b))));
    }
  }

  lemma {:induction false} MulUnits(b: Byte)
    ensures Mul(0, b) == 0 && Mul(1, b) == b
    decreases b
  {
    hide Add, XTime, Sel, Half, Mul;
    if b == 0 {
      MulNone(0); MulNone(1);
    } else {
      MulUnfold(0, b); MulUnfold(1, b);
      MulUnits(Half(b));
      SelLaws(b, 0, 0); XTimeZero(); AddZero(0); HalfLaws(b);
    }
  }

  lemma {:induction false} MulComm(a: Byte, b: Byte)
    ensures Mul(a, b) == Mul(b, a)
    decreases b
  {
    hide Add, XTime, Sel, Half, Mul;
    MulUnits(a);
    if b == 0 {
      MulNone(a);
    } else {
      MulUnfold(a, b); HalfLaws(b);
      MulComm(a, Half(b));
      AddMul(Sel(b, 1), XTime(Half(b)), a);
      MulXTime(Half(b), a);
      SelLaws(b, a, 0);
    }
  }

  lemma {:induction false} MulAssoc(a: Byte, b: Byte, c: Byte)
    ensures Mul(Mul(a, b), c) == Mul(a, Mul(b, c))
    decreases c
  {
    hide Add, XTime, Sel, Half, Mul;
    if c == 0 {
      MulNone(Mul(a, b)); MulNone(b); MulNone(a);
    } else {
      MulUnfold(Mul(a, b), c); MulUnfold(b, c);
      MulAssoc(a, b, Half(c));
      MulAdd(a, Sel(c, b), XTime(Mul(b, Half(c))));
      MulComm(a, XTime(Mul(b, Half(c)))); MulXTime(Mul(b, Half(c)), a); MulComm(Mul(b, Half(c)), a);
      SelLaws(c, b, 0); SelLaws(c, Mul(a, b), 0); MulNone(a);
    }
  }

  lemma MulAdd(a: Byte, b: Byte, c: Byte)
    ensures Mul(a, Add(b, c)) == Add(Mul(a, b), Mul(a, c))
  {
    hide Add, Mul;
    MulComm(a, Add(b, c)); MulComm(a, b); MulComm(a, c);
    AddMul(b, c, a);
  }

  // ---- Inverses -----------------------------------------------------------------------------

  function Square(a: Byte): Byte { Mul(a, a) }

  /** Raises to the 16th power; an automorphism that fixes exactly the subfield GF(16). */
  function Pow16(a: Byte): Byte { Square(Square(Square(Square(a)))) }

  /** The inverse within the 15 nonzero elements of GF(16). */
  function SubfieldInverse(n: Byte): Byte {
    if n == 0x0a then 0xdd else if n == 0xdd then 0x0a else if n == 0x0b then 0x98 else if n == 0x98 then 0x0b
    else if n == 0x44 then 0x92 else if n == 0x92 then 0x44 else if n == 0x45 then 0x4e else if n == 0x4e then 0x45
    else if n == 0x4f then 0x93 else if n == 0x93 then 0x4f else if n == 0x99 then 0xdc else if n == 0xdc then 0x99
    else if n == 0xd6 then 0xd7 else if n == 0xd7 then 0xd6 else n
  }

  /** The norm of `a` over GF(16) is a^17; dividing a^16 by it leaves the inverse of `a`. */
  function Inv(a: Byte): Byte { Mul(Pow16(a), SubfieldInverse(Mul(a, Pow16(a)))) }

  lemma SquareMul(a: Byte, b: Byte)
    ensures Square(Mul(a, b)) == Mul(Square(a), Square(b))
  {
    hide Mul;
    MulAssoc(Mul(a, b), a, b);
    MulComm(Mul(a, b), a); MulAssoc(a, a, b);
    MulAssoc(Mul(a, a), b, b);
  }

  lemma SquareAdd(a: Byte, b: Byte)
    ensures Square(Add(a, b)) == Add(Square(a), Square(b))
  {
    hide Add, Mul;
    AddMul(a, b, Add(a, b)); MulAdd(a, a, b); MulAdd(b, a, b); MulComm(a, b);
    AddAssoc(Mul(a, a), Mul(a, b), Add(Mul(a, b), Mul(b, b)));
    AddAssoc(Mul(a, b), Mul(a, b), Mul(b, b));
    AddZero(Mul(a, b)); AddZero(Mul(b, b));
  }

  // The remaining facts are checked bit by bit on explicit linear forms of these functions.

  function Bit(a: Byte, mask: Byte, value: Byte): Byte { if a & mask != 0 then value else 0 }

  /** The product with every bit of the second factor written out. */
  function FlatMul(a: Byte, b: Byte): Byte {
    Add(Bit(b, 1, a), XTime(Add(Bit(b, 2, a), XTime(Add(Bit(b, 4, a), XTime(Add(Bit(b, 8, a),
    XTime(Add(Bit(b, 16, a), XTime(Add(Bit(b, 32, a), XTime(Add(Bit(b, 64, a), XTime(Bit(b, 128, a)))))))))))))))
  }

  function FlatSquare(a: Byte): Byte {
    Bit(a, 1, 0x01) ^ Bit(a, 2, 0x04) ^ Bit(a, 4, 0x10) ^ Bit(a, 8, 0x40)
    ^ Bit(a, 16, 0x1d) ^ Bit(a, 32, 0x74) ^ Bit(a, 64, 0xcd) ^ Bit(a, 128, 0x13)
  }

  function FlatPow4(a: Byte): Byte {
    Bit(a, 1, 0x01) ^ Bit(a, 2, 0x10) ^ Bit(a, 4, 0x1d) ^ Bit(a, 8, 0xcd)
    ^ Bit(a, 16, 0x4c) ^ Bit(a, 32, 0xb4) ^ Bit(a, 64, 0x8f) ^ Bit(a, 128, 0x18)
  }

  function FlatPow16(a: Byte): Byte {
    Bit(a, 1, 0x01) ^ Bit(a, 2, 0x4c) ^ Bit(a, 4, 0x9d) ^ Bit(a, 8, 0x46)
    ^ Bit(a, 16, 0x5f) ^ Bit(a, 32, 0xfd) ^ Bit(a, 64, 0xd9) ^ Bit(a, 128, 0x81)
  }

  lemma HalfBits(a: Byte, b: Byte)
    ensures var b1 := Half(b); var b2 := Half(b1); var b3 := Half(b2); var b4 := Half(b3);
            var b5 := Half(b4); var b6 := Half(b5); var b7 := Half(b6);
            && Sel(b, a) == Bit(b, 1, a) && Sel(b1, a) == Bit(b, 2, a) && Sel(b2, a) == Bit(b, 4, a)
            && Sel(b3, a) == Bit(b, 8, a) && Sel(b4, a) == Bit(b, 16, a) && Sel(b5, a) == Bit(b, 32, a)
            && Sel(b6, a) == Bit(b, 64, a) && Sel(b7, a) == Bit(b, 128, a) && Half(b7) == 0
  {}

  lemma FlatMulIsMul(a: Byte, b: Byte)
    ensures Mul(a, b) == FlatMul(a, b)
  {
    hide Add, XTime, Sel, Half, Mul, Bit;
    var b1 := Half(b); var b2 := Half(b1); var b3 := Half(b2); var b4 := Half(b3);
    var b5 := Half(b4); var b6 := Half(b5); var b7 := Half(b6);
    HalfBits(a, b);
    MulUnfold(a, b); MulUnfold(a, b1); MulUnfold(a, b2); MulUnfold(a, b3);
    MulUnfold(a, b4); MulUnfold(a, b5); MulUnfold(a, b6); MulUnfold(a, b7);
    MulNone(a); XTimeZero(); AddZero(Sel(b7, a));
  }

  lemma BasisSquares()
    ensures FlatMul(1, 1) == 0x01 && FlatMul(2, 2) == 0x04 && FlatMul(4, 4) == 0x10 && FlatMul(8, 8) == 0x40
    ensures FlatMul(16, 16) == 0x1d && FlatMul(32, 32) == 0x74 && FlatMul(64, 64) == 0xcd && FlatMul(128, 128) == 0x13
  {}

  lemma SquareBit(a: Byte, mask: Byte, value: Byte)
    requires FlatMul(mask, mask) == value
    ensures Square(Bit(a, mask, mask)) == Bit(a, mask, value)
  {
    hide Mul, FlatMul;
    FlatMulIsMul(mask, mask); MulNone(0);
  }

  lemma BitsOf(a: Byte)
    ensures a == Add(Add(Add(Add(Add(Add(Add(Bit(a, 1, 1), Bit(a, 2, 2)), Bit(a, 4, 4)), Bit(a, 8, 8)),
                Bit(a, 16, 16)), Bit(a, 32, 32)), Bit(a, 64, 64)), Bit(a, 128, 128))
  {}

  lemma FlatPow4Agrees(a: Byte)
    ensures FlatSquare(FlatSquare(a)) == FlatPow4(a)
  {}

  lemma FlatPow16Agrees(a: Byte)
    ensures FlatPow4(FlatPow4(a)) == FlatPow16(a)
  {}

  lemma FlatPow16Involution(a: Byte)
    ensures FlatPow16(FlatPow16(a)) == a
  {}

  lemma NormNonzero(a: Byte)
    requires a != 0
    ensures FlatMul(a, FlatPow16(a)) != 0
  {}

  predicate InSubfield(n: Byte) {
    n in {0x01, 0x0a, 0x0b, 0x44, 0x45, 0x4e, 0x4f, 0x92, 0x93, 0x98, 0x99, 0xd6, 0xd7, 0xdc, 0xdd}
  }

  lemma SubfieldMembers(n: Byte)
    requires n != 0 && FlatPow16(n) == n
    ensures InSubfield(n)
  {}

  lemma SubfieldPairs()
    ensures FlatMul(1, 1) == FlatMul(0x0a, 0xdd) == FlatMul(0x0b, 0x98) == FlatMul(0x44, 0x92) == FlatMul(0x45, 0x4e) == 1
    ensures FlatMul(0x4f, 0x93) == FlatMul(0x99, 0xdc) == FlatMul(0xd6, 0xd7) == 1
  {}

  lemma SubfieldInverseWorks(n: Byte)
    requires InSubfield(n)
    ensures Mul(n, SubfieldInverse(n)) == 1
  {
    hide Mul, FlatMul;
    SubfieldPairs();
    FlatMulIsMul(n, SubfieldInverse(n)); FlatMulIsMul(SubfieldInverse(n), n); MulComm(n, SubfieldInverse(n));
  }

  lemma FlatSquareSum(a: Byte)
    ensures FlatSquare(a) == Add(Add(Add(Add(Add(Add(Add(Bit(a, 1, 0x01), Bit(a, 2, 0x04)), Bit(a, 4, 0x10)), Bit(a, 8, 0x40)),
      Bit(a, 16, 0x1d)), Bit(a, 32, 0x74)), Bit(a, 64, 0xcd)), Bit(a, 128, 0x13))
  {
    hide Bit;
  }

  lemma FlatSquareAgrees(a: Byte)
    ensures Square(a) == FlatSquare(a)
  {
    hide Add, Mul, Bit, FlatMul, FlatSquare, Square;
    FlatSquareSum(a);
    BasisSquares();
    SquareBit(a, 1, 0x01); SquareBit(a, 2, 0x04); SquareBit(a, 4, 0x10); SquareBit(a, 8, 0x40);
    SquareBit(a, 16, 0x1d); SquareBit(a, 32, 0x74); SquareBit(a, 64, 0xcd); SquareBit(a, 128, 0x13);
    BitsOf(a);
    var c := Bit(a, 1, 1); 
    var c2 := Add(c, Bit(a, 2, 2)); SquareAdd(c, Bit(a, 2, 2));
    var c4 := Add(c2, Bit(a, 4, 4)); SquareAdd(c2, Bit(a, 4, 4));
    var c8 := Add(c4, Bit(a, 8, 8)); SquareAdd(c4, Bit(a, 8, 8));
    var c16 := Add(c8, Bit(a, 16, 16)); SquareAdd(c8, Bit(a, 16, 16));
    var c32 := Add(c16, Bit(a, 32, 32)); SquareAdd(c16, Bit(a, 32, 32));
    var c64 := Add(c32, Bit(a, 64, 64)); SquareAdd(c32, Bit(a, 64, 64));
    SquareAdd(c64, Bit(a, 128, 128));
  }

  lemma Pow16Agrees(a: Byte)
    ensures Pow16(a) == FlatPow16(a)
  {
    hide Square, FlatSquare, FlatPow4, FlatPow16;
    FlatSquareAgrees(a); FlatSquareAgrees(FlatSquare(a)); FlatPow4Agrees(a);
    var b := FlatPow4(a);
    FlatSquareAgrees(b); FlatSquareAgrees(FlatSquare(b)); FlatPow4Agrees(b);
    FlatPow16Agrees(a);
  }

  /** Every nonzero byte has an inverse, so GF(2^8) is a field. */
  lemma InvLaw(a: Byte)
    requires a != 0
    ensures Mul(a, Inv(a)) == 1
  {
    hide Mul, Pow16, FlatPow16, FlatMul, SubfieldInverse, InSubfield;
    var f := Pow16(a);
    var n := Mul(a, f);
    Pow16Agrees(a); Pow16Agrees(f); FlatPow16Involution(a); FlatMulIsMul(a, f); NormNonzero(a);
    Pow16Mul(a, f); MulComm(a, f);
    Pow16Agrees(n); SubfieldMembers(n);
    SubfieldInverseWorks(n);
    MulAssoc(a, f, SubfieldInverse(n));
  }

  lemma Pow16Mul(a: Byte, b: Byte)
    ensures Pow16(Mul(a, b)) == Mul(Pow16(a), Pow16(b))
  {
    hide Square, Mul;
    SquareMul(a, b);
    SquareMul(Square(a), Square(b));
    SquareMul(Square(Square(a)), Square(Square(b)));
    SquareMul(Square(Square(Square(a))), Square(Square(Square(b))));
  }

  /** There are no zero divisors. */
  lemma MulCancel(a: Byte, b: Byte)
    requires Mul(a, b) == 0 && a != 0
    ensures b == 0
  {
    hide Mul, Inv;
    InvLaw(a);
    MulAssoc(Inv(a), a, b); MulComm(Inv(a), a); MulUnits(b); MulNone(Inv(a));
  }
}
