/** The field arithmetic behind the erasure code: bytes under exclusive or and `gf_mul`.

    ISA-L, which provides gf_mul, is not part of the repository; multiplication is defined here as
    in its documentation, modulo x^8 + x^4 + x^3 + x^2 + 1, and the ring laws the decoder relies
    on are proved. */
module Gf256 {

  /** A byte as its bits, the least significant first. */
  datatype Byte = Byte(b0: bool, b1: bool, b2: bool, b3: bool, b4: bool, b5: bool, b6: bool, b7: bool)

  const ZERO := Byte(false, false, false, false, false, false, false, false)
  const ONE := Byte(true, false, false, false, false, false, false, false)

  function Xor(a: Byte, c: Byte): Byte {
    Byte(a.b0 != c.b0, a.b1 != c.b1, a.b2 != c.b2, a.b3 != c.b3, a.b4 != c.b4, a.b5 != c.b5, a.b6 != c.b6, a.b7 != c.b7)
  }

  /** Multiplication by the polynomial x: a shift, and 0x1d for the bit that falls out. */
  function XTime(a: Byte): Byte {
    Byte(a.b7, a.b0, a.b1 != a.b7, a.b2 != a.b7, a.b3 != a.b7, a.b4, a.b5, a.b6)
  }

  function Masked(a: Byte, bit: bool): Byte { if bit then a else ZERO }

  function Bit(b: Byte, i: nat): bool {
    match i
    case 0 => b.b0 case 1 => b.b1 case 2 => b.b2 case 3 => b.b3
    case 4 => b.b4 case 5 => b.b5 case 6 => b.b6 case _ => b.b7
  }

  /** The sum of a * x^(j - i) over the set bits j of b from i on. */
  function MulFrom(a: Byte, b: Byte, i: nat): Byte
    requires i <= 8
    decreases 8 - i
  {
    if i == 8 then ZERO else Xor(Masked(a, Bit(b, i)), MulFrom(XTime(a), b, i + 1))
  }

  function GfMul(a: Byte, b: Byte): Byte { MulFrom(a, b, 0) }

  // ---------------------------------------------------------------- the group under xor

  lemma XorComm(a: Byte, b: Byte)
    ensures Xor(a, b) == Xor(b, a)
  {
  }

  lemma XorAssoc(a: Byte, b: Byte, c: Byte)
    ensures Xor(Xor(a, b), c) == Xor(a, Xor(b, c))
  {
  }

  lemma XorZero(a: Byte)
    ensures Xor(a, ZERO) == a && Xor(ZERO, a) == a && Xor(a, a) == ZERO
  {
  }

  lemma Xor4(a: Byte, b: Byte, c: Byte, d: Byte)
    ensures Xor(Xor(a, b), Xor(c, d)) == Xor(Xor(a, c), Xor(b, d))
  {
    hide Xor;
    XorAssoc(a, b, Xor(c, d));
    XorAssoc(b, c, d);
    XorComm(b, c);
    XorAssoc(c, b, d);
    XorAssoc(a, c, Xor(b, d));
  }

  // ---------------------------------------------------------------- the ring laws

  lemma XTimeLinear(a: Byte, c: Byte)
    ensures XTime(Xor(a, c)) == Xor(XTime(a), XTime(c))
  {
  }

  lemma MaskedLinear(a: Byte, c: Byte, bit: bool)
    ensures Masked(Xor(a, c), bit) == Xor(Masked(a, bit), Masked(c, bit))
    ensures XTime(Masked(a, bit)) == Masked(XTime(a), bit)
  {
  }

  lemma {:induction false} MulFromXor(a: Byte, c: Byte, b: Byte, i: nat)
    requires i <= 8
    ensures MulFrom(Xor(a, c), b, i) == Xor(MulFrom(a, b, i), MulFrom(c, b, i))
    decreases 8 - i
  {
    hide Xor;
    hide XTime;
    hide Masked;
    XorZero(ZERO);
    if i < 8 {
      XTimeLinear(a, c);
      MulFromXor(XTime(a), XTime(c), b, i + 1);
      MaskedLinear(a, c, Bit(b, i));
      Xor4(Masked(a, Bit(b, i)), Masked(c, Bit(b, i)), MulFrom(XTime(a), b, i + 1), MulFrom(XTime(c), b, i + 1));
    }
  }

  lemma {:induction false} MulFromXTime(a: Byte, b: Byte, i: nat)
    requires i <= 8
    ensures MulFrom(XTime(a), b, i) == XTime(MulFrom(a, b, i))
    decreases 8 - i
  {
    if i < 8 {
      MulFromXTime(XTime(a), b, i + 1);
      MaskedLinear(a, a, Bit(b, i));
      XTimeLinear(Masked(a, Bit(b, i)), MulFrom(XTime(a), b, i + 1));
    }
  }

  lemma {:induction false} MulFromZero(b: Byte, i: nat)
    requires i <= 8
    ensures MulFrom(ZERO, b, i) == ZERO
    decreases 8 - i
  {
    if i < 8 {
      MulFromZero(b, i + 1);
    }
  }

  /** Multiplications by two bytes commute. */
  lemma {:induction false} Commute(v: Byte, b: Byte, c: Byte, i: nat)
    requires i <= 8
    ensures MulFrom(GfMul(v, b), c, i) == GfMul(MulFrom(v, c, i), b)
    decreases 8 - i
  {
    hide Xor;
    hide XTime;
    MulFromZero(b, 0);
    if i < 8 {
      MulFromXTime(v, b, 0);
      Commute(XTime(v), b, c, i + 1);
      MulFromXor(Masked(v, Bit(c, i)), MulFrom(XTime(v), c, i + 1), b, 0);
    }
  }

  /** x^i, for i below 8, is a single bit. */
  function Power(i: nat): Byte {
    Byte(i == 0, i == 1, i == 2, i == 3, i == 4, i == 5, i == 6, i == 7)
  }

  /** The bits from i on. */
  function Tail(b: Byte, i: nat): Byte {
    Byte(i <= 0 && b.b0, i <= 1 && b.b1, i <= 2 && b.b2, i <= 3 && b.b3,
         i <= 4 && b.b4, i <= 5 && b.b5, i <= 6 && b.b6, i <= 7 && b.b7)
  }

  lemma PowerShift(i: nat)
    requires i < 7
    ensures XTime(Power(i)) == Power(i + 1)
  {
  }

  lemma TailStep(b: Byte, i: nat)
    requires i < 8
    ensures Xor(Masked(Power(i), Bit(b, i)), Tail(b, i + 1)) == Tail(b, i)
  {
  }

  lemma {:induction false} PowerTimes(b: Byte, i: nat)
    requires i < 8
    ensures MulFrom(Power(i), b, i) == Tail(b, i)
    decreases 8 - i
  {
    assert Tail(b, 8) == MulFrom(XTime(Power(7)), b, 8);
    TailStep(b, i);
    hide Xor;
    hide Masked;
    hide Bit;
    hide Tail;
    if i < 7 {
      PowerShift(i);
      hide XTime;
      hide Power;
      PowerTimes(b, i + 1);
    } else {
      hide XTime;
      hide Power;
    }
  }

  lemma OneTimes(b: Byte)
    ensures GfMul(ONE, b) == b
  {
    hide MulFrom;
    PowerTimes(b, 0);
  }

  lemma MulComm(a: Byte, b: Byte)
    ensures GfMul(a, b) == GfMul(b, a)
  {
    hide MulFrom;
    OneTimes(a);
    OneTimes(b);
    Commute(ONE, a, b, 0);
  }

  lemma MulAssoc(a: Byte, b: Byte, c: Byte)
    ensures GfMul(GfMul(a, b), c) == GfMul(a, GfMul(b, c))
  {
    hide MulFrom;
    MulComm(a, GfMul(b, c));
    Commute(b, c, a, 0);
    MulComm(b, a);
  }

  lemma MulXorLeft(a: Byte, c: Byte, b: Byte)
    ensures GfMul(Xor(a, c), b) == Xor(GfMul(a, b), GfMul(c, b))
  {
    MulFromXor(a, c, b, 0);
  }

  lemma MulXorRight(b: Byte, a: Byte, c: Byte)
    ensures GfMul(b, Xor(a, c)) == Xor(GfMul(b, a), GfMul(b, c))
  {
    hide GfMul;
    hide Xor;
    MulComm(b, Xor(a, c));
    MulComm(b, a);
    MulComm(b, c);
    MulXorLeft(a, c, b);
  }

  lemma MulZero(a: Byte)
    ensures GfMul(ZERO, a) == ZERO && GfMul(a, ZERO) == ZERO
  {
    MulFromZero(a, 0);
    MulComm(a, ZERO);
  }

  // ---------------------------------------------------------------- which ring it is: a field

  /** 0x02, the polynomial x, times a single bit: the next bit, and 0x1d for 0x80.  With the ring laws
      this settles every product. */
  lemma TwoTimes()
    ensures var x := Byte(false, true, false, false, false, false, false, false);
            && GfMul(x, Byte(true, false, false, false, false, false, false, false))
               == Byte(false, true, false, false, false, false, false, false)
            && GfMul(x, Byte(false, true, false, false, false, false, false, false))
               == Byte(false, false, true, false, false, false, false, false)
            && GfMul(x, Byte(false, false, true, false, false, false, false, false))
               == Byte(false, false, false, true, false, false, false, false)
            && GfMul(x, Byte(false, false, false, true, false, false, false, false))
               == Byte(false, false, false, false, true, false, false, false)
            && GfMul(x, Byte(false, false, false, false, true, false, false, false))
               == Byte(false, false, false, false, false, true, false, false)
            && GfMul(x, Byte(false, false, false, false, false, true, false, false))
               == Byte(false, false, false, false, false, false, true, false)
            && GfMul(x, Byte(false, false, false, false, false, false, true, false))
               == Byte(false, false, false, false, false, false, false, true)
            && GfMul(x, Byte(false, false, false, false, false, false, false, true))
               == Byte(true, false, true, true, true, false, false, false)
  {
    hide GfMul;
    TwoTimesIs(Power(0));
    TwoTimesIs(Power(1));
    TwoTimesIs(Power(2));
    TwoTimesIs(Power(3));
    TwoTimesIs(Power(4));
    TwoTimesIs(Power(5));
    TwoTimesIs(Power(6));
    TwoTimesIs(Power(7));
  }

  lemma TwoTimesIs(b: Byte)
    ensures GfMul(Power(1), b) == XTime(b)
  {
    assert Power(1) == XTime(ONE);
    MulFromXTime(ONE, b, 0);
    OneTimes(b);
  }

  function Square(a: Byte): Byte { GfMul(a, a) }

  /** The squares of the single bits, added up. */
  function SquareBits(a: Byte): Byte {
    Byte((a.b0 != a.b4) != (a.b6 != a.b7), a.b7, (a.b1 != a.b4) != (a.b5 != a.b6), a.b4 != a.b6,
         (a.b2 != a.b4) != (a.b5 != a.b7), a.b5, (a.b3 != a.b5) != a.b6, a.b6)
  }

  lemma SquareXor(a: Byte, c: Byte)
    ensures Square(Xor(a, c)) == Xor(Square(a), Square(c))
  {
    hide GfMul;
    hide Xor;
    MulXorLeft(a, c, Xor(a, c));
    MulXorRight(a, a, c);
    MulXorRight(c, a, c);
    MulComm(a, c);
    var p := GfMul(a, c);
    XorComm(p, GfMul(c, c));
    Xor4(GfMul(a, a), p, GfMul(c, c), p);
    XorZero(p);
    XorZero(Xor(GfMul(a, a), GfMul(c, c)));
  }

  lemma SquareBitsXor(a: Byte, c: Byte)
    ensures SquareBits(Xor(a, c)) == Xor(SquareBits(a), SquareBits(c))
  {
  }

  /** x^n times a byte. */
  function Shifted(b: Byte, n: nat): Byte { if n == 0 then b else XTime(Shifted(b, n - 1)) }

  lemma {:induction false} PowerShifts(b: Byte, i: nat)
    requires i < 8
    ensures GfMul(Power(i), b) == Shifted(b, i)
  {
    hide MulFrom;
    if i == 0 {
      assert Power(0) == ONE;
      OneTimes(b);
    } else {
      PowerShifts(b, i - 1);
      PowerShift(i - 1);
      MulFromXTime(Power(i - 1), b, 0);
    }
  }

  lemma ShiftedLow()
    ensures Shifted(Power(1), 1) == Power(2) && Shifted(Power(2), 2) == Power(4) && Shifted(Power(3), 3) == Power(6)
  {
  }

  lemma {:induction false} ShiftedMore(b: Byte, n: nat, m: nat)
    ensures Shifted(b, n + m) == Shifted(Shifted(b, n), m)
  {
    hide XTime;
    if m > 0 { ShiftedMore(b, n, m - 1); }
  }

  /** The squares of x^4 to x^7, of which the top bit falls out. */
  lemma ShiftedHigh()
    ensures Shifted(Power(4), 4) == Byte(true, false, true, true, true, false, false, false)
    ensures Shifted(Power(5), 5) == Byte(false, false, true, false, true, true, true, false)
    ensures Shifted(Power(6), 6) == Byte(true, false, true, true, false, false, true, true)
    ensures Shifted(Power(7), 7) == Byte(true, true, false, false, true, false, false, false)
  {
    assert Shifted(Power(4), 2) == Power(6) && Shifted(Power(6), 2) == XTime(Power(7));
    ShiftedMore(Power(4), 2, 2);
    var a := Byte(true, false, true, true, true, false, false, false);
    assert Shifted(Power(6), 2) == a;
    ShiftedMore(Power(5), 1, 4);
    ShiftedMore(Power(6), 2, 2);
    assert Shifted(Power(5), 1) == Power(6);
    var c := Byte(false, false, true, false, true, true, true, false);
    assert Shifted(a, 2) == c;
    var d := Byte(true, false, true, true, false, false, true, true);
    assert Shifted(c, 2) == d;
    ShiftedMore(Power(6), 2, 4);
    ShiftedMore(a, 2, 2);
    assert Shifted(Power(7), 1) == a;
    ShiftedMore(Power(7), 1, 6);
    ShiftedMore(a, 4, 2);
    assert Shifted(d, 2) == Byte(true, true, false, false, true, false, false, false);
  }

  lemma SquarePower(i: nat)
    requires i < 8
    ensures Square(Power(i)) == SquareBits(Power(i))
  {
    PowerShifts(Power(i), i);
    ShiftedLow();
    ShiftedHigh();
    hide GfMul;
    hide Shifted;
    if i == 0 {
      OneTimes(ONE);
      assert Power(0) == ONE;
    }
  }

  lemma {:induction false} SquareTail(a: Byte, i: nat)
    requires i <= 8
    ensures Square(Tail(a, i)) == SquareBits(Tail(a, i))
    decreases 8 - i
  {
    hide *;
    if i == 8 {
      TailNone(a);
    } else {
      var bit := Masked(Power(i), Bit(a, i));
      SquareTail(a, i + 1);
      TailStep(a, i);
      SquareMasked(i, Bit(a, i));
      SquareXor(bit, Tail(a, i + 1));
      SquareBitsXor(bit, Tail(a, i + 1));
    }
  }

  lemma TailNone(a: Byte)
    ensures Square(Tail(a, 8)) == SquareBits(Tail(a, 8))
  {
    assert Tail(a, 8) == ZERO == SquareBits(ZERO);
    MulZero(ZERO);
    hide GfMul;
  }

  lemma SquareMasked(i: nat, bit: bool)
    requires i < 8
    ensures Square(Masked(Power(i), bit)) == SquareBits(Masked(Power(i), bit))
  {
    hide GfMul;
    SquarePower(i);
    MulZero(ZERO);
  }

  lemma SquareIs(a: Byte)
    ensures Square(a) == SquareBits(a)
  {
    hide GfMul;
    SquareTail(a, 0);
    assert Tail(a, 0) == a;
  }

  /** The Frobenius map has order 8: a to the power 256 is a. */
  lemma Squared8(a: Byte)
    ensures SquareBits(SquareBits(SquareBits(SquareBits(
              SquareBits(SquareBits(SquareBits(SquareBits(a)))))))) == a
  {
  }

  /** Only 0 and 1 are their own squares. */
  lemma OwnSquare(e: Byte)
    requires SquareBits(e) == e
    ensures e == ZERO || e == ONE
  {
  }

  /** a squared n times. */
  function Squared(a: Byte, n: nat): Byte { if n == 0 then a else Square(Squared(a, n - 1)) }

  /** The product of the first n of them: a to the power 2^n - 1. */
  function Product(a: Byte, n: nat): Byte {
    if n == 0 then ONE else GfMul(Product(a, n - 1), Squared(a, n - 1))
  }

  function Inverse(a: Byte): Byte { Product(Square(a), 7) }

  lemma {:induction false} SquaredShift(a: Byte, n: nat)
    ensures Squared(Square(a), n) == Squared(a, n + 1)
  {
    hide Square;
    if n > 0 { SquaredShift(a, n - 1); }
  }

  lemma SquareProduct(a: Byte, b: Byte)
    ensures Square(GfMul(a, b)) == GfMul(Square(a), Square(b))
  {
    hide GfMul;
    var p := GfMul(a, b);
    MulAssoc(a, b, p);
    MulComm(a, b);
    MulAssoc(b, b, a);
    MulComm(GfMul(b, b), a);
    MulAssoc(a, a, GfMul(b, b));
  }

  lemma {:induction false} SquareOfProduct(a: Byte, n: nat)
    ensures Square(Product(a, n)) == Product(Square(a), n)
  {
    hide GfMul;
    if n == 0 {
      OneTimes(ONE);
    } else {
      SquareOfProduct(a, n - 1);
      SquareProduct(Product(a, n - 1), Squared(a, n - 1));
      SquaredShift(a, n - 1);
    }
  }

  lemma {:induction false} FirstFactor(a: Byte, n: nat)
    ensures GfMul(a, Product(Square(a), n)) == Product(a, n + 1)
  {
    hide GfMul;
    hide Square;
    if n == 0 {
      MulComm(a, ONE);
    } else {
      FirstFactor(a, n - 1);
      MulAssoc(a, Product(Square(a), n - 1), Squared(Square(a), n - 1));
      SquaredShift(a, n - 1);
    }
  }

  lemma {:induction false} OneMoreFactor(a: Byte, n: nat)
    ensures GfMul(a, Product(a, n)) == Squared(a, n)
  {
    hide GfMul;
    if n == 0 {
      MulComm(a, ONE);
      OneTimes(a);
    } else {
      OneMoreFactor(a, n - 1);
      MulAssoc(a, Product(a, n - 1), Squared(a, n - 1));
    }
  }

  lemma Squared8Is(a: Byte)
    ensures Squared(a, 8) == a
  {
    hide SquareBits;
    hide Square;
    SquaredStep(a, 0);
    SquaredStep(a, 1);
    SquaredStep(a, 2);
    SquaredStep(a, 3);
    SquaredStep(a, 4);
    SquaredStep(a, 5);
    SquaredStep(a, 6);
    SquaredStep(a, 7);
    Squared8(a);
    assert Squared(a, 0) == a;
    hide Squared;
  }

  lemma SquaredStep(a: Byte, n: nat)
    ensures Squared(a, n + 1) == SquareBits(Squared(a, n))
  {
    SquareIs(Squared(a, n));
  }

  /** Every byte but zero has an inverse: the ring is a field. */
  lemma HasInverse(a: Byte)
    requires a != ZERO
    ensures GfMul(a, Inverse(a)) == ONE
  {
    hide GfMul;
    hide Squared;
    hide SquareBits;
    var e := Product(a, 8);
    FirstFactor(a, 7);
    SquareOfProduct(a, 8);
    SquaredShift(a, 7);
    Squared8Is(a);
    LastFactor(Square(a), 7);
    MulComm(Product(Square(a), 7), a);
    hide Product;
    SquareIs(e);
    hide Square;
    OwnSquare(e);
    OneMoreFactor(a, 8);
    MulZero(a);
  }

  lemma LastFactor(a: Byte, n: nat)
    ensures Product(a, n + 1) == GfMul(Product(a, n), Squared(a, n))
  {
  }
}
