/** GF(256) arithmetic with the reduction polynomial 0x11d. */
module Gf256 {
  import opened Bytes
  import opened Options

  // ---- definitions ----

  // Multiplication by x on the raw bits: shift left and reduce.
  function ShiftReduce(v: bv8): bv8 {
    if v & 128 != 0 then (v << 1) ^ 0x1d else v << 1
  }

  function XTime(a: byte): byte { Value(ShiftReduce(Bits(a))) }

  function Half(b: byte): byte { Value(Bits(b) >> 1) }

  // `a` when the lowest bit of `b` is set, zero otherwise.
  function LowSelect(b: byte, a: byte): byte {
    if Bits(b) & 1 != 0 then a else 0
  }

  function Mul(a: byte, b: byte): byte
    decreases b
  {
    if b == 0 then 0 else
      HalfLess(b);
      Xor(LowSelect(b, a), Mul(XTime(a), Half(b)))
  }

  function Pow(a: byte, n: nat): byte {
    if n == 0 then 1 else Mul(a, Pow(a, n - 1))
  }

  // The multiplicative inverse of a non-zero element.
  function Inv(a: byte): byte { Pow(a, 254) }

  // ---- facts about single bytes ----

  lemma HalfLess(b: byte)
    ensures b != 0 ==> Half(b) < b
    ensures Half(0) == 0
  {
    ValueBits(b);
    HalfLessBv(Bits(b));
    Constants();
  }

  lemma HalfLessBv(v: bv8)
    ensures v == 0 || (v >> 1) as int < v as int
  {}

  lemma BitsXTime(a: byte)
    ensures Bits(XTime(a)) == ShiftReduce(Bits(a))
  {
    hide Bits, Value, ShiftReduce;
    BitsValue(ShiftReduce(Bits(a)));
  }

  lemma ShiftXorBv(v: bv8, w: bv8)
    ensures (v ^ w) & 128 == (v & 128) ^ (w & 128)
    ensures (v ^ w) << 1 == (v << 1) ^ (w << 1)
    ensures v & 128 == 0 || v & 128 == 128
  {}

  lemma ShiftReduceXor(v: bv8, w: bv8)
    ensures ShiftReduce(v ^ w) == ShiftReduce(v) ^ ShiftReduce(w)
  {
    ShiftXorBv(v, w);
    ShiftXorBv(w, v);
  }

  lemma XTimeXor(a: byte, b: byte)
    ensures XTime(Xor(a, b)) == Xor(XTime(a), XTime(b))
  {
    hide Bits, Value, ShiftReduce;
    BitsXor(a, b);
    BitsXTime(a);
    BitsXTime(b);
    ShiftReduceXor(Bits(a), Bits(b));
  }

  lemma XTimeZero()
    ensures XTime(0) == 0
  {
    Constants();
  }

  lemma XTimeOne()
    ensures XTime(1) == 2
  {
    Constants();
    ValueBits(2);
  }

  // A byte is its lowest bit plus x times the rest.
  lemma Peel(b: byte)
    ensures b == Xor(LowSelect(b, 1), XTime(Half(b)))
    ensures Bits(LowSelect(b, 1)) == Bits(b) & 1
    ensures Bits(Half(b)) == Bits(b) >> 1
  {
    hide Bits, Value;
    Constants();
    PeelBv(Bits(b));
    BitsValue(Bits(b) >> 1);
    BitsXTime(Half(b));
    ValueBits(b);
  }

  lemma PeelBv(v: bv8)
    ensures v == (v & 1) ^ ShiftReduce(v >> 1)
    ensures v & 1 == 0 || v & 1 == 1
  {}

  // ---- the ring laws ----

  lemma MulUnfold(a: byte, b: byte)
    ensures Mul(a, b) == Xor(LowSelect(b, a), Mul(XTime(a), Half(b)))
  {
    hide Bits, Value, Xor, XTime, Half;
    if b == 0 {
      Constants();
      HalfLess(b);
      XorUnit(0);
    }
  }

  lemma {:induction false} MulXorLeft(a: byte, b: byte, c: byte)
    ensures Mul(Xor(a, b), c) == Xor(Mul(a, c), Mul(b, c))
    decreases c
  {
    hide Bits, Value, Xor, XTime, Half;
    XorUnit(0);
    if c != 0 {
      HalfLess(c);
      XTimeXor(a, b);
      XorSwap(LowSelect(c, a), LowSelect(c, b), Mul(XTime(a), Half(c)), Mul(XTime(b), Half(c)));
      MulXorLeft(XTime(a), XTime(b), Half(c));
    }
  }

  lemma {:induction false} MulXTimeLeft(a: byte, b: byte)
    ensures Mul(XTime(a), b) == XTime(Mul(a, b))
    decreases b
  {
    hide Bits, Value, Xor, XTime, Half;
    XTimeZero();
    if b != 0 {
      HalfLess(b);
      XTimeXor(LowSelect(b, a), Mul(XTime(a), Half(b)));
      MulXTimeLeft(XTime(a), Half(b));
    }
  }

  // The product by Horner's rule on the bits of the second factor.
  lemma MulHorner(a: byte, b: byte)
    ensures Mul(a, b) == Xor(LowSelect(b, a), XTime(Mul(a, Half(b))))
  {
    hide *;
    MulUnfold(a, b);
    MulXTimeLeft(a, Half(b));
  }

  lemma MulZero(a: byte)
    ensures Mul(a, 0) == 0 && Mul(0, a) == 0
  {
    hide Bits, Value, Xor, XTime, Half, LowSelect;
    MulXorLeft(0, 0, a);
    XorUnit(0);
    XorUnit(Mul(0, a));
  }

  lemma {:induction false} MulOne(a: byte)
    ensures Mul(1, a) == a && Mul(a, 1) == a
  {
    hide *;
    MulOneLeft(a);
    MulComm(1, a);
  }

  lemma {:induction false} MulOneLeft(b: byte)
    ensures Mul(1, b) == b
  {
    hide *;
    if b == 0 {
      MulZero(1);
    } else {
      HalfLess(b);
      MulOneLeft(Half(b));
      MulHorner(1, b);
      Peel(b);
    }
  }

  lemma MulLow(b: byte, a: byte)
    ensures Mul(LowSelect(b, 1), a) == LowSelect(b, a)
  {
    hide Bits, Value, Xor, XTime, Half, Mul;
    MulOneLeft(a);
    MulZero(a);
  }

  lemma {:induction false} MulComm(a: byte, b: byte)
    ensures Mul(a, b) == Mul(b, a)
    decreases b
  {
    hide *;
    if b == 0 {
      MulZero(a);
    } else {
      HalfLess(b);
      calc {
        Mul(a, b);
      ==  { MulHorner(a, b); MulComm(a, Half(b)); }
        Xor(LowSelect(b, a), XTime(Mul(Half(b), a)));
      ==  { MulLow(b, a); MulXTimeLeft(Half(b), a); }
        Xor(Mul(LowSelect(b, 1), a), Mul(XTime(Half(b)), a));
      ==  { MulXorLeft(LowSelect(b, 1), XTime(Half(b)), a); Peel(b); }
        Mul(b, a);
      }
    }
  }

  lemma MulXorRight(a: byte, b: byte, c: byte)
    ensures Mul(a, Xor(b, c)) == Xor(Mul(a, b), Mul(a, c))
  {
    hide *;
    MulComm(a, Xor(b, c));
    MulComm(a, b);
    MulComm(a, c);
    MulXorLeft(b, c, a);
  }

  lemma MulXTimeRight(a: byte, b: byte)
    ensures Mul(a, XTime(b)) == XTime(Mul(a, b))
  {
    hide *;
    MulComm(a, XTime(b));
    MulComm(a, b);
    MulXTimeLeft(b, a);
  }

  lemma MulSelect(c: byte, a: byte, b: byte)
    ensures Mul(a, LowSelect(c, b)) == LowSelect(c, Mul(a, b))
  {
    hide Bits, Value, Xor, XTime, Half, Mul;
    MulZero(a);
  }

  lemma {:induction false} MulAssoc(a: byte, b: byte, c: byte)
    ensures Mul(Mul(a, b), c) == Mul(a, Mul(b, c))
    decreases c
  {
    hide *;
    if c == 0 {
      MulZero(Mul(a, b));
      MulZero(b);
      MulZero(a);
    } else {
      HalfLess(c);
      calc {
        Mul(Mul(a, b), c);
      ==  { MulHorner(Mul(a, b), c); MulAssoc(a, b, Half(c)); }
        Xor(LowSelect(c, Mul(a, b)), XTime(Mul(a, Mul(b, Half(c)))));
      ==  { MulSelect(c, a, b); MulXTimeRight(a, Mul(b, Half(c))); }
        Xor(Mul(a, LowSelect(c, b)), Mul(a, XTime(Mul(b, Half(c)))));
      ==  { MulXorRight(a, LowSelect(c, b), XTime(Mul(b, Half(c)))); MulHorner(b, c); }
        Mul(a, Mul(b, c));
      }
    }
  }

  lemma MulSwap(a: byte, b: byte, c: byte)
    ensures Mul(a, Mul(b, c)) == Mul(b, Mul(a, c))
  {
    hide *;
    MulAssoc(a, b, c);
    MulAssoc(b, a, c);
    MulComm(a, b);
  }

  // ---- squares: squaring is linear, so it is a fixed map on the eight bits ----

  function SquareBits(v: bv8): bv8 {
    (v & 1) ^ ((v & 2) << 1) ^ ((v & 4) << 2) ^ ((v & 8) << 3) ^
    (((v >> 4) & 1) * 29) ^ (((v >> 5) & 1) * 116) ^ (((v >> 6) & 1) * 205) ^ (((v >> 7) & 1) * 19)
  }

  lemma SquareBitsStep(v: bv8)
    ensures SquareBits(v) == (v & 1) ^ ShiftReduce(ShiftReduce(SquareBits(v >> 1)))
  {}

  lemma SquareBitsEight(v: bv8)
    ensures SquareBits(SquareBits(SquareBits(SquareBits(SquareBits(SquareBits(SquareBits(SquareBits(v)))))))) == v
  {}

  lemma SquareBitsFixed(v: bv8)
    ensures SquareBits(v) == v ==> v == 0 || v == 1
  {}

  lemma SquareXor(a: byte, b: byte)
    ensures Mul(Xor(a, b), Xor(a, b)) == Xor(Mul(a, a), Mul(b, b))
  {
    hide *;
    var m := Mul(a, b);
    MulXorLeft(a, b, Xor(a, b));
    MulXorRight(a, a, b);
    MulXorRight(b, a, b);
    MulComm(a, b);
    XorSwap(Mul(a, a), m, m, Mul(b, b));
    XorComm(m, Mul(b, b));
    XorSwap(Mul(a, a), m, Mul(b, b), m);
    XorUnit(m);
    XorUnit(Xor(Mul(a, a), Mul(b, b)));
  }

  // The square of a byte from the square of its upper seven bits.
  lemma SquarePeel(a: byte)
    ensures Mul(a, a) == Xor(LowSelect(a, 1), XTime(XTime(Mul(Half(a), Half(a)))))
  {
    hide *;
    var h := Half(a);
    Peel(a);
    SquareXor(LowSelect(a, 1), XTime(h));
    LowSquare(a);
    MulXTimeLeft(h, XTime(h));
    MulXTimeRight(h, h);
  }

  lemma {:induction false} BitsSquare(a: byte)
    ensures Bits(Mul(a, a)) == SquareBits(Bits(a))
  {
    hide *;
    if a == 0 {
      MulZero(0);
      SquareBitsZero();
    } else {
      var q := Mul(Half(a), Half(a));
      HalfLess(a);
      BitsSquare(Half(a));
      SquarePeel(a);
      Peel(a);
      BitsXor(LowSelect(a, 1), XTime(XTime(q)));
      BitsXTime(q);
      BitsXTime(XTime(q));
      SquareBitsStep(Bits(a));
    }
  }

  lemma SquareBitsZero()
    ensures SquareBits(Bits(0)) == Bits(0)
  {
    Constants();
  }

  lemma LowSquare(a: byte)
    ensures Mul(LowSelect(a, 1), LowSelect(a, 1)) == LowSelect(a, 1)
  {
    hide Bits, Value, Xor, XTime, Half, Mul;
    MulOneLeft(1);
    MulZero(0);
  }

  // ---- powers and inverses ----

  lemma {:induction false} PowAdd(a: byte, m: nat, n: nat)
    ensures Pow(a, m + n) == Mul(Pow(a, m), Pow(a, n))
  {
    hide Mul;
    if m == 0 {
      MulOneLeft(Pow(a, n));
    } else {
      PowAdd(a, m - 1, n);
      MulAssoc(a, Pow(a, m - 1), Pow(a, n));
    }
  }

  lemma {:induction false} PowOfSquare(a: byte, n: nat)
    ensures Pow(Mul(a, a), n) == Pow(a, 2 * n)
  {
    hide Mul;
    if n > 0 {
      PowOfSquare(a, n - 1);
      assert Pow(a, 2 * n) == Mul(a, Mul(a, Pow(a, 2 * n - 2)));
      MulAssoc(a, a, Pow(a, 2 * n - 2));
    }
  }

  lemma PowDouble(a: byte, n: nat)
    ensures Bits(Pow(a, 2 * n)) == SquareBits(Bits(Pow(a, n)))
  {
    hide *;
    PowAdd(a, n, n);
    BitsSquare(Pow(a, n));
  }

  lemma PowOne(a: byte)
    ensures Pow(a, 1) == a
  {
    hide Mul;
    MulOne(a);
  }

  // Every element is a root of x^256 - x.
  lemma Fermat(a: byte)
    ensures Pow(a, 256) == a
  {
    hide *;
    PowOne(a);
    PowDouble(a, 1);
    PowDouble(a, 2);
    PowDouble(a, 4);
    PowDouble(a, 8);
    PowDouble(a, 16);
    PowDouble(a, 32);
    PowDouble(a, 64);
    PowDouble(a, 128);
    SquareBitsEight(Bits(a));
    ValueBits(a);
    ValueBits(Pow(a, 256));
  }

  lemma PowUnfold(a: byte, n: nat)
    ensures Pow(a, n + 1) == Mul(a, Pow(a, n))
  {}

  lemma InverseLaw(a: byte)
    requires a != 0
    ensures Mul(a, Inv(a)) == 1
  {
    hide Mul, Pow, Bits, SquareBits, Value;
    var e := Pow(a, 255);
    PowUnfold(a, 254);
    PowUnfold(a, 255);
    Fermat(a);
    assert Mul(a, e) == a;
    PowAdd(a, 256, 254);
    PowAdd(a, 255, 255);
    assert Mul(e, e) == e;
    BitsSquare(e);
    SquareBitsFixed(Bits(e));
    Constants();
    ValueBits(e);
    MulZero(a);
  }

  lemma NoZeroDivisors(a: byte, b: byte)
    requires Mul(a, b) == 0
    ensures a == 0 || b == 0
  {
    hide *;
    if a != 0 {
      InverseLaw(a);
      MulAssoc(Inv(a), a, b);
      MulComm(Inv(a), a);
      MulOneLeft(b);
      MulZero(Inv(a));
    }
  }

  lemma InvNonzero(a: byte)
    requires a != 0
    ensures Inv(a) != 0
  {
    hide *;
    InverseLaw(a);
    MulZero(a);
  }

  // ---- the product is determined ----

  // Multiplying by x doubles, and takes x^8 to x^4 + x^3 + x^2 + 1.
  lemma DoubleReduces(a: byte)
    ensures Mul(a, 2) == if a < 128 then 2 * a else Xor(2 * a - 256, 0x1d)
  {
    hide *;
    MulOne(a);
    MulXTimeRight(a, 1);
    XTimeOne();
    XTimeReduces(a);
  }

  lemma XTimeReduces(a: byte)
    ensures XTime(a) == if a < 128 then 2 * a else Xor(2 * a - 256, 0x1d)
  {
    hide Bits, Value;
    var v := Bits(a);
    ValueBits(a);
    ShiftValue(v);
    Constants();
    BitsValue(v << 1);
  }

  lemma ShiftValue(v: bv8)
    ensures Value(v) < 128 ==> v & 128 == 0 && Value(v << 1) == 2 * Value(v)
    ensures Value(v) >= 128 ==> v & 128 != 0 && Value(v << 1) == 2 * Value(v) - 256
  {}

  // Only one operation has a unit on the right, distributes over addition and commutes with multiplication by x.
  lemma {:induction false} ProductUnique(f: (byte, byte) -> byte, a: byte, b: byte)
    requires forall x: byte :: f(x, 0) == 0 && f(x, 1) == x
    requires forall x: byte, y: byte, z: byte :: f(x, Xor(y, z)) == Xor(f(x, y), f(x, z))
    requires forall x: byte, y: byte :: f(x, XTime(y)) == XTime(f(x, y))
    ensures f(a, b) == Mul(a, b)
    decreases b
  {
    hide Bits, Value, Xor, XTime, Half, Mul;
    if b == 0 {
      MulZero(a);
    } else {
      HalfLess(b);
      ProductUnique(f, a, Half(b));
      MulHorner(a, b);
      Peel(b);
    }
  }

  // ---- the loops of the implementation ----

  method Multiply(x: byte, y: byte) returns (out: byte)
    ensures out == Mul(x, y)
  {
    hide Xor, Half, XTime;
    var a, b := x, y;
    out := 0;
    XorUnit(Mul(x, y));
    while b != 0
      invariant Xor(out, Mul(a, b)) == Mul(x, y)
      decreases b
    {
      XorAssoc(out, LowSelect(b, a), Mul(XTime(a), Half(b)));
      XorUnit(out);
      XorUnit(Mul(XTime(a), Half(b)));
      if Bits(b) & 1 != 0 {
        out := Xor(out, a);
      }
      HalfLess(b);
      a, b := XTime(a), Half(b);
    }
    XorUnit(out);
  }

  // Zero has no inverse; every other element gets the one element that multiplies it to one.
  method Inverse(x: byte) returns (r: Option<byte>)
    ensures r.None? <==> x == 0
    ensures r.Some? ==> r.value == Inv(x) && Mul(x, r.value) == 1
  {
    hide Mul, Pow;
    if x == 0 {
      return None;
    }
    var a, out, n: nat := x, 1, 254;
    MulOneLeft(Pow(x, 254));
    while n != 0
      invariant Mul(out, Pow(a, n)) == Pow(x, 254)
      decreases n
    {
      PowOfSquare(a, n / 2);
      if n % 2 == 1 {
        PowUnfold(a, n - 1);
        MulAssoc(out, a, Pow(a, n - 1));
        out := Multiply(out, a);
      }
      a := Multiply(a, a);
      n := n / 2;
    }
    PowZero(a);
    MulOne(out);
    InverseLaw(x);
    r := Some(out);
  }

  lemma PowZero(a: byte)
    ensures Pow(a, 0) == 1
  {}
}
