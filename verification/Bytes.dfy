/** Bytes as integers, with the machine's exclusive or on their eight bits. */
module Bytes {
  type byte = x: int | 0 <= x < 256

  function Bits(a: byte): bv8 { a as bv8 }

  function Value(v: bv8): byte { v as int }

  function Xor(a: byte, b: byte): byte { Value(Bits(a) ^ Bits(b)) }

  lemma ValueBitsModulo(a: byte)
    ensures Value(Bits(a)) == a % 256
  {}

  lemma ValueBits(a: byte)
    ensures Value(Bits(a)) == a
  {
    hide *;
    ValueBitsModulo(a);
  }

  lemma BitsValue(v: bv8)
    ensures Bits(Value(v)) == v
  {}

  lemma BitsXor(a: byte, b: byte)
    ensures Bits(Xor(a, b)) == Bits(a) ^ Bits(b)
  {
    hide Bits, Value;
    BitsValue(Bits(a) ^ Bits(b));
  }

  lemma BvXor(a: bv8, b: bv8, c: bv8)
    ensures (a ^ b) ^ c == a ^ (b ^ c) && a ^ b == b ^ a && a ^ a == 0 && a ^ 0 == a
  {}

  lemma Constants()
    ensures Bits(0) == 0 && Bits(1) == 1 && Bits(2) == 2 && Bits(29) == 29 && Bits(128) == 128
    ensures Value(0) == 0 && Value(1) == 1
  {}

  lemma XorAssoc(a: byte, b: byte, c: byte)
    ensures Xor(Xor(a, b), c) == Xor(a, Xor(b, c))
  {
    hide Bits, Value;
    BitsXor(a, b);
    BitsXor(b, c);
    BvXor(Bits(a), Bits(b), Bits(c));
  }

  lemma XorComm(a: byte, b: byte)
    ensures Xor(a, b) == Xor(b, a)
  {
    hide Bits, Value;
    BvXor(Bits(a), Bits(b), 0);
  }

  lemma XorUnit(a: byte)
    ensures Xor(a, a) == 0 && Xor(a, 0) == a && Xor(0, a) == a
  {
    hide Bits, Value;
    XorComm(a, 0);
    BvXor(Bits(a), 0, 0);
    Constants();
    ValueBits(a);
  }

  lemma XorCancel(a: byte, b: byte)
    ensures Xor(Xor(a, b), b) == a
    ensures Xor(a, b) == 0 <==> a == b
  {
    hide *;
    XorAssoc(a, b, b);
    XorUnit(a);
    XorUnit(b);
  }

  lemma XorSwap(a: byte, b: byte, c: byte, d: byte)
    ensures Xor(Xor(a, b), Xor(c, d)) == Xor(Xor(a, c), Xor(b, d))
  {
    hide *;
    calc {
      Xor(Xor(a, b), Xor(c, d));
    ==  { XorAssoc(a, b, Xor(c, d)); XorAssoc(b, c, d); }
      Xor(a, Xor(Xor(b, c), d));
    ==  { XorComm(b, c); XorAssoc(c, b, d); }
      Xor(a, Xor(c, Xor(b, d)));
    ==  { XorAssoc(a, c, Xor(b, d)); }
      Xor(Xor(a, c), Xor(b, d));
    }
  }
}
