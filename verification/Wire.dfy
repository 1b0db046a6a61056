/** Protocol 3 of the wire format: fixed-width big-endian fields in declaration order. */
module Wire {
  import opened Bytes
  import opened Options

  // The longest application frame on the wire.
  const MAX_FRAME: nat := 1024

  // ---- integers of a fixed number of bytes ----

  function Pow256(n: nat): (p: nat)
    ensures p >= 1
  {
    if n == 0 then 1 else 256 * Pow256(n - 1)
  }

  function BigEndian(v: nat, n: nat): (b: seq<byte>)
    ensures |b| == n
  {
    if n == 0 then [] else BigEndian(v / 256, n - 1) + [v % 256]
  }

  function FromBigEndian(b: seq<byte>): (v: nat)
    ensures v < Pow256(|b|)
  {
    if |b| == 0 then 0 else 256 * FromBigEndian(b[..|b| - 1]) + b[|b| - 1]
  }

  lemma {:induction false} FromToBigEndian(v: nat, n: nat)
    requires v < Pow256(n)
    ensures FromBigEndian(BigEndian(v, n)) == v
  {
    if n > 0 {
      FromToBigEndian(v / 256, n - 1);
      assert BigEndian(v, n)[..n - 1] == BigEndian(v / 256, n - 1);
    }
  }

  lemma {:induction false} ToFromBigEndian(b: seq<byte>)
    ensures BigEndian(FromBigEndian(b), |b|) == b
  {
    if |b| > 0 {
      var init := b[..|b| - 1];
      ToFromBigEndian(init);
      assert FromBigEndian(b) / 256 == FromBigEndian(init);
      assert init + [b[|b| - 1]] == b;
    }
  }

  // Dividing by 256 and by p is dividing by 256 * p.
  lemma DivideTwice(v: nat, p: nat)
    requires p > 0
    ensures v / 256 / p == v / (256 * p)
  {
    var q := v / 256 / p;
    var r := v / 256 % p;
    var low := 256 * r + v % 256;
    assert v / 256 == p * q + r;
    assert 256 * (p * q) == (256 * p) * q;
    assert v == (256 * p) * q + low && low < 256 * p;
    Quotient(v, 256 * p, q, low);
  }

  lemma Quotient(v: nat, d: nat, q: nat, r: nat)
    requires d > 0 && r < d && v == d * q + r
    ensures v / d == q
  {
    var p := v / d;
    assert v == d * p + v % d;
    assert p <= q - 1 ==> d * p <= d * (q - 1);
    assert p >= q + 1 ==> d * p >= d * (q + 1);
  }

  // The most significant byte comes first.
  lemma {:induction false} BigEndianAt(v: nat, n: nat, i: nat)
    requires i < n
    ensures BigEndian(v, n)[i] == v / Pow256(n - 1 - i) % 256
  {
    if i < n - 1 {
      BigEndianAt(v / 256, n - 1, i);
      DivideTwice(v, Pow256(n - 2 - i));
    }
  }

  // Earlier bytes weigh more.
  lemma {:induction false} FromBigEndianConcat(a: seq<byte>, b: seq<byte>)
    ensures FromBigEndian(a + b) == FromBigEndian(a) * Pow256(|b|) + FromBigEndian(b)
    ensures |b| == 1 ==> FromBigEndian(b) == b[0]
  {
    hide FromBigEndian, Pow256;
    if |b| == 0 {
      assert a + b == a;
      FromNothing(b);
    } else {
      var n := |b| - 1;
      assert (a + b)[..|a + b| - 1] == a + b[..n];
      FromBigEndianConcat(a, b[..n]);
      FromLast(a + b);
      FromLast(b);
      FromNothing([]);
      Carry(FromBigEndian(a), Pow256(n), FromBigEndian(b[..n]));
    }
  }

  lemma FromNothing(b: seq<byte>)
    requires |b| == 0
    ensures FromBigEndian(b) == 0 && Pow256(0) == 1
  {}

  lemma FromLast(b: seq<byte>)
    requires |b| > 0
    ensures var n := |b| - 1; FromBigEndian(b) == 256 * FromBigEndian(b[..n]) + b[n] && Pow256(n + 1) == 256 * Pow256(n)
  {}

  lemma Carry(x: nat, p: nat, y: nat)
    ensures 256 * (x * p + y) == x * (256 * p) + 256 * y
  {}

  // ---- typed fields ----

  datatype Kind = Unsigned(size: nat) | Signed(size: nat)

  predicate Fits(k: Kind, v: int) {
    match k
    case Unsigned(n) => 0 <= v < Pow256(n)
    case Signed(n) => -(Pow256(n) / 2) <= v < Pow256(n) / 2 && n > 0
  }

  // Two's complement.
  function ToBits(k: Kind, v: int): (bits: nat)
    requires Fits(k, v)
    ensures bits < Pow256(k.size)
  {
    if v < 0 then v + Pow256(k.size) else v
  }

  lemma Pow256Even(n: nat)
    requires n > 0
    ensures Pow256(n) == 2 * (Pow256(n) / 2)
  {
    var p := Pow256(n - 1);
    assert Pow256(n) == 2 * (128 * p);
  }

  // The reader's case split: small patterns as they are, the others through their complement.
  function FromBits(k: Kind, bits: nat): (v: int)
    requires bits < Pow256(k.size) && k.size > 0
    ensures Fits(k, v)
  {
    Pow256Even(k.size);
    var range := Pow256(k.size);
    if k.Unsigned? || bits <= range / 2 - 1 then bits else -1 - (range - 1 - bits)
  }

  lemma FromToBits(k: Kind, v: int)
    requires Fits(k, v) && k.size > 0
    ensures FromBits(k, ToBits(k, v)) == v
  {
    hide Pow256;
    Pow256Even(k.size);
  }

  lemma ToFromBits(k: Kind, bits: nat)
    requires bits < Pow256(k.size) && k.size > 0
    ensures ToBits(k, FromBits(k, bits)) == bits
  {
    hide Pow256;
    Pow256Even(k.size);
  }

  // ---- sequences of fields ----

  ghost predicate Conforms(ks: seq<Kind>, vs: seq<int>) {
    |ks| == |vs| && forall i | 0 <= i < |ks| :: ks[i].size > 0 && Fits(ks[i], vs[i])
  }

  ghost predicate Sized(ks: seq<Kind>) {
    forall i | 0 <= i < |ks| :: ks[i].size > 0
  }

  function Width(ks: seq<Kind>): nat {
    if |ks| == 0 then 0 else ks[0].size + Width(ks[1..])
  }

  function EncodeValue(k: Kind, v: int): (b: seq<byte>)
    requires Fits(k, v)
    ensures |b| == k.size
  {
    BigEndian(ToBits(k, v), k.size)
  }

  function EncodeValues(ks: seq<Kind>, vs: seq<int>): (b: seq<byte>)
    requires |ks| == |vs| && forall i | 0 <= i < |ks| :: ks[i].size > 0 && Fits(ks[i], vs[i])
    ensures |b| == Width(ks)
  {
    if |ks| == 0 then [] else EncodeValue(ks[0], vs[0]) + EncodeValues(ks[1..], vs[1..])
  }

  // Reads the fields one after another; None when the input ends inside a field.
  function DecodeValues(ks: seq<Kind>, b: seq<byte>): (r: Option<seq<int>>)
    requires forall i | 0 <= i < |ks| :: ks[i].size > 0
  {
    if |ks| == 0 then Some([])
    else if |b| < ks[0].size then None
    else
      var head := FromBits(ks[0], FromBigEndian(b[..ks[0].size]));
      match DecodeValues(ks[1..], b[ks[0].size..])
      case None => None
      case Some(tail) => Some([head] + tail)
  }

  lemma {:induction false} DecodeSucceeds(ks: seq<Kind>, b: seq<byte>)
    requires Sized(ks)
    ensures DecodeValues(ks, b).Some? <==> |b| >= Width(ks)
    ensures DecodeValues(ks, b).Some? ==> Conforms(ks, DecodeValues(ks, b).value)
  {
    if |ks| > 0 && |b| >= ks[0].size {
      DecodeSucceeds(ks[1..], b[ks[0].size..]);
      if DecodeValues(ks, b).Some? {
        var vs := DecodeValues(ks, b).value;
        assert vs[1..] == DecodeValues(ks[1..], b[ks[0].size..]).value;
        forall i | 0 <= i < |ks| ensures Fits(ks[i], vs[i]) {
          if i > 0 { assert ks[i] == ks[1..][i - 1] && vs[i] == vs[1..][i - 1]; }
        }
      }
    }
  }

  lemma {:induction false} DecodeEncodeValues(ks: seq<Kind>, vs: seq<int>, rest: seq<byte>)
    requires Conforms(ks, vs)
    ensures DecodeValues(ks, EncodeValues(ks, vs) + rest) == Some(vs)
  {
    if |ks| > 0 {
      var k := ks[0];
      var b := EncodeValues(ks, vs) + rest;
      assert b[..k.size] == EncodeValue(k, vs[0]);
      assert b[k.size..] == EncodeValues(ks[1..], vs[1..]) + rest;
      DecodeEncodeValues(ks[1..], vs[1..], rest);
      FromToBigEndian(ToBits(k, vs[0]), k.size);
      FromToBits(k, vs[0]);
      assert [vs[0]] + vs[1..] == vs;
    }
  }

  lemma {:induction false} EncodeDecodeValues(ks: seq<Kind>, b: seq<byte>)
    requires Sized(ks) && |b| == Width(ks)
    ensures DecodeValues(ks, b).Some? && Conforms(ks, DecodeValues(ks, b).value)
    ensures EncodeValues(ks, DecodeValues(ks, b).value) == b
  {
    DecodeSucceeds(ks, b);
    if |ks| > 0 {
      var k := ks[0];
      var bits := FromBigEndian(b[..k.size]);
      EncodeDecodeValues(ks[1..], b[k.size..]);
      assert DecodeValues(ks, b).value[1..] == DecodeValues(ks[1..], b[k.size..]).value;
      ToFromBits(k, bits);
      ToFromBigEndian(b[..k.size]);
      assert b[..k.size] + b[k.size..] == b;
    }
  }

  lemma {:induction false} WidthConcat(a: seq<Kind>, b: seq<Kind>)
    ensures Width(a + b) == Width(a) + Width(b)
  {
    if |a| == 0 {
      assert a + b == b;
    } else {
      assert (a + b)[1..] == a[1..] + b;
      WidthConcat(a[1..], b);
    }
  }

  lemma OneKind(k: Kind)
    ensures Width([k]) == k.size
  {}

  // ---- where the fields are ----

  // The offset of field `i`.
  function Offset(ks: seq<Kind>, i: nat): (o: nat)
    requires i <= |ks|
  {
    Width(ks[..i])
  }

  lemma OffsetNext(ks: seq<Kind>, i: nat)
    requires 0 < i <= |ks|
    ensures Offset(ks, i) == ks[0].size + Offset(ks[1..], i - 1)
  {
    assert ks[..i][1..] == ks[1..][..i - 1];
  }

  // A written field stands at its offset, whatever stands before and after.
  lemma {:induction false} EncodedAt(ks: seq<Kind>, vs: seq<int>, i: nat)
    requires Conforms(ks, vs) && i < |ks|
    ensures var b, o := EncodeValues(ks, vs), Offset(ks, i);
            o + ks[i].size <= |b| && b[o..o + ks[i].size] == EncodeValue(ks[i], vs[i])
  {
    hide EncodeValue, Offset, EncodeValues, Width;
    EncodeFirst(ks, vs);
    var head, tail := EncodeValue(ks[0], vs[0]), EncodeValues(ks[1..], vs[1..]);
    if i == 0 {
      OffsetFirst(ks);
    } else {
      EncodedAt(ks[1..], vs[1..], i - 1);
      OffsetNext(ks, i);
      var o := Offset(ks[1..], i - 1);
      assert (head + tail)[ks[0].size + o..ks[0].size + o + ks[i].size] == tail[o..o + ks[i].size];
    }
  }

  lemma EncodeFirst(ks: seq<Kind>, vs: seq<int>)
    requires Conforms(ks, vs) && |ks| > 0
    ensures Conforms(ks[1..], vs[1..]) && |EncodeValue(ks[0], vs[0])| == ks[0].size
    ensures EncodeValues(ks, vs) == EncodeValue(ks[0], vs[0]) + EncodeValues(ks[1..], vs[1..])
  {}

  lemma OffsetFirst(ks: seq<Kind>)
    ensures Offset(ks, 0) == 0
  {}

  // A field is read from its offset.
  lemma {:induction false} DecodedAt(ks: seq<Kind>, b: seq<byte>, i: nat)
    requires Sized(ks) && i < |ks| && DecodeValues(ks, b).Some?
    ensures var vs, o := DecodeValues(ks, b).value, Offset(ks, i);
            |vs| == |ks| && o + ks[i].size <= |b| && vs[i] == FromBits(ks[i], FromBigEndian(b[o..o + ks[i].size]))
  {
    hide FromBits, FromBigEndian;
    DecodeSucceeds(ks, b);
    if i > 0 {
      var rest := b[ks[0].size..];
      DecodedAt(ks[1..], rest, i - 1);
      OffsetNext(ks, i);
      var o := Offset(ks[1..], i - 1);
      assert rest[o..o + ks[i].size] == b[ks[0].size + o..ks[0].size + o + ks[i].size];
    }
  }

  // An unsigned field reads back from its bytes as the value written.
  lemma UnsignedAt(ks: seq<Kind>, vs: seq<int>, i: nat)
    requires Conforms(ks, vs) && i < |ks| && ks[i].Unsigned?
    ensures var b, o := EncodeValues(ks, vs), Offset(ks, i);
            o + ks[i].size <= |b| && FromBigEndian(b[o..o + ks[i].size]) == vs[i]
  {
    hide EncodeValues, Offset, Width;
    EncodedAt(ks, vs, i);
    FromToBigEndian(vs[i], ks[i].size);
  }
}
