/** The codec as it runs: a writer that appends bytes, a reader that advances through them. */
module Codec {
  import opened Bytes
  import opened Options
  import opened Wire
  import opened Message

  // A value shifted right by whole bytes.
  function Shifted(v: nat, n: nat): (r: nat) { if n == 0 then v else Shifted(v / 256, n - 1) }

  lemma {:induction false} ShiftedNext(v: nat, n: nat)
    ensures Shifted(v, n + 1) == Shifted(v, n) / 256
  {
    if n > 0 { ShiftedNext(v / 256, n - 1); }
  }

  lemma {:induction false} ShiftedOut(v: nat, n: nat)
    requires v < Pow256(n)
    ensures Shifted(v, n) == 0
  {
    if n > 0 { ShiftedOut(v / 256, n - 1); }
  }

  class Writer {
    var bytes: seq<byte>

    constructor ()
      ensures bytes == []
    {
      bytes := [];
    }

    // One integer, most significant byte first.
    method PutValue(k: Kind, v: int)
      requires Fits(k, v)
      modifies this
      ensures bytes == old(bytes) + EncodeValue(k, v)
    {
      var bits, i := ToBits(k, v), k.size;
      var out: seq<byte> := [];
      ShiftedOut(bits, k.size);
      while i > 0
        invariant 0 <= i <= k.size && out == BigEndian(Shifted(bits, i), k.size - i) && bytes == old(bytes)
      {
        ShiftedNext(bits, i - 1);
        i := i - 1;
        out := out + [Shifted(bits, i) % 256];
      }
      bytes := bytes + out;
    }

    method PutValues(ks: seq<Kind>, vs: seq<int>)
      requires Conforms(ks, vs)
      modifies this
      ensures bytes == old(bytes) + EncodeValues(ks, vs)
    {
      var i := 0;
      while i < |ks|
        invariant i <= |ks| && Conforms(ks[i..], vs[i..])
        invariant bytes + EncodeValues(ks[i..], vs[i..]) == old(bytes) + EncodeValues(ks, vs)
      {
        assert ks[i..][1..] == ks[i + 1..] && vs[i..][1..] == vs[i + 1..];
        PutValue(ks[i], vs[i]);
        i := i + 1;
      }
      assert EncodeValues(ks[i..], vs[i..]) == [];
    }
  }

  class Reader {
    const data: seq<byte>
    var pos: nat

    ghost predicate Valid()
      reads this
    {
      pos <= |data|
    }

    constructor (data: seq<byte>, pos: nat)
      requires pos <= |data|
      ensures Valid() && this.data == data && this.pos == pos
    {
      this.data, this.pos := data, pos;
    }

    // One integer, or None when the frame is truncated.
    method GetValue(k: Kind) returns (v: Option<int>)
      requires Valid() && k.size > 0
      modifies this
      ensures Valid()
      ensures v.None? <==> old(pos) + k.size > |data|
      ensures v.None? ==> pos == old(pos)
      ensures v.Some? ==> pos == old(pos) + k.size && v.value == FromBits(k, FromBigEndian(data[old(pos)..pos]))
    {
      if pos + k.size > |data| {
        return None;
      }
      var bits: nat, i, start := 0, 0, pos;
      while i < k.size
        invariant i <= k.size && pos == start + i && start + k.size <= |data|
        invariant bits == FromBigEndian(data[start..start + i])
      {
        assert data[start..start + i + 1][..i] == data[start..start + i];
        bits := bits * 256 + data[pos];
        pos := pos + 1;
        i := i + 1;
      }
      return Some(FromBits(k, bits));
    }

    method GetValues(ks: seq<Kind>) returns (vs: Option<seq<int>>)
      requires Valid() && Sized(ks)
      modifies this
      ensures Valid()
      ensures vs == DecodeValues(ks, data[old(pos)..])
      ensures vs.Some? ==> pos == old(pos) + Width(ks)
    {
      var i, out, start := 0, [], pos;
      assert ks[0..] == ks;
      PrependNothing(DecodeValues(ks, data[start..]));
      while i < |ks|
        invariant i <= |ks| && Valid() && pos + Width(ks[i..]) == start + Width(ks)
        invariant DecodeValues(ks, data[start..]) == Prepend(out, DecodeValues(ks[i..], data[pos..]))
      {
        var before := pos;
        var v := GetValue(ks[i]);
        assert ks[i..][1..] == ks[i + 1..];
        if v.None? {
          return None;
        }
        assert data[before..][..ks[i].size] == data[before..pos] && data[before..][ks[i].size..] == data[pos..];
        PrependMore(out, v.value, DecodeValues(ks[i + 1..], data[pos..]));
        out := out + [v.value];
        i := i + 1;
      }
      assert ks[i..] == [] && out + [] == out;
      return Some(out);
    }
  }

  ghost function Prepend(xs: seq<int>, r: Option<seq<int>>): Option<seq<int>> {
    if r.None? then None else Some(xs + r.value)
  }

  lemma PrependNothing(r: Option<seq<int>>)
    ensures Prepend([], r) == r
  {
    if r.Some? {
      assert [] + r.value == r.value;
    }
  }

  lemma PrependMore(xs: seq<int>, x: int, r: Option<seq<int>>)
    ensures Prepend(xs, Prepend([x], r)) == Prepend(xs + [x], r)
  {
    if r.Some? {
      assert xs + ([x] + r.value) == (xs + [x]) + r.value;
    }
  }

  // ---- frames ----

  // The length goes into the frame only once it is known: the first pass writes with length zero.
  method EncodeFrame(m: Native, len: nat) returns (r: Option<seq<byte>>)
    requires WellTyped(m)
    ensures r == Encode(m, len)
  {
    hide WellTyped, FrameKinds, EncodeValues, Conforms, Width;
    if !ValidFrame(m, len) {
      return None;
    }
    WireSizes();
    RelengthTyped(m);
    WithLengthTyped(m, 0);
    var first := PutFrame(WithLength(m, 0));
    var second := PutFrame(WithLength(m, |first|));
    return Some(second);
  }

  // The tag and all fields of a message.
  method PutFrame(m: Native) returns (b: seq<byte>)
    requires WellTyped(m)
    ensures b == Serialize(m)
  {
    hide FrameKinds, EncodeValues, Conforms;
    var w := new Writer();
    MagicFits();
    w.PutValue(Unsigned(4), MAGIC);
    w.PutValues(FrameKinds(m.header.kind), HeaderValues(m.header) + m.body);
    b := w.bytes;
  }

  method DecodeFrame(b: seq<byte>) returns (r: Option<Native>)
    ensures r == Decode(b)
  {
    hide FrameKinds, DecodeValues, Width, Sized, DecodeAs;
    if |b| < 44 || |b| > MAX_FRAME {
      return None;
    }
    SmallSized();
    var reader := new Reader(b, 0);
    var tag := reader.GetValue(Unsigned(4));
    var hs := reader.GetValues(HEADER_KINDS);
    if hs.None? {
      return None;
    }
    HeaderDecodes(b[4..]);
    var h := HeaderOf(hs.value);
    if tag.value != MAGIC || h.version != VERSION || h.bodyLen != |b| || !Known(h.kind) {
      return None;
    }
    r := DecodeFrameAs(b, h.kind);
  }

  method DecodeFrameAs(b: seq<byte>, kind: nat) returns (r: Option<Native>)
    requires |b| >= 4 && Known(kind)
    ensures r == DecodeAs(b, kind)
  {
    hide BodyKinds, DecodeValues, Width, Sized;
    KindsSized(kind);
    var reader := new Reader(b, 4);
    var vs := reader.GetValues(FrameKinds(kind));
    if vs.None? {
      return None;
    }
    FrameDecodes(kind, b[4..]);
    var h := HeaderOf(vs.value[..7]);
    if reader.pos != |b| || h.bodyLen != |b| || h.version != VERSION {
      return None;
    }
    return Some(Native(h.(bodyLen := NativeSize(kind)), vs.value[7..]));
  }
}
