/** Application messages and their encoding as PUL3 frames. */
module Message {
  import opened Bytes
  import opened Options
  import opened Wire

  const MAGIC: nat := 0x50554c33
  const VERSION: nat := 2

  const TRADE: nat := 1
  const BBO: nat := 2
  const ORDER_BOOK: nat := 3

  datatype Header = Header(seqId: nat, sendTs: nat, kind: nat, version: nat, bodyLen: nat, streamId: nat, streamEpoch: nat)

  // The header and the remaining fields in declaration order. Doubles are their 64-bit patterns.
  datatype Native = Native(header: Header, body: seq<int>)

  function Repeat(k: Kind, n: nat): (ks: seq<Kind>)
    ensures |ks| == n
  {
    seq(n, _ => k)
  }

  const HEADER_KINDS: seq<Kind> :=
    [Unsigned(8), Unsigned(8), Unsigned(2), Unsigned(2), Unsigned(4), Unsigned(8), Unsigned(8)]

  // price, size, price_ticks, size_lots, order_count, reserved
  const LEVEL_KINDS: seq<Kind> :=
    [Unsigned(8), Unsigned(8), Signed(8), Signed(8), Unsigned(4), Unsigned(4)]

  function Levels(n: nat): (ks: seq<Kind>) {
    if n == 0 then [] else LEVEL_KINDS + Levels(n - 1)
  }

  function BodyKinds(kind: nat): (ks: seq<Kind>) {
    if kind == TRADE then
      // symbol, venue, base_currency, quote_currency; ids and timestamps; price, quantity,
      // notional; ticks and lots; tick_direction; sides and flags; reserved
      Repeat(Signed(1), 48) + (Repeat(Unsigned(8), 8) + (Repeat(Signed(8), 2) +
        ([Unsigned(4)] + Repeat(Unsigned(1), 24))))
    else if kind == BBO then
      // symbol, venue; id and timestamps, prices and sizes; ticks and lots; counts; flags, reserved
      Repeat(Signed(1), 32) + (Repeat(Unsigned(8), 7) + (Repeat(Signed(8), 4) +
        (Repeat(Unsigned(4), 2) + Repeat(Unsigned(1), 24))))
    else if kind == ORDER_BOOK then
      // symbol, venue; ids and timestamps; bids and asks; checksum; is_snapshot, flags, reserved
      Repeat(Signed(1), 32) + (Repeat(Unsigned(8), 4) + (Levels(10) +
        ([Unsigned(4)] + Repeat(Unsigned(1), 28))))
    else []
  }

  function FrameKinds(kind: nat): (ks: seq<Kind>) { HEADER_KINDS + BodyKinds(kind) }

  predicate Known(kind: nat) { kind == TRADE || kind == BBO || kind == ORDER_BOOK }

  // sizeof of the native structures, zero for an unknown type.
  function NativeSize(kind: nat): nat {
    if kind == TRADE then 256 else if kind == BBO then 192 else if kind == ORDER_BOOK then 576 else 0
  }

  function WireSize(kind: nat): nat { 4 + Width(FrameKinds(kind)) }

  function HeaderValues(h: Header): (vs: seq<int>)
    ensures |vs| == 7
  {
    [h.seqId, h.sendTs, h.kind, h.version, h.bodyLen, h.streamId, h.streamEpoch]
  }

  function HeaderOf(vs: seq<int>): (h: Header)
    requires |vs| == 7 && forall i | 0 <= i < 7 :: vs[i] >= 0
  {
    Header(vs[0], vs[1], vs[2], vs[3], vs[4], vs[5], vs[6])
  }

  // Every field holds a value of its C++ type.
  ghost predicate WellTyped(m: Native) {
    Conforms(FrameKinds(m.header.kind), HeaderValues(m.header) + m.body)
  }

  // The check of the native frame before it is encoded.
  predicate ValidFrame(m: Native, len: nat) {
    && 40 <= len <= 576
    && m.header.version == VERSION && m.header.bodyLen == len
    && NativeSize(m.header.kind) == len
  }

  function Encode(m: Native, len: nat): (r: Option<seq<byte>>)
    requires WellTyped(m)
  {
    if !ValidFrame(m, len) then None
    else
      RelengthTyped(m);
      Some(Serialize(WithLength(m, WireSize(m.header.kind))))
  }

  lemma RelengthTyped(m: Native)
    requires WellTyped(m)
    ensures Known(m.header.kind) ==> WellTyped(WithLength(m, WireSize(m.header.kind)))
  {
    hide WellTyped, WireSize;
    WireSizes();
    if Known(m.header.kind) {
      WithLengthTyped(m, WireSize(m.header.kind));
    }
  }

  function WithLength(m: Native, len: nat): Native {
    m.(header := m.header.(bodyLen := len))
  }

  lemma WithLengthTyped(m: Native, len: nat)
    requires WellTyped(m) && len <= 1024
    ensures WellTyped(WithLength(m, len))
  {
    hide BodyKinds;
    var ks := FrameKinds(m.header.kind);
    var vs, ws := HeaderValues(m.header) + m.body, HeaderValues(WithLength(m, len).header) + m.body;
    assert ks[4] == Unsigned(4) && ws[4] == len;
    assert Pow256(4) > 1024;
    forall i | 0 <= i < |ks| ensures Fits(ks[i], ws[i]) {
      assert i != 4 ==> ws[i] == vs[i];
    }
  }

  function Serialize(m: Native): (b: seq<byte>)
    requires WellTyped(m)
    ensures |b| == WireSize(m.header.kind)
  {
    BigEndian(MAGIC, 4) + EncodeValues(FrameKinds(m.header.kind), HeaderValues(m.header) + m.body)
  }

  function DecodeHeader(b: seq<byte>): (h: Option<Header>) {
    match DecodeValues(HEADER_KINDS, b)
    case None => None
    case Some(vs) => HeaderDecodes(b); Some(HeaderOf(vs))
  }

  lemma HeaderDecodes(b: seq<byte>)
    requires DecodeValues(HEADER_KINDS, b).Some?
    ensures var vs := DecodeValues(HEADER_KINDS, b).value;
            Conforms(HEADER_KINDS, vs) && forall i | 0 <= i < 7 :: vs[i] >= 0
  {
    hide DecodeValues, Width, Pow256;
    SmallSized();
    DecodeSucceeds(HEADER_KINDS, b);
    var vs := DecodeValues(HEADER_KINDS, b).value;
    forall i | 0 <= i < 7 ensures vs[i] >= 0 {
      assert HEADER_KINDS[i].Unsigned? && Fits(HEADER_KINDS[i], vs[i]);
    }
  }

  lemma FrameDecodes(kind: nat, b: seq<byte>)
    requires Sized(FrameKinds(kind)) && DecodeValues(FrameKinds(kind), b).Some?
    ensures var vs := DecodeValues(FrameKinds(kind), b).value;
            Conforms(FrameKinds(kind), vs) && forall i | 0 <= i < 7 :: vs[i] >= 0
  {
    hide DecodeValues, BodyKinds;
    DecodeSucceeds(FrameKinds(kind), b);
    var vs := DecodeValues(FrameKinds(kind), b).value;
    forall i | 0 <= i < 7 ensures vs[i] >= 0 {
      assert FrameKinds(kind)[i] == HEADER_KINDS[i];
    }
  }

  function Decode(b: seq<byte>): (r: Option<Native>) {
    if |b| < 44 || |b| > MAX_FRAME then None
    else
      match DecodeHeader(b[4..])
      case None => None
      case Some(h) =>
        if FromBigEndian(b[..4]) != MAGIC || h.version != VERSION || h.bodyLen != |b| || !Known(h.kind) then None
        else DecodeAs(b, h.kind)
  }

  function DecodeAs(b: seq<byte>, kind: nat): (r: Option<Native>)
    requires |b| >= 4 && Known(kind)
  {
    KindsSized(kind);
    match DecodeValues(FrameKinds(kind), b[4..])
    case None => None
    case Some(vs) =>
      FrameDecodes(kind, b[4..]);
      var h := HeaderOf(vs[..7]);
      if WireSize(kind) != |b| || h.bodyLen != |b| || h.version != VERSION then None
      else Some(Native(h.(bodyLen := NativeSize(kind)), vs[7..]))
  }

  // ---- sizes ----

  lemma {:induction false} LevelsSized(n: nat)
    ensures Sized(Levels(n))
  {
    if n > 0 { LevelsSized(n - 1); }
  }

  lemma RepeatSized(k: Kind, n: nat)
    ensures k.size > 0 ==> Sized(Repeat(k, n))
  {}

  lemma SizedConcat(a: seq<Kind>, b: seq<Kind>)
    requires Sized(a) && Sized(b)
    ensures Sized(a + b)
  {}

  lemma SizedFive(a: seq<Kind>, b: seq<Kind>, c: seq<Kind>, d: seq<Kind>, e: seq<Kind>)
    requires Sized(a) && Sized(b) && Sized(c) && Sized(d) && Sized(e)
    ensures Sized(a + (b + (c + (d + e))))
  {
    hide Sized;
    SizedConcat(d, e);
    SizedConcat(c, d + e);
    SizedConcat(b, c + (d + e));
    SizedConcat(a, b + (c + (d + e)));
  }

  lemma KindsSized(kind: nat)
    ensures Sized(FrameKinds(kind))
  {
    hide Sized, Repeat, Levels;
    SmallSized();
    SizedConcat(HEADER_KINDS, BodyKinds(kind)) by {
      if kind == TRADE {
        RepeatSized(Signed(1), 48); RepeatSized(Unsigned(8), 8); RepeatSized(Signed(8), 2); RepeatSized(Unsigned(1), 24);
        SizedFive(Repeat(Signed(1), 48), Repeat(Unsigned(8), 8), Repeat(Signed(8), 2), [Unsigned(4)], Repeat(Unsigned(1), 24));
      } else if kind == BBO {
        RepeatSized(Signed(1), 32); RepeatSized(Unsigned(8), 7); RepeatSized(Signed(8), 4);
        RepeatSized(Unsigned(4), 2); RepeatSized(Unsigned(1), 24);
        SizedFive(Repeat(Signed(1), 32), Repeat(Unsigned(8), 7), Repeat(Signed(8), 4), Repeat(Unsigned(4), 2), Repeat(Unsigned(1), 24));
      } else if kind == ORDER_BOOK {
        RepeatSized(Signed(1), 32); RepeatSized(Unsigned(8), 4); LevelsSized(10); RepeatSized(Unsigned(1), 28);
        SizedFive(Repeat(Signed(1), 32), Repeat(Unsigned(8), 4), Levels(10), [Unsigned(4)], Repeat(Unsigned(1), 28));
      }
    }
  }

  lemma SmallSized()
    ensures Sized(HEADER_KINDS) && Sized([Unsigned(4)]) && Sized([])
  {}

  lemma {:induction false} WidthRepeat(k: Kind, n: nat)
    ensures Width(Repeat(k, n)) == n * k.size
  {
    if n > 0 {
      assert Repeat(k, n)[1..] == Repeat(k, n - 1);
      WidthRepeat(k, n - 1);
    }
  }

  lemma {:induction false} WidthLevels(n: nat)
    ensures Width(Levels(n)) == 40 * n
  {
    if n > 0 {
      WidthConcat(LEVEL_KINDS, Levels(n - 1));
      WidthLevels(n - 1);
      WidthLevel();
    }
  }

  lemma WidthLevel()
    ensures Width(LEVEL_KINDS) == 40
  {
    assert LEVEL_KINDS == Repeat(Unsigned(8), 2) + (Repeat(Signed(8), 2) + Repeat(Unsigned(4), 2));
    WidthRepeat(Unsigned(8), 2);
    WidthRepeat(Signed(8), 2);
    WidthRepeat(Unsigned(4), 2);
    WidthConcat(Repeat(Signed(8), 2), Repeat(Unsigned(4), 2));
    WidthConcat(Repeat(Unsigned(8), 2), Repeat(Signed(8), 2) + Repeat(Unsigned(4), 2));
  }

  lemma WidthHeader()
    ensures Width(HEADER_KINDS) == 40
  {
    var u8, u2, u4 := Repeat(Unsigned(8), 2), Repeat(Unsigned(2), 2), Repeat(Unsigned(4), 1);
    assert HEADER_KINDS == u8 + (u2 + (u4 + u8));
    WidthRepeat(Unsigned(8), 2);
    WidthRepeat(Unsigned(2), 2);
    WidthRepeat(Unsigned(4), 1);
    WidthConcat(u4, u8);
    WidthConcat(u2, u4 + u8);
    WidthConcat(u8, u2 + (u4 + u8));
  }

  lemma WidthFive(a: seq<Kind>, b: seq<Kind>, c: seq<Kind>, d: seq<Kind>, e: seq<Kind>)
    ensures Width(a + (b + (c + (d + e)))) == Width(a) + Width(b) + Width(c) + Width(d) + Width(e)
  {
    WidthConcat(d, e);
    WidthConcat(c, d + e);
    WidthConcat(b, c + (d + e));
    WidthConcat(a, b + (c + (d + e)));
  }

  // The documented frame sizes.
  lemma WireSizes()
    ensures WireSize(TRADE) == 200 && WireSize(BBO) == 196 && WireSize(ORDER_BOOK) == 540
  {
    hide Width, Repeat, Levels;
    WidthHeader();
    WidthConcat(HEADER_KINDS, BodyKinds(TRADE));
    WidthConcat(HEADER_KINDS, BodyKinds(BBO));
    WidthConcat(HEADER_KINDS, BodyKinds(ORDER_BOOK));
    OneKind(Unsigned(4));
    WidthRepeat(Signed(1), 48); WidthRepeat(Unsigned(8), 8); WidthRepeat(Signed(8), 2); WidthRepeat(Unsigned(1), 24);
    WidthFive(Repeat(Signed(1), 48), Repeat(Unsigned(8), 8), Repeat(Signed(8), 2), [Unsigned(4)], Repeat(Unsigned(1), 24));
    WidthRepeat(Signed(1), 32); WidthRepeat(Unsigned(8), 7); WidthRepeat(Signed(8), 4); WidthRepeat(Unsigned(4), 2);
    WidthFive(Repeat(Signed(1), 32), Repeat(Unsigned(8), 7), Repeat(Signed(8), 4), Repeat(Unsigned(4), 2), Repeat(Unsigned(1), 24));
    WidthRepeat(Unsigned(8), 4); WidthLevels(10); WidthRepeat(Unsigned(1), 28);
    WidthFive(Repeat(Signed(1), 32), Repeat(Unsigned(8), 4), Levels(10), [Unsigned(4)], Repeat(Unsigned(1), 28));
  }

  // ---- the two directions undo each other ----

  lemma HeaderOfValues(h: Header)
    ensures forall i | 0 <= i < 7 :: HeaderValues(h)[i] >= 0
    ensures HeaderOf(HeaderValues(h)) == h
  {}

  // The header prefix of a frame decodes to the header that was written.
  lemma SerializedHeader(m: Native)
    requires WellTyped(m)
    ensures DecodeHeader(Serialize(m)[4..]) == Some(m.header)
    ensures FromBigEndian(Serialize(m)[..4]) == MAGIC
  {
    hide BodyKinds, DecodeValues, EncodeValues, BigEndian;
    var kind := m.header.kind;
    var hv := HeaderValues(m.header);
    var b := Serialize(m);
    assert b[4..] == EncodeValues(FrameKinds(kind), hv + m.body);
    EncodePrefix(HEADER_KINDS, BodyKinds(kind), hv, m.body);
    DecodeEncodeValues(HEADER_KINDS, hv, EncodeValues(BodyKinds(kind), m.body));
    HeaderOfValues(m.header);
    assert b[..4] == BigEndian(MAGIC, 4);
    MagicFits();
    FromToBigEndian(MAGIC, 4);
  }

  lemma MagicFits()
    ensures Fits(Unsigned(4), MAGIC)
  {
    assert Pow256(4) == 0x1_0000_0000;
  }

  lemma ConformsSplit(ks: seq<Kind>, ls: seq<Kind>, vs: seq<int>, ws: seq<int>)
    requires Conforms(ks + ls, vs + ws) && |ks| == |vs|
    ensures Conforms(ks, vs) && Conforms(ls, ws)
  {
    hide Fits;
    assert forall i | 0 <= i < |ks| :: (ks + ls)[i] == ks[i] && (vs + ws)[i] == vs[i];
    assert forall i | 0 <= i < |ls| :: (ks + ls)[|ks| + i] == ls[i] && (vs + ws)[|ks| + i] == ws[i];
  }

  lemma ConformsTail(ks: seq<Kind>, vs: seq<int>)
    requires Conforms(ks, vs) && |ks| > 0
    ensures Conforms(ks[1..], vs[1..])
  {
    hide Fits;
  }

  lemma {:induction false} EncodePrefix(ks: seq<Kind>, ls: seq<Kind>, vs: seq<int>, ws: seq<int>)
    requires Conforms(ks + ls, vs + ws) && |ks| == |vs|
    ensures Conforms(ks, vs) && Conforms(ls, ws)
    ensures EncodeValues(ks + ls, vs + ws) == EncodeValues(ks, vs) + EncodeValues(ls, ws)
  {
    hide EncodeValue, Fits, Width;
    ConformsSplit(ks, ls, vs, ws);
    if |ks| == 0 {
      assert ks + ls == ls && vs + ws == ws;
    } else {
      ConformsTail(ks + ls, vs + ws);
      assert (ks + ls)[1..] == ks[1..] + ls && (vs + ws)[1..] == vs[1..] + ws;
      EncodePrefix(ks[1..], ls, vs[1..], ws);
    }
  }

  // Every valid native message survives the round trip, field by field.
  lemma DecodeEncode(m: Native, len: nat)
    requires WellTyped(m) && ValidFrame(m, len)
    ensures Encode(m, len).Some? && Decode(Encode(m, len).value) == Some(m)
  {
    hide BodyKinds, DecodeValues, EncodeValues, BigEndian, FromBigEndian, Width;
    WireSizes();
    var kind := m.header.kind;
    WithLengthTyped(m, WireSize(kind));
    var w := WithLength(m, WireSize(kind));
    var b := Serialize(w);
    SerializedHeader(w);
    KindsSized(kind);
    var vs := HeaderValues(w.header) + m.body;
    assert b[4..] == EncodeValues(FrameKinds(kind), vs) + [];
    DecodeEncodeValues(FrameKinds(kind), vs, []);
    FrameDecodes(kind, b[4..]);
    assert vs[..7] == HeaderValues(w.header) && vs[7..] == m.body;
    HeaderOfValues(w.header);
  }

  // Every accepted frame is the encoding of what it was decoded to.
  lemma EncodeDecode(b: seq<byte>)
    requires Decode(b).Some?
    ensures var m := Decode(b).value; WellTyped(m) && Encode(m, NativeSize(m.header.kind)) == Some(b)
  {
    hide BodyKinds, DecodeValues, EncodeValues, BigEndian, FromBigEndian, Width;
    WireSizes();
    var kind := DecodeHeader(b[4..]).value.kind;
    var ks := FrameKinds(kind);
    KindsSized(kind);
    var vs := DecodeValues(ks, b[4..]).value;
    FrameDecodes(kind, b[4..]);
    var w := Native(HeaderOf(vs[..7]), vs[7..]);
    HeaderAgrees(kind, b[4..]);
    assert HeaderValues(w.header) + w.body == vs;
    EncodeDecodeValues(ks, b[4..]);
    ToFromBigEndian(b[..4]);
    assert b == b[..4] + b[4..];
    WithLengthTyped(w, NativeSize(kind));
    assert WithLength(Decode(b).value, WireSize(kind)) == w;
  }

  // The header read first and the header read with the whole frame are the same.
  lemma HeaderAgrees(kind: nat, b: seq<byte>)
    requires Known(kind) && Sized(FrameKinds(kind)) && DecodeValues(FrameKinds(kind), b).Some?
    requires |b| == Width(FrameKinds(kind))
    ensures |DecodeValues(FrameKinds(kind), b).value| >= 7 && DecodeValues(HEADER_KINDS, b).Some?
    ensures DecodeValues(HEADER_KINDS, b).value == DecodeValues(FrameKinds(kind), b).value[..7]
  {
    hide BodyKinds, DecodeValues, EncodeValues;
    var ks := FrameKinds(kind);
    FrameDecodes(kind, b);
    var vs := DecodeValues(ks, b).value;
    EncodeDecodeValues(ks, b);
    assert vs[..7] + vs[7..] == vs;
    EncodePrefix(HEADER_KINDS, BodyKinds(kind), vs[..7], vs[7..]);
    DecodeEncodeValues(HEADER_KINDS, vs[..7], EncodeValues(BodyKinds(kind), vs[7..]));
  }

  // Every truncation and every extension of an encoded frame is refused.
  lemma OtherLengthsRefused(m: Native, len: nat, b: seq<byte>)
    requires WellTyped(m) && ValidFrame(m, len)
    requires b < Encode(m, len).value || Encode(m, len).value < b
    ensures Decode(b) == None
  {
    hide BodyKinds, DecodeValues, EncodeValues, BigEndian, FromBigEndian, Width;
    WireSizes();
    if Decode(b).Some? {
      var e := Encode(m, len).value;
      var w := WithLength(m, WireSize(m.header.kind));
      WithLengthTyped(m, WireSize(m.header.kind));
      SerializedHeader(w);
      HeaderPrefix(b[4..], e[4..]);
    }
  }

  lemma HeaderPrefix(b: seq<byte>, c: seq<byte>)
    requires |b| >= 40 && |c| >= 40 && (b <= c || c <= b)
    ensures DecodeHeader(b) == DecodeHeader(c)
  {
    hide DecodeValues, Width;
    WidthHeader();
    SmallSized();
    var h := b[..40];
    assert h == c[..40];
    EncodeDecodeValues(HEADER_KINDS, h);
    var vs := DecodeValues(HEADER_KINDS, h).value;
    DecodeEncodeValues(HEADER_KINDS, vs, b[40..]);
    DecodeEncodeValues(HEADER_KINDS, vs, c[40..]);
    assert h + b[40..] == b && h + c[40..] == c;
  }

  // ---- the layout of a frame ----

  // Header fields in declaration order: where each starts, and how many bytes it has.
  const HEADER_OFFSETS: seq<nat> := [0, 8, 16, 18, 20, 24, 32]
  const HEADER_SIZES: seq<nat> := [8, 8, 2, 2, 4, 8, 8]

  lemma HeaderOffset(kind: nat, i: nat)
    requires i < 7
    ensures Offset(FrameKinds(kind), i) == HEADER_OFFSETS[i] && FrameKinds(kind)[i] == Unsigned(HEADER_SIZES[i])
  {
    hide BodyKinds, Width;
    var ks := HEADER_KINDS;
    assert FrameKinds(kind)[..i] == ks[..i];
    HeaderWidths();
  }

  lemma HeaderWidths()
    ensures var ks := HEADER_KINDS;
            && Width(ks[..0]) == 0 && Width(ks[..1]) == 8 && Width(ks[..2]) == 16 && Width(ks[..3]) == 18
            && Width(ks[..4]) == 20 && Width(ks[..5]) == 24 && Width(ks[..6]) == 32
  {
    var ks := HEADER_KINDS;
    forall i | 0 <= i < 6 ensures Width(ks[..i + 1]) == Width(ks[..i]) + ks[i].size {
      assert ks[..i + 1] == ks[..i] + [ks[i]];
      WidthConcat(ks[..i], [ks[i]]);
      OneKind(ks[i]);
    }
  }

  // A frame begins with "PUL3"; then come sequence number, send time, type, version, the length of the
  // whole frame, stream and epoch, each most significant byte first.
  lemma FrameLayout(m: Native, len: nat)
    requires WellTyped(m) && ValidFrame(m, len)
    ensures Encode(m, len).Some?
    ensures var b, h := Encode(m, len).value, m.header;
            && |b| >= 44 && b[..4] == [0x50, 0x55, 0x4c, 0x33]
            && FromBigEndian(b[4..12]) == h.seqId && FromBigEndian(b[12..20]) == h.sendTs
            && FromBigEndian(b[20..22]) == h.kind && FromBigEndian(b[22..24]) == h.version == 2
            && FromBigEndian(b[24..28]) == |b|
            && FromBigEndian(b[28..36]) == h.streamId && FromBigEndian(b[36..44]) == h.streamEpoch
  {
    hide BodyKinds, EncodeValues, Width, FromBigEndian, WellTyped;
    WireSizes();
    var kind := m.header.kind;
    RelengthTyped(m);
    var w := WithLength(m, WireSize(kind));
    var b := Serialize(w);
    MagicBytes();
    HeaderBytes(w, 0); HeaderBytes(w, 1); HeaderBytes(w, 2); HeaderBytes(w, 3);
    HeaderBytes(w, 4); HeaderBytes(w, 5); HeaderBytes(w, 6);
  }

  // Every byte string that decodes begins with "PUL3".
  lemma DecodedMagic(b: seq<byte>)
    requires Decode(b).Some?
    ensures |b| >= 44 && b[..4] == [0x50, 0x55, 0x4c, 0x33]
  {
    hide DecodeHeader, DecodeAs, FromBigEndian, BigEndian;
    ToFromBigEndian(b[..4]);
    MagicBytes();
  }

  lemma MagicBytes()
    ensures BigEndian(MAGIC, 4) == [0x50, 0x55, 0x4c, 0x33]
  {
    assert BigEndian(0x50554c, 3) == [0x50, 0x55, 0x4c];
  }

  lemma HeaderBytes(m: Native, i: nat)
    requires WellTyped(m) && i < 7
    ensures var b, o := Serialize(m), 4 + HEADER_OFFSETS[i];
            o + HEADER_SIZES[i] <= |b| && FromBigEndian(b[o..o + HEADER_SIZES[i]]) == HeaderValues(m.header)[i]
  {
    hide BodyKinds, EncodeValues, FromBigEndian, BigEndian, Width;
    var ks, vs := FrameKinds(m.header.kind), HeaderValues(m.header) + m.body;
    HeaderOffset(m.header.kind, i);
    UnsignedAt(ks, vs, i);
    var e, o, n := EncodeValues(ks, vs), HEADER_OFFSETS[i], HEADER_SIZES[i];
    assert (BigEndian(MAGIC, 4) + e)[4 + o..4 + o + n] == e[o..o + n];
  }

  // Every field of the body stands at its own offset too.
  lemma BodyFieldAt(m: Native, i: nat)
    requires WellTyped(m) && 7 <= i < |FrameKinds(m.header.kind)|
    ensures var ks, b := FrameKinds(m.header.kind), Serialize(m);
            var o := 4 + Offset(ks, i);
            o + ks[i].size <= |b| && i - 7 < |m.body| && Fits(ks[i], m.body[i - 7]) && b[o..o + ks[i].size] == EncodeValue(ks[i], m.body[i - 7])
  {
    hide BodyKinds, EncodeValues, EncodeValue, BigEndian, Width, Fits;
    var ks, vs := FrameKinds(m.header.kind), HeaderValues(m.header) + m.body;
    EncodedAt(ks, vs, i);
    var e, o, n := EncodeValues(ks, vs), Offset(ks, i), ks[i].size;
    assert (BigEndian(MAGIC, 4) + e)[4 + o..4 + o + n] == e[o..o + n];
  }

  // Exactly the messages of a known type, at the size of its native structure and version 2, are encoded.
  lemma EncodedExactly(m: Native, len: nat)
    requires WellTyped(m)
    ensures Encode(m, len).Some? <==>
      m.header.version == 2 && m.header.bodyLen == len &&
      ((m.header.kind == 1 && len == 256) || (m.header.kind == 2 && len == 192) || (m.header.kind == 3 && len == 576))
  {
    hide WellTyped, Serialize, WireSize;
  }
}
