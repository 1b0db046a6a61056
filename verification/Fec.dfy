/** The FEC2 shard format and the systematic encoder. */
module Fec {
  import opened Bytes
  import opened Options
  import opened Gf256
  import opened Elimination
  import opened Cauchy
  import opened Wire

  const MAGIC: nat := 0x46454332
  const ENVELOPE_SIZE: nat := 17

  type Frame = seq<byte>

  datatype Envelope = Envelope(magic: nat, genId: nat, index: nat, k: nat, parityCount: nat, protectedLen: nat, closeReason: nat)

  const ENVELOPE_KINDS: seq<Kind> :=
    [Unsigned(4), Unsigned(4), Unsigned(2), Unsigned(2), Unsigned(2), Unsigned(2), Unsigned(1)]

  function EnvelopeValues(e: Envelope): (vs: seq<int>)
    ensures |vs| == 7
  {
    [e.magic, e.genId, e.index, e.k, e.parityCount, e.protectedLen, e.closeReason]
  }

  ghost predicate EnvelopeFits(e: Envelope) {
    && e.magic < 0x1_0000_0000 && e.genId < 0x1_0000_0000 && e.index < 0x1_0000 && e.k < 0x1_0000
    && e.parityCount < 0x1_0000 && e.protectedLen < 0x1_0000 && e.closeReason < 256
  }

  lemma EnvelopeConforms(e: Envelope)
    requires EnvelopeFits(e)
    ensures Conforms(ENVELOPE_KINDS, EnvelopeValues(e))
  {
    assert Pow256(4) == 0x1_0000_0000 && Pow256(2) == 0x1_0000 && Pow256(1) == 256;
  }

  lemma EnvelopeWidth()
    ensures Sized(ENVELOPE_KINDS) && Width(ENVELOPE_KINDS) == ENVELOPE_SIZE
  {
    var ks := ENVELOPE_KINDS;
    assert ks[1..][1..] == ks[2..] && ks[2..][1..] == ks[3..] && ks[3..][1..] == ks[4..];
    assert ks[4..][1..] == ks[5..] && ks[5..][1..] == ks[6..] && ks[6..][1..] == [];
    assert Width(ks[6..]) == 1;
    assert Width(ks[4..]) == 5;
    assert Width(ks[2..]) == 9;
  }

  function WriteEnvelope(e: Envelope): (b: seq<byte>)
    requires EnvelopeFits(e)
    ensures |b| == ENVELOPE_SIZE
  {
    EnvelopeConforms(e);
    EnvelopeWidth();
    EncodeValues(ENVELOPE_KINDS, EnvelopeValues(e))
  }

  function ReadEnvelope(b: seq<byte>): (e: Envelope)
    requires |b| >= ENVELOPE_SIZE
  {
    EnvelopeReads(b);
    var vs := DecodeValues(ENVELOPE_KINDS, b).value;
    Envelope(vs[0], vs[1], vs[2], vs[3], vs[4], vs[5], vs[6])
  }

  lemma EnvelopeReads(b: seq<byte>)
    requires |b| >= ENVELOPE_SIZE
    ensures Sized(ENVELOPE_KINDS) && DecodeValues(ENVELOPE_KINDS, b).Some?
    ensures var vs := DecodeValues(ENVELOPE_KINDS, b).value;
            |vs| == 7 && forall i | 0 <= i < 7 :: vs[i] >= 0
  {
    hide DecodeValues, Width, Pow256;
    EnvelopeWidth();
    DecodeSucceeds(ENVELOPE_KINDS, b);
    var vs := DecodeValues(ENVELOPE_KINDS, b).value;
    forall i | 0 <= i < 7 ensures vs[i] >= 0 {
      assert ENVELOPE_KINDS[i].Unsigned? && Fits(ENVELOPE_KINDS[i], vs[i]);
    }
  }

  lemma ReadWriteEnvelope(e: Envelope, rest: seq<byte>)
    requires EnvelopeFits(e)
    ensures ReadEnvelope(WriteEnvelope(e) + rest) == e
  {
    hide DecodeValues, EncodeValues;
    EnvelopeConforms(e);
    DecodeEncodeValues(ENVELOPE_KINDS, EnvelopeValues(e), rest);
  }

  const ENVELOPE_OFFSETS: seq<nat> := [0, 4, 8, 10, 12, 14, 16]
  const ENVELOPE_SIZES: seq<nat> := [4, 4, 2, 2, 2, 2, 1]

  lemma EnvelopeOffset(i: nat)
    requires i < 7
    ensures Offset(ENVELOPE_KINDS, i) == ENVELOPE_OFFSETS[i] && ENVELOPE_KINDS[i] == Unsigned(ENVELOPE_SIZES[i])
  {
    hide Width;
    EnvelopeWidths();
  }

  lemma EnvelopeWidths()
    ensures var ks := ENVELOPE_KINDS;
            && Width(ks[..0]) == 0 && Width(ks[..1]) == 4 && Width(ks[..2]) == 8 && Width(ks[..3]) == 10
            && Width(ks[..4]) == 12 && Width(ks[..5]) == 14 && Width(ks[..6]) == 16
  {
    hide Width;
    var ks := ENVELOPE_KINDS;
    forall i | 0 <= i < 6 ensures Width(ks[..i + 1]) == Width(ks[..i]) + ks[i].size {
      assert ks[..i + 1] == ks[..i] + [ks[i]];
      WidthConcat(ks[..i], [ks[i]]);
      OneKind(ks[i]);
    }
    NoKinds();
  }

  lemma NoKinds()
    ensures Width([]) == 0
  {}

  // The shard header on the wire: magic, generation, index, k, parity count, length, close reason.
  lemma EnvelopeLayout(e: Envelope)
    requires EnvelopeFits(e)
    ensures var b := WriteEnvelope(e);
            && FromBigEndian(b[0..4]) == e.magic && FromBigEndian(b[4..8]) == e.genId
            && FromBigEndian(b[8..10]) == e.index && FromBigEndian(b[10..12]) == e.k
            && FromBigEndian(b[12..14]) == e.parityCount && FromBigEndian(b[14..16]) == e.protectedLen
            && b[16] == e.closeReason
  {
    hide WriteEnvelope, FromBigEndian, Pow256;
    EnvelopeBytes(e, 0); EnvelopeBytes(e, 1); EnvelopeBytes(e, 2); EnvelopeBytes(e, 3);
    EnvelopeBytes(e, 4); EnvelopeBytes(e, 5); EnvelopeBytes(e, 6);
    var b := WriteEnvelope(e);
    assert [] + b[16..17] == b[16..17];
    FromBigEndianConcat([], b[16..17]);
    FromNothing([]);
  }

  // Reading takes the same bytes, whatever they hold.
  lemma ReadLayout(b: seq<byte>)
    requires |b| >= 17
    ensures var e := ReadEnvelope(b);
            && FromBigEndian(b[0..4]) == e.magic && FromBigEndian(b[4..8]) == e.genId
            && FromBigEndian(b[8..10]) == e.index && FromBigEndian(b[10..12]) == e.k
            && FromBigEndian(b[12..14]) == e.parityCount && FromBigEndian(b[14..16]) == e.protectedLen
            && b[16] == e.closeReason
  {
    hide DecodeValues, FromBigEndian, Pow256;
    EnvelopeReads(b);
    ReadAt(b, 0); ReadAt(b, 1); ReadAt(b, 2); ReadAt(b, 3); ReadAt(b, 4); ReadAt(b, 5); ReadAt(b, 6);
    assert [] + b[16..17] == b[16..17];
    FromBigEndianConcat([], b[16..17]);
    FromNothing([]);
  }

  lemma ReadAt(b: seq<byte>, i: nat)
    requires |b| >= 17 && i < 7
    ensures Sized(ENVELOPE_KINDS) && DecodeValues(ENVELOPE_KINDS, b).Some? && |DecodeValues(ENVELOPE_KINDS, b).value| == 7
    ensures DecodeValues(ENVELOPE_KINDS, b).value[i] == FromBigEndian(b[ENVELOPE_OFFSETS[i]..ENVELOPE_OFFSETS[i] + ENVELOPE_SIZES[i]])
  {
    hide DecodeValues, FromBigEndian, Pow256, Offset;
    EnvelopeReads(b);
    EnvelopeOffset(i);
    DecodedAt(ENVELOPE_KINDS, b, i);
  }

  // Exactly the bytes "FEC2" are read as the magic.
  lemma MagicRead(b: seq<byte>)
    requires |b| >= 17
    ensures ReadEnvelope(b).magic == MAGIC <==> b[..4] == [0x46, 0x45, 0x43, 0x32]
  {
    hide ReadEnvelope, FromBigEndian, BigEndian, Pow256;
    ReadLayout(b);
    ToFromBigEndian(b[..4]);
    MagicBytes();
    FourBytes(MAGIC);
    FromToBigEndian(MAGIC, 4);
  }

  lemma FourBytes(v: nat)
    ensures v < 0x1_0000_0000 <==> v < Pow256(4)
  {}

  // A shard begins with "FEC2".
  lemma ShardMagic(e: Envelope)
    requires EnvelopeFits(e) && e.magic == MAGIC
    ensures WriteEnvelope(e)[..4] == [0x46, 0x45, 0x43, 0x32]
  {
    hide WriteEnvelope, FromBigEndian, BigEndian;
    EnvelopeBytes(e, 0);
    ToFromBigEndian(WriteEnvelope(e)[0..4]);
    MagicBytes();
  }

  lemma MagicBytes()
    ensures BigEndian(MAGIC, 4) == [0x46, 0x45, 0x43, 0x32]
  {
    assert BigEndian(0x464543, 3) == [0x46, 0x45, 0x43];
  }

  lemma EnvelopeBytes(e: Envelope, i: nat)
    requires EnvelopeFits(e) && i < 7
    ensures var b, o := WriteEnvelope(e), ENVELOPE_OFFSETS[i];
            o + ENVELOPE_SIZES[i] <= |b| && FromBigEndian(b[o..o + ENVELOPE_SIZES[i]]) == EnvelopeValues(e)[i]
  {
    hide EncodeValues, FromBigEndian, Pow256;
    EnvelopeConforms(e);
    EnvelopeOffset(i);
    UnsignedAt(ENVELOPE_KINDS, EnvelopeValues(e), i);
  }

  // ---- protected blocks ----

  function PutU16(v: nat): (b: seq<byte>)
    requires v < 0x1_0000
    ensures |b| == 2
  {
    [v % 256, v / 256]
  }

  function GetU16(b: seq<byte>): (v: nat)
    requires |b| >= 2
  {
    (b[0] as int) + 256 * (b[1] as int)
  }

  // Length, frame, zero padding.
  function ProtectedFrame(frame: Frame, padded: nat): (b: Vector)
    requires |frame| <= padded && |frame| <= MAX_FRAME
    ensures |b| == padded + 2
  {
    PutU16(|frame|) + frame + Zeros(padded - |frame|)
  }

  lemma ProtectedFrameReads(frame: Frame, padded: nat)
    requires |frame| <= padded && |frame| <= MAX_FRAME
    ensures var b := ProtectedFrame(frame, padded);
            GetU16(b) == |frame| && b[2..2 + |frame|] == frame
  {}

  // ---- parity shards ----

  ghost predicate Frames(frames: seq<Frame>) {
    && 1 <= |frames| <= MAX_GENERATION
    && forall i | 0 <= i < |frames| :: 1 <= |frames[i]| <= MAX_FRAME
  }

  function MaxLength(frames: seq<Frame>): (m: nat)
    ensures forall i | 0 <= i < |frames| :: |frames[i]| <= m
    ensures (forall i | 0 <= i < |frames| :: |frames[i]| <= MAX_FRAME) ==> m <= MAX_FRAME
    ensures (exists i :: 0 <= i < |frames| && 1 <= |frames[i]|) ==> m >= 1
  {
    if |frames| == 0 then 0 else
      var m := MaxLength(frames[..|frames| - 1]);
      var last := |frames[|frames| - 1]|;
      if last > m then last else m
  }

  // The longest length is attained.
  lemma {:induction false} LongestFrame(frames: seq<Frame>)
    requires |frames| > 0
    ensures exists i :: 0 <= i < |frames| && |frames[i]| == MaxLength(frames)
  {
    var n := |frames| - 1;
    if MaxLength(frames) == |frames[n]| {
      assert |frames[n]| == MaxLength(frames);
    } else if n > 0 {
      LongestFrame(frames[..n]);
      var i :| 0 <= i < n && |frames[..n][i]| == MaxLength(frames[..n]);
      assert |frames[i]| == MaxLength(frames);
    }
  }

  // A protected block: the frame's length, low byte first, the frame, then zeros.
  lemma ProtectedLayout(frame: Frame, padded: nat)
    requires |frame| <= padded && |frame| <= MAX_FRAME
    ensures var b := ProtectedFrame(frame, padded);
            && b[0] == |frame| % 256 && b[1] == |frame| / 256 && b[2..2 + |frame|] == frame
            && forall i | 2 + |frame| <= i < |b| :: b[i] == 0
  {}

  // The protected blocks of a generation, all padded to the longest frame.
  function Blocks(frames: seq<Frame>): (blocks: Matrix)
    requires Frames(frames)
    ensures |blocks| == |frames| && forall i | 0 <= i < |blocks| :: |blocks[i]| == MaxLength(frames) + 2
  {
    seq(|frames|, i requires 0 <= i < |frames| => ProtectedFrame(frames[i], MaxLength(frames)))
  }

  // The combination of the first `n` blocks with the coefficients of `row`.
  function ParitySum(row: nat, blocks: Matrix, n: nat, width: nat): (v: Vector)
    requires row < MAX_PARITY && n <= |blocks| && n <= MAX_GENERATION
    requires forall i | 0 <= i < |blocks| :: |blocks[i]| == width
    ensures |v| == width
  {
    if n == 0 then Zeros(width)
    else AddRow(ParitySum(row, blocks, n - 1, width), Coefficient(row, n - 1), blocks[n - 1])
  }

  function Shard(row: nat, frames: seq<Frame>): (v: Vector)
    requires Frames(frames) && row < MAX_PARITY
    ensures |v| == MaxLength(frames) + 2
  {
    ParitySum(row, Blocks(frames), |frames|, MaxLength(frames) + 2)
  }

  // Row zero has all coefficients one: its shard is the plain exclusive or.
  lemma FirstRowIsXor(col: nat)
    requires col < MAX_GENERATION
    ensures Coefficient(0, col) == 1
  {
    hide Mul, Inv, Xor;
    XorCancel(col, 128);
    InverseLaw(Xor(col, 128));
  }

  // ---- datagrams ----

  ghost predicate GenerationOk(genId: nat, reason: nat, frames: seq<Frame>, k: nat, parity: nat) {
    && genId < 0x1_0000_0000 && reason < 256 && Frames(frames)
    && |frames| <= k <= MAX_GENERATION && 1 <= parity <= MAX_PARITY
  }

  function DataDatagram(genId: nat, index: nat, k: nat, frame: Frame): (b: seq<byte>)
    requires genId < 0x1_0000_0000 && index < 0x1_0000 && k < 0x1_0000 && |frame| <= MAX_FRAME
    ensures |b| == ENVELOPE_SIZE + |frame|
  {
    WriteEnvelope(Envelope(MAGIC, genId, index, k, 0, |frame|, 0)) + frame
  }

  function ParityDatagram(genId: nat, reason: nat, frames: seq<Frame>, parity: nat, row: nat): (b: seq<byte>)
    requires genId < 0x1_0000_0000 && reason < 256 && Frames(frames) && 1 <= parity <= MAX_PARITY && row < parity
    ensures |b| == ENVELOPE_SIZE + MaxLength(frames) + 2
  {
    WriteEnvelope(Envelope(MAGIC, genId, |frames| + row, |frames|, parity, MaxLength(frames) + 2, reason)) + Shard(row, frames)
  }

  datatype BuiltGeneration = BuiltGeneration(data: seq<seq<byte>>, parity: seq<byte>, extraParity: seq<seq<byte>>)

  function Built(genId: nat, reason: nat, frames: seq<Frame>, k: nat, parity: nat): (g: BuiltGeneration)
    requires GenerationOk(genId, reason, frames, k, parity)
  {
    BuiltGeneration(
      seq(|frames|, i requires 0 <= i < |frames| => DataDatagram(genId, i, k, frames[i])),
      ParityDatagram(genId, reason, frames, parity, 0),
      seq(parity - 1, i requires 0 <= i < parity - 1 => ParityDatagram(genId, reason, frames, parity, i + 1)))
  }

  // ---- the encoder ----

  method XorLoop(row: Vector, other: Vector) returns (v: Vector)
    requires |row| == |other|
    ensures v == AddRow(row, 1, other)
  {
    hide Mul, Xor;
    v := row;
    for i := 0 to |row|
      invariant |v| == |row|
      invariant forall j | 0 <= j < |row| :: v[j] == if j < i then Xor(row[j], Mul(1, other[j])) else row[j]
    {
      MulOne(other[i]);
      v := v[i := Xor(v[i], other[i])];
    }
  }

  class Encoder {
    const k: nat
    const parityCount: nat
    var frames: seq<Frame>
    var maxLen: nat

    ghost predicate Valid()
      reads this
    {
      && 1 <= k <= MAX_GENERATION && 1 <= parityCount <= MAX_PARITY
      && |frames| <= k && (forall i | 0 <= i < |frames| :: 1 <= |frames[i]| <= MAX_FRAME)
      && maxLen == MaxLength(frames)
    }

    constructor (k: nat, parityCount: nat)
      requires 1 <= k <= MAX_GENERATION && 1 <= parityCount <= MAX_PARITY
      ensures Valid() && frames == [] && this.k == k && this.parityCount == parityCount
    {
      this.k, this.parityCount := k, parityCount;
      frames, maxLen := [], 0;
    }

    method Add(frame: Frame) returns (ok: bool)
      requires Valid()
      modifies this
      ensures Valid()
      ensures ok <==> 1 <= |frame| <= MAX_FRAME && |old(frames)| < k
      ensures frames == if ok then old(frames) + [frame] else old(frames)
    {
      if |frame| == 0 || |frame| > MAX_FRAME || |frames| == k {
        return false;
      }
      frames := frames + [frame];
      assert frames[..|frames| - 1] == old(frames);
      if |frame| > maxLen {
        maxLen := |frame|;
      }
      return true;
    }

    method Close(genId: nat, reason: nat) returns (r: Option<BuiltGeneration>)
      requires Valid() && genId < 0x1_0000_0000 && reason < 256
      modifies this
      ensures Valid() && frames == []
      ensures r.None? <==> old(frames) == []
      ensures r.Some? ==> r.value == Built(genId, reason, old(frames), k, parityCount)
    {
      hide DataDatagram, ParityDatagram;
      if |frames| == 0 {
        return None;
      }
      var data, first := DataLoop(genId, reason, frames, maxLen, k, parityCount);
      var extra := ExtraLoop(genId, reason, frames, maxLen, parityCount);
      r := Some(BuiltGeneration(data, first, extra));
      ghost var g := Built(genId, reason, frames, k, parityCount);
      assert data == g.data && extra == g.extraParity;
      frames, maxLen := [], 0;
    }
  }

  lemma NoSum(row: nat, blocks: Matrix, width: nat)
    requires row < MAX_PARITY && forall i | 0 <= i < |blocks| :: |blocks[i]| == width
    ensures ParitySum(row, blocks, 0, width) == Zeros(width)
  {}

  lemma SumStep(fs: seq<Frame>, maxLen: nat, i: nat)
    requires Frames(fs) && maxLen == MaxLength(fs) && i < |fs| && |fs| <= MAX_GENERATION
    ensures Blocks(fs)[i] == ProtectedFrame(fs[i], maxLen)
    ensures ParitySum(0, Blocks(fs), i + 1, maxLen + 2) ==
            AddRow(ParitySum(0, Blocks(fs), i, maxLen + 2), Coefficient(0, i), Blocks(fs)[i])
  {
    hide AddRow, ProtectedFrame, Coefficient;
  }

  // The data datagrams, and the first parity row as a running exclusive or.
  method DataLoop(genId: nat, reason: nat, fs: seq<Frame>, maxLen: nat, k: nat, parityCount: nat)
    returns (data: seq<seq<byte>>, first: seq<byte>)
    requires GenerationOk(genId, reason, fs, k, parityCount) && maxLen == MaxLength(fs)
    ensures |data| == |fs| && forall j | 0 <= j < |fs| :: data[j] == DataDatagram(genId, j, k, fs[j])
    ensures first == ParityDatagram(genId, reason, fs, parityCount, 0)
  {
    hide AddRow, ProtectedFrame, WriteEnvelope, Coefficient, Mul, DataDatagram, Blocks, ParitySum;
    NoSum(0, Blocks(fs), maxLen + 2);
    var width := maxLen + 2;
    var parity := Zeros(width);
    data := [];
    for i := 0 to |fs|
      invariant |data| == i && forall j | 0 <= j < i :: data[j] == DataDatagram(genId, j, k, fs[j])
      invariant |parity| == width && parity == ParitySum(0, Blocks(fs), i, width)
    {
      data := data + [DataDatagram(genId, i, k, fs[i])];
      FirstRowIsXor(i);
      SumStep(fs, maxLen, i);
      parity := XorLoop(parity, ProtectedFrame(fs[i], maxLen));
    }
    first := WriteEnvelope(Envelope(MAGIC, genId, |fs|, |fs|, parityCount, width, reason)) + parity;
  }

  method ExtraLoop(genId: nat, reason: nat, fs: seq<Frame>, maxLen: nat, parityCount: nat) returns (extra: seq<seq<byte>>)
    requires genId < 0x1_0000_0000 && reason < 256 && Frames(fs) && 1 <= parityCount <= MAX_PARITY && maxLen == MaxLength(fs)
    ensures |extra| == parityCount - 1
    ensures forall j | 0 <= j < parityCount - 1 :: extra[j] == ParityDatagram(genId, reason, fs, parityCount, j + 1)
  {
    hide Shard, WriteEnvelope;
    extra := [];
    for row := 1 to parityCount
      invariant |extra| == row - 1
      invariant forall j | 0 <= j < row - 1 :: extra[j] == ParityDatagram(genId, reason, fs, parityCount, j + 1)
    {
      var shard := ShardLoop(row, fs, maxLen);
      extra := extra + [WriteEnvelope(Envelope(MAGIC, genId, |fs| + row, |fs|, parityCount, maxLen + 2, reason)) + shard];
    }
  }

  method ShardLoop(row: nat, fs: seq<Frame>, maxLen: nat) returns (shard: Vector)
    requires Frames(fs) && row < MAX_PARITY && maxLen == MaxLength(fs)
    ensures shard == Shard(row, fs)
  {
    hide AddRow, ProtectedFrame, Coefficient;
    shard := Zeros(maxLen + 2);
    for col := 0 to |fs|
      invariant |shard| == maxLen + 2 && shard == ParitySum(row, Blocks(fs), col, maxLen + 2)
    {
      var c := CoefficientOf(row, col);
      shard := AddLoop(shard, c, ProtectedFrame(fs[col], maxLen));
    }
  }
}
