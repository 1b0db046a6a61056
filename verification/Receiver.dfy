/** Stream identities, and the receiver that composes decoder, duplicate suppression and output ring. */
module Receiver {
  import opened Bytes
  import opened Options
  import opened Wire
  import opened Fec
  import opened Generations
  import FecDecoder
  import Message
  import Dedupe

  // ---- the outer envelope ----

  const MUX_MAGIC: nat := 0x50465333
  const MUX_SIZE: nat := 20
  const MUX_KINDS: seq<Kind> := [Unsigned(4), Unsigned(8), Unsigned(8)]

  datatype Key = Key(stream: nat, epoch: nat)

  predicate KeyFits(key: Key) {
    key.stream < 0x1_0000_0000_0000_0000 && key.epoch < 0x1_0000_0000_0000_0000
  }

  lemma MuxFits(key: Key)
    requires KeyFits(key)
    ensures Conforms(MUX_KINDS, [MUX_MAGIC, key.stream, key.epoch])
  {
    assert Pow256(4) == 0x1_0000_0000;
    assert Pow256(8) == 0x1_0000_0000_0000_0000;
  }

  lemma MuxWidth()
    ensures Sized(MUX_KINDS) && Width(MUX_KINDS) == MUX_SIZE
  {
    var ks := MUX_KINDS;
    assert ks[1..][1..] == ks[2..] && ks[2..][1..] == [];
    assert Width(ks[2..]) == 8;
  }

  function Wrap(key: Key, data: seq<byte>): (b: seq<byte>)
    requires KeyFits(key)
  {
    MuxFits(key);
    EncodeValues(MUX_KINDS, [MUX_MAGIC, key.stream, key.epoch]) + data
  }

  function Unwrap(b: seq<byte>): (r: Option<(Key, seq<byte>)>) {
    if |b| < MUX_SIZE then None
    else
      MuxReads(b);
      var vs := DecodeValues(MUX_KINDS, b).value;
      if vs[0] != MUX_MAGIC || vs[1] == 0 || vs[2] == 0 then None
      else Some((Key(vs[1], vs[2]), b[MUX_SIZE..]))
  }

  lemma MuxReads(b: seq<byte>)
    requires |b| >= MUX_SIZE
    ensures Sized(MUX_KINDS) && DecodeValues(MUX_KINDS, b).Some?
    ensures var vs := DecodeValues(MUX_KINDS, b).value; |vs| == 3 && forall i | 0 <= i < 3 :: vs[i] >= 0
  {
    hide DecodeValues, Width, Pow256;
    MuxWidth();
    DecodeSucceeds(MUX_KINDS, b);
    var vs := DecodeValues(MUX_KINDS, b).value;
    forall i | 0 <= i < 3 ensures vs[i] >= 0 {
      assert MUX_KINDS[i].Unsigned? && Fits(MUX_KINDS[i], vs[i]);
    }
  }

  // The outer envelope is removed exactly; a zero identity is refused.
  lemma UnwrapWrap(key: Key, data: seq<byte>)
    requires KeyFits(key)
    ensures Unwrap(Wrap(key, data)) == if key.stream == 0 || key.epoch == 0 then None else Some((key, data))
  {
    hide DecodeValues, EncodeValues;
    MuxFits(key);
    MuxWidth();
    DecodeEncodeValues(MUX_KINDS, [MUX_MAGIC, key.stream, key.epoch], data);
    assert Wrap(key, data)[MUX_SIZE..] == data;
  }

  const MUX_OFFSETS: seq<nat> := [0, 4, 12]

  lemma MuxOffset(i: nat)
    requires i < 3
    ensures Offset(MUX_KINDS, i) == MUX_OFFSETS[i]
  {
    var ks := MUX_KINDS;
    assert ks[..1][1..] == [] && ks[..2][1..] == [ks[1]];
    OneKind(ks[0]);
    OneKind(ks[1]);
  }

  lemma MuxAt(b: seq<byte>, i: nat)
    requires |b| >= MUX_SIZE && i < 3
    ensures Sized(MUX_KINDS) && DecodeValues(MUX_KINDS, b).Some? && |DecodeValues(MUX_KINDS, b).value| == 3
    ensures DecodeValues(MUX_KINDS, b).value[i] == FromBigEndian(b[MUX_OFFSETS[i]..MUX_OFFSETS[i] + MUX_KINDS[i].size])
  {
    hide DecodeValues, FromBigEndian, Pow256, Offset;
    MuxReads(b);
    MuxOffset(i);
    DecodedAt(MUX_KINDS, b, i);
  }

  // An identity is found exactly behind the bytes "PFS3": eight bytes of stream, eight of epoch, neither
  // zero, most significant byte first, and then the body.
  lemma UnwrapLayout(b: seq<byte>)
    ensures Unwrap(b).Some? <==>
      |b| >= 20 && b[..4] == [0x50, 0x46, 0x53, 0x33] && FromBigEndian(b[4..12]) != 0 && FromBigEndian(b[12..20]) != 0
    ensures Unwrap(b).Some? ==>
      Unwrap(b).value == (Key(FromBigEndian(b[4..12]), FromBigEndian(b[12..20])), b[20..])
  {
    hide DecodeValues, FromBigEndian, Pow256, BigEndian;
    if |b| >= 20 {
      MuxAt(b, 0); MuxAt(b, 1); MuxAt(b, 2);
      assert b[0..4] == b[..4];
      ToFromBigEndian(b[..4]);
      MuxMagic();
    }
  }

  lemma MuxMagic()
    ensures BigEndian(MUX_MAGIC, 4) == [0x50, 0x46, 0x53, 0x33] && FromBigEndian([0x50, 0x46, 0x53, 0x33]) == MUX_MAGIC
  {
    assert BigEndian(0x504653, 3) == [0x50, 0x46, 0x53];
    FourBytes(MUX_MAGIC);
    FromToBigEndian(MUX_MAGIC, 4);
  }

  // ---- one stream ----

  datatype Stream = Stream(slots: seq<Generation>, memory: Dedupe.Memory, lastSeq: nat)

  datatype Config = Config(limit: nat, generations: nat, window: nat, dedupe: bool)

  ghost predicate ConfigOk(c: Config) { c.window >= 64 }

  // A decoder asked for no slots gets one.
  function NewStream(c: Config): Stream {
    Stream(seq(if c.generations == 0 then 1 else c.generations, _ => EMPTY), Dedupe.START, 0)
  }

  // The publish callback refuses frames that do not decode or belong to another identity.
  predicate Admits(key: Key, f: Frame) {
    var m := Message.Decode(f);
    m.Some? && m.value.header.streamId == key.stream && m.value.header.streamEpoch == key.epoch
  }

  function Admission(key: Key): Frame -> bool { f => Admits(key, f) }

  // The messages written to the output ring, and those offered to duplicate suppression.
  datatype Log = Log(ring: seq<Message.Native>, offered: seq<Message.Native>)

  // An admitted message goes to the ring unless it is a repeat.
  function PublishFrame(c: Config, s: Stream, log: Log, m: Message.Native): (r: (Stream, Log))
    requires c.window > 0
  {
    var x := m.header.seqId;
    var offered := log.(offered := log.offered + [m]);
    var published := offered.(ring := log.ring + [m]);
    if !c.dedupe then
      if x > s.lastSeq then (s.(lastSeq := x), published) else (s, offered)
    else
      var (memory, v) := Dedupe.Observe(s.memory, c.window, x);
      (s.(memory := memory), if Dedupe.Accepts(v) then published else offered)
  }

  ghost function PublishFrames(c: Config, s: Stream, log: Log, ms: seq<Message.Native>): (r: (Stream, Log))
    requires c.window > 0
  {
    if |ms| == 0 then (s, log) else
      var n := |ms| - 1;
      var (s', log') := PublishFrames(c, s, log, ms[..n]);
      PublishFrame(c, s', log', ms[n])
  }

  ghost function Messages(ps: seq<Publication>): (ms: seq<Message.Native>)
    requires forall i | 0 <= i < |ps| :: Message.Decode(ps[i].frame).Some?
    ensures |ms| == |ps| && forall i | 0 <= i < |ps| :: ms[i] == Message.Decode(ps[i].frame).value
  {
    seq(|ps|, i requires 0 <= i < |ps| => Message.Decode(ps[i].frame).value)
  }

  // ---- the receiver ----

  datatype State = State(streams: map<Key, Stream>, log: Log)

  const FRESH: State := State(map[], Log([], []))

  datatype Event = Datagram(bytes: seq<byte>, truncated: bool, now: nat) | Expire(now: nat)

  ghost predicate StateOk(st: State) {
    forall key | key in st.streams :: SlotsValid(st.streams[key].slots)
  }

  ghost function React(c: Config, st: State, e: Event): (r: State)
    requires ConfigOk(c) && StateOk(st)
  {
    match e
    case Expire(now) =>
      st.(streams := map key | key in st.streams :: st.streams[key].(slots := Expired(st.streams[key].slots, now)))
    case Datagram(bytes, truncated, now) =>
      if truncated then st
      else match Unwrap(bytes)
      case None => st
      case Some((key, body)) =>
        if key !in st.streams && |st.streams| >= c.limit then st
        else Deliver(c, st, key, body, now)
  }

  ghost function StreamOf(c: Config, st: State, key: Key): Stream
    requires ConfigOk(c)
  {
    if key in st.streams then st.streams[key] else NewStream(c)
  }

  // One datagram body through the decoder, the identity check and duplicate suppression.
  ghost function Delivered(c: Config, s: Stream, log: Log, key: Key, body: seq<byte>, now: nat): (r: (Stream, Log))
    requires ConfigOk(c) && SlotsValid(s.slots)
  {
    var accepts := Admission(key);
    var d := Generations.Receive(s.slots, body, now, accepts);
    PublishedAdmitted(s.slots, body, now, accepts);
    AllDecode(key, d.published);
    PublishFrames(c, s.(slots := d.slots), log, Messages(d.published))
  }

  ghost function Deliver(c: Config, st: State, key: Key, body: seq<byte>, now: nat): (r: State)
    requires ConfigOk(c) && StateOk(st)
  {
    var (s, log) := Delivered(c, StreamOf(c, st, key), st.log, key, body, now);
    State(st.streams[key := s], log)
  }

  lemma AllDecode(key: Key, ps: seq<Publication>)
    requires AllAccepted(ps, Admission(key))
    ensures forall i | 0 <= i < |ps| :: Message.Decode(ps[i].frame).Some? && KeyOf(Message.Decode(ps[i].frame).value) == key
  {
    hide Message.Decode;
  }

  function KeyOf(m: Message.Native): Key { Key(m.header.streamId, m.header.streamEpoch) }

  // ---- the decoder publishes only what the callback accepted ----

  lemma PublishedAdmitted(slots: seq<Generation>, d: seq<byte>, now: nat, accepts: Frame -> bool)
    requires SlotsValid(slots)
    ensures AllAccepted(Generations.Receive(slots, d, now, accepts).published, accepts)
  {
    hide ReadEnvelope, ReceiveData, ReceiveParity, Valid;
    if IsShard(d) {
      var e, payload := ReadEnvelope(d), d[ENVELOPE_SIZE..];
      if HeaderOk(e) && (DataOk(e, payload) || ParityOk(e, payload)) {
        SlotUsable(slots, e.genId, e.k, now);
        var g := SlotFor(slots, e.genId, e.k, now);
        if e.parityCount == 0 {
          DataAdmitted(g, e, payload, now, accepts);
        } else {
          ParityAdmitted(g, e, payload, now, accepts);
        }
      }
    }
  }

  lemma DataAdmitted(g: Generation, e: Envelope, payload: Frame, now: nat, accepts: Frame -> bool)
    requires Usable(g) && DataOk(e, payload)
    ensures AllAccepted(ReceiveData(g, e, payload, now, accepts).published, accepts)
  {
    hide TryRecover, Ensure, ProtectedFrame;
    if !(e.k < g.k || (!g.parityReceived && e.k != g.k)) {
      EnsureValid(g, e.k);
      var g1 := Ensure(g, e.k);
      if e.index < g1.k && accepts(payload) {
        RecoverDataAdmitted(g1, e.index, payload, now, accepts);
      }
    }
  }

  lemma RecoverDataAdmitted(g: Generation, index: nat, payload: Frame, now: nat, accepts: Frame -> bool)
    requires Valid(g) && index < g.k && 1 <= |payload| <= MAX_FRAME
    ensures AllAccepted(TryRecover(WithData(Touched(g, now), index, ProtectedFrame(payload, |payload|)), accepts).published, accepts)
  {
    hide TryRecover, ProtectedFrame;
    RecoverAdmitted(WithData(Touched(g, now), index, ProtectedFrame(payload, |payload|)), accepts);
  }

  lemma ParityAdmitted(g: Generation, e: Envelope, payload: Frame, now: nat, accepts: Frame -> bool)
    requires Usable(g) && ParityOk(e, payload)
    ensures AllAccepted(ReceiveParity(g, e, payload, now, accepts).published, accepts)
  {
    hide TryRecover, Conflicting, OtherWidth, Ensure;
    if !Conflicting(g, e) {
      var g2 := Closed(g, e, now);
      ClosedValid(g, e, now);
      if !OtherWidth(g2, |payload|) {
        WithParityValid(g2, e.index - e.k, payload);
        RecoverAdmitted(WithParity(g2, e.index - e.k, payload), accepts);
      }
    }
  }

  ghost predicate AllAccepted(ps: seq<Publication>, accepts: Frame -> bool) {
    forall i | 0 <= i < |ps| :: accepts(ps[i].frame)
  }

  lemma RecoverAdmitted(g: Generation, accepts: Frame -> bool)
    requires Valid(g)
    ensures AllAccepted(TryRecover(g, accepts).published, accepts)
  {
    hide PublishFrom, MissingBlocks, ShardWidth, LengthOkAny, Absent;
    if Solvable(g) && DataFits(g, ShardWidth(g)) {
      var blocks := MissingBlocks(g);
      if forall r | 0 <= r < |blocks| :: LengthOkAny(blocks[r]) {
        PublishAdmitted(g, Absent(g.received, g.k), blocks, 0, accepts);
      }
    }
  }

  lemma {:induction false} PublishAdmitted(g: Generation, absent: seq<nat>, blocks: seq<seq<byte>>, r: nat, accepts: Frame -> bool)
    requires r <= |absent| == |blocks| && |g.received| == |g.data|
    requires forall i | 0 <= i < |absent| :: absent[i] < |g.data|
    requires forall i | 0 <= i < |blocks| :: LengthOkAny(blocks[i])
    ensures AllAccepted(PublishFrom(g, absent, blocks, r, accepts).published, accepts)
    decreases |absent| - r
  {
    hide LengthOkAny, FrameOf;
    if r < |absent| && accepts(FrameOf(blocks[r])) {
      PublishAdmitted(g.(received := g.received[absent[r] := true], data := g.data[absent[r] := blocks[r]]), absent, blocks, r + 1, accepts);
    }
  }

  // ---- what every run keeps ----

  // The sequence numbers a log holds for one identity, in order.
  ghost function Numbers(ms: seq<Message.Native>, key: Key): (xs: seq<nat>) {
    if |ms| == 0 then [] else
      var n := |ms| - 1;
      Numbers(ms[..n], key) + (if KeyOf(ms[n]) == key then [ms[n].header.seqId] else [])
  }

  lemma NumbersSnoc(ms: seq<Message.Native>, m: Message.Native, key: Key)
    ensures Numbers(ms + [m], key) == Numbers(ms, key) + (if KeyOf(m) == key then [m.header.seqId] else [])
  {
    assert (ms + [m])[..|ms|] == ms;
  }

  lemma {:induction false} NumbersAt(ms: seq<Message.Native>, i: nat)
    requires i < |ms|
    ensures ms[i].header.seqId in Numbers(ms, KeyOf(ms[i]))
  {
    var n := |ms| - 1;
    if i < n {
      NumbersAt(ms[..n], i);
    }
  }

  lemma {:induction false} NumbersFind(ms: seq<Message.Native>, key: Key, x: nat)
    requires x in Numbers(ms, key)
    ensures exists m :: m in ms && KeyOf(m) == key && m.header.seqId == x
  {
    var n := |ms| - 1;
    if x in Numbers(ms[..n], key) {
      NumbersFind(ms[..n], key, x);
      var m :| m in ms[..n] && KeyOf(m) == key && m.header.seqId == x;
      assert m in ms;
    } else {
      assert ms[n] in ms;
    }
  }

  // The messages of one identity, in order.
  ghost function Of(ms: seq<Message.Native>, key: Key): (r: seq<Message.Native>) {
    if |ms| == 0 then [] else
      var n := |ms| - 1;
      Of(ms[..n], key) + (if KeyOf(ms[n]) == key then [ms[n]] else [])
  }

  lemma OfSnoc(ms: seq<Message.Native>, m: Message.Native, key: Key)
    ensures Of(ms + [m], key) == Of(ms, key) + (if KeyOf(m) == key then [m] else [])
  {
    assert (ms + [m])[..|ms|] == ms;
  }

  // Whether a number is let through after the earlier ones of its identity: with suppression once and in
  // time, without it when it exceeds them all. The number zero never does.
  ghost predicate Passes(c: Config, xs: seq<nat>, x: nat) {
    if c.dedupe then x !in Dedupe.Kept(c.window, xs) && !Dedupe.Late(xs, x, c.window)
    else x > 0 && forall i | 0 <= i < |xs| :: xs[i] < x
  }

  // The messages let through, whole and in order.
  ghost function Passed(c: Config, ms: seq<Message.Native>): (r: seq<Message.Native>) {
    if |ms| == 0 then [] else
      var n := |ms| - 1;
      Passed(c, ms[..n]) + (if Passes(c, Numbers(ms[..n], KeyOf(ms[n])), ms[n].header.seqId) then [ms[n]] else [])
  }

  lemma PassedSnoc(c: Config, ms: seq<Message.Native>, m: Message.Native)
    ensures Passed(c, ms + [m]) == Passed(c, ms) + (if Passes(c, Numbers(ms, KeyOf(m)), m.header.seqId) then [m] else [])
  {
    hide Numbers, Passes;
    assert (ms + [m])[..|ms|] == ms;
  }

  // No two published messages carry the same stream, epoch and sequence number.
  ghost predicate Distinct(ms: seq<Message.Native>) {
    forall i, j | 0 <= i < j < |ms| :: !(KeyOf(ms[i]) == KeyOf(ms[j]) && ms[i].header.seqId == ms[j].header.seqId)
  }

  // A stream's window is what duplicate suppression makes of the numbers offered to it, and the ring
  // holds exactly the numbers it accepted; without suppression the last number is the largest offered.
  ghost predicate StreamInv(c: Config, s: Stream, log: Log, key: Key)
    requires c.window > 0
  {
    var seen := Numbers(log.ring, key);
    if c.dedupe then
      && s.memory == Dedupe.Run(c.window, Numbers(log.offered, key)).0
      && forall x :: x in seen <==> x in s.memory.accepted
    else
      && (forall x | x in seen :: x <= s.lastSeq)
      && (forall x | x in Numbers(log.offered, key) :: x <= s.lastSeq)
      && (s.lastSeq == 0 || s.lastSeq in Numbers(log.offered, key))
  }

  ghost predicate Inv(c: Config, st: State) {
    && ConfigOk(c) && StateOk(st) && Distinct(st.log.ring) && st.log.ring == Passed(c, st.log.offered)
    && forall key :: StreamInv(c, StreamOf(c, st, key), st.log, key)
  }

  lemma DistinctSnoc(ms: seq<Message.Native>, m: Message.Native)
    requires Distinct(ms) && m.header.seqId !in Numbers(ms, KeyOf(m))
    ensures Distinct(ms + [m])
  {
    hide Numbers;
    var ns := ms + [m];
    forall i, j | 0 <= i < j < |ns| ensures !(KeyOf(ns[i]) == KeyOf(ns[j]) && ns[i].header.seqId == ns[j].header.seqId) {
      if j == |ms| {
        NumbersAt(ms, i);
      }
    }
  }

  lemma RunSnoc(size: nat, xs: seq<nat>, x: nat)
    requires size > 0
    ensures Dedupe.Run(size, xs + [x]).0 == Dedupe.Observe(Dedupe.Run(size, xs).0, size, x).0
  {
    hide Dedupe.Observe;
    assert (xs + [x])[..|xs|] == xs;
  }

  // A message is written exactly when its number passes.
  lemma WrittenExactly(c: Config, s: Stream, log: Log, m: Message.Native)
    requires c.window > 0 && StreamInv(c, s, log, KeyOf(m))
    ensures var log' := PublishFrame(c, s, log, m).1;
            && log'.offered == log.offered + [m]
            && log'.ring == log.ring + (if Passes(c, Numbers(log.offered, KeyOf(m)), m.header.seqId) then [m] else [])
  {
    hide Numbers, Dedupe.Observe, Dedupe.Run, Dedupe.Kept, Dedupe.Late;
    var xs, x := Numbers(log.offered, KeyOf(m)), m.header.seqId;
    if c.dedupe {
      Dedupe.KeptExactly(c.window, xs);
      Dedupe.VerdictExactly(c.window, xs, x);
    } else {
      AboveAll(xs, s.lastSeq, x);
    }
  }

  lemma AboveAll(xs: seq<nat>, last: nat, x: nat)
    requires (forall y | y in xs :: y <= last) && (last == 0 || last in xs)
    ensures x > last <==> x > 0 && forall i | 0 <= i < |xs| :: xs[i] < x
  {
    assert forall i | 0 <= i < |xs| :: xs[i] in xs;
    if last in xs {
      var i :| 0 <= i < |xs| && xs[i] == last;
    }
  }

  lemma PublishFramePasses(c: Config, s: Stream, log: Log, m: Message.Native)
    requires c.window > 0 && StreamInv(c, s, log, KeyOf(m)) && log.ring == Passed(c, log.offered)
    ensures var log' := PublishFrame(c, s, log, m).1; log'.ring == Passed(c, log'.offered)
  {
    hide StreamInv, PublishFrame, Passes, Passed, Numbers;
    WrittenExactly(c, s, log, m);
    PassedSnoc(c, log.offered, m);
  }

  lemma PublishFrameKeeps(c: Config, s: Stream, log: Log, m: Message.Native)
    requires c.window > 0 && StreamInv(c, s, log, KeyOf(m)) && Distinct(log.ring)
    ensures var (s', log') := PublishFrame(c, s, log, m);
            StreamInv(c, s', log', KeyOf(m)) && Distinct(log'.ring) && s'.slots == s.slots
  {
    hide Numbers, Distinct, Dedupe.Observe, Dedupe.Run;
    var key, x := KeyOf(m), m.header.seqId;
    NumbersSnoc(log.ring, m, key);
    NumbersSnoc(log.offered, m, key);
    RunSnoc(c.window, Numbers(log.offered, key), x);
    Dedupe.ObserveAccepted(s.memory, c.window, x);
    if x !in Numbers(log.ring, key) {
      DistinctSnoc(log.ring, m);
    }
  }

  lemma PublishFrameOther(c: Config, s: Stream, log: Log, m: Message.Native, key: Key)
    requires c.window > 0 && key != KeyOf(m)
    ensures var log' := PublishFrame(c, s, log, m).1;
            Numbers(log'.ring, key) == Numbers(log.ring, key) && Numbers(log'.offered, key) == Numbers(log.offered, key)
  {
    hide Numbers, Dedupe.Observe;
    NumbersSnoc(log.ring, m, key);
    NumbersSnoc(log.offered, m, key);
  }

  lemma {:induction false} PublishFramesKeep(c: Config, s: Stream, log: Log, ms: seq<Message.Native>, key: Key)
    requires c.window > 0 && StreamInv(c, s, log, key) && Distinct(log.ring) && log.ring == Passed(c, log.offered)
    requires forall i | 0 <= i < |ms| :: KeyOf(ms[i]) == key
    ensures var (s', log') := PublishFrames(c, s, log, ms);
            && StreamInv(c, s', log', key) && Distinct(log'.ring) && s'.slots == s.slots && log'.ring == Passed(c, log'.offered)
            && forall k | k != key :: Numbers(log'.ring, k) == Numbers(log.ring, k) && Numbers(log'.offered, k) == Numbers(log.offered, k)
  {
    hide StreamInv, Distinct, Numbers, PublishFrame, Passed;
    if |ms| > 0 {
      var n := |ms| - 1;
      PublishFramesKeep(c, s, log, ms[..n], key);
      var (s', log') := PublishFrames(c, s, log, ms[..n]);
      PublishFramePasses(c, s', log', ms[n]);
      PublishFrameKeeps(c, s', log', ms[n]);
      forall k | k != key
        ensures var log'' := PublishFrame(c, s', log', ms[n]).1;
                Numbers(log''.ring, k) == Numbers(log'.ring, k) && Numbers(log''.offered, k) == Numbers(log'.offered, k)
      {
        PublishFrameOther(c, s', log', ms[n], k);
      }
    }
  }

  lemma StreamInvSame(c: Config, s: Stream, t: Stream, a: Log, b: Log, key: Key)
    requires c.window > 0 && StreamInv(c, s, a, key) && s.memory == t.memory && s.lastSeq == t.lastSeq
    requires Numbers(a.ring, key) == Numbers(b.ring, key) && Numbers(a.offered, key) == Numbers(b.offered, key)
    ensures StreamInv(c, t, b, key)
  {
    hide Numbers, Dedupe.Run;
  }

  lemma NewStreamOk(c: Config)
    requires ConfigOk(c)
    ensures SlotsValid(NewStream(c).slots)
    ensures |NewStream(c).slots| == c.generations || (|NewStream(c).slots| == 1 && c.generations == 0)
  {}

  lemma DeliverKeeps(c: Config, st: State, key: Key, body: seq<byte>, now: nat)
    requires Inv(c, st)
    ensures Inv(c, Deliver(c, st, key, body, now))
  {
    hide StreamInv, Distinct, Numbers, PublishFrames, SlotsValid, Message.Decode, Generations.Receive, AllAccepted, Passed;
    NewStreamOk(c);
    var s := StreamOf(c, st, key);
    var accepts := Admission(key);
    var d := Generations.Receive(s.slots, body, now, accepts);
    PublishedAdmitted(s.slots, body, now, accepts);
    ReceiveKeepsValid(s.slots, body, now, accepts);
    AllDecode(key, d.published);
    var ms := Messages(d.published);
    StreamInvSame(c, s, s.(slots := d.slots), st.log, st.log, key);
    PublishFramesKeep(c, s.(slots := d.slots), st.log, ms, key);
    var st' := Deliver(c, st, key, body, now);
    forall k ensures StreamInv(c, StreamOf(c, st', k), st'.log, k) {
      if k != key {
        StreamInvSame(c, StreamOf(c, st, k), StreamOf(c, st', k), st.log, st'.log, k);
      }
    }
  }

  lemma ReactKeeps(c: Config, st: State, e: Event)
    requires Inv(c, st)
    ensures Inv(c, React(c, st, e))
  {
    hide StreamInv, Distinct, Deliver, Unwrap, SlotsValid, Expired, Passed;
    match e
    case Datagram(bytes, truncated, now) =>
      var u := Unwrap(bytes);
      if u.Some? {
        DeliverKeeps(c, st, u.value.0, u.value.1, now);
      }
    case Expire(now) =>
      var st' := React(c, st, e);
      forall key ensures key in st'.streams ==> SlotsValid(st'.streams[key].slots) {
        if key in st.streams { ExpiredValid(st.streams[key].slots, now); }
      }
      forall key ensures StreamInv(c, StreamOf(c, st', key), st'.log, key) {
        StreamInvSame(c, StreamOf(c, st, key), StreamOf(c, st', key), st.log, st.log, key);
      }
  }

  lemma FreshInv(c: Config)
    requires ConfigOk(c)
    ensures Inv(c, FRESH)
  {}

  // ---- runs ----

  ghost function Run(c: Config, es: seq<Event>): (st: State)
    requires ConfigOk(c)
    ensures Inv(c, st)
  {
    if |es| == 0 then FreshInv(c); FRESH
    else
      var n := |es| - 1;
      ReactKeeps(c, Run(c, es[..n]), es[n]);
      React(c, Run(c, es[..n]), es[n])
  }

  // Over every sequence of datagrams each stream, epoch and sequence number reaches the ring at most once.
  lemma PublishedOnce(c: Config, es: seq<Event>)
    requires ConfigOk(c)
    ensures var ring := Run(c, es).log.ring;
            forall i, j | 0 <= i < j < |ring| :: KeyOf(ring[i]) != KeyOf(ring[j]) || ring[i].header.seqId != ring[j].header.seqId
  {
    hide StreamInv;
    var st := Run(c, es);
    assert Inv(c, st);
  }

  // After every run the ring is exactly what passes of the offered messages, whole and in the order offered.
  lemma RingIsPassed(c: Config, es: seq<Event>)
    requires ConfigOk(c)
    ensures var log := Run(c, es).log; log.ring == Passed(c, log.offered)
  {
    hide StreamInv, Distinct, Passed;
    assert Inv(c, Run(c, es));
  }

  // The offered message at `n` passes after those before it.
  ghost predicate PassesAt(c: Config, ms: seq<Message.Native>, n: nat)
    requires n < |ms|
  {
    Passes(c, Numbers(ms[..n], KeyOf(ms[n])), ms[n].header.seqId)
  }

  lemma {:induction false} PassedHolds(c: Config, ms: seq<Message.Native>, m: Message.Native)
    ensures m in Passed(c, ms) <==> exists n :: 0 <= n < |ms| && ms[n] == m && PassesAt(c, ms, n)
  {
    hide Passes, Numbers;
    if |ms| > 0 {
      var n := |ms| - 1;
      PassedHolds(c, ms[..n], m);
      PassesBefore(c, ms);
    }
  }

  lemma PassesBefore(c: Config, ms: seq<Message.Native>)
    requires |ms| > 0
    ensures forall n | 0 <= n < |ms| - 1 :: PassesAt(c, ms[..|ms| - 1], n) <==> PassesAt(c, ms, n)
    ensures PassesAt(c, ms, |ms| - 1) <==> Passed(c, ms) == Passed(c, ms[..|ms| - 1]) + [ms[|ms| - 1]]
  {
    hide Passes, Numbers;
    assert forall n | 0 <= n < |ms| - 1 :: ms[..|ms| - 1][..n] == ms[..n];
  }

  // After every run a message is in the ring exactly when it was offered, equal in every field, and its
  // number passed then; without suppression, when its number exceeded every earlier one of its identity.
  lemma RingHolds(c: Config, es: seq<Event>, m: Message.Native)
    requires ConfigOk(c)
    ensures var log := Run(c, es).log;
            m in log.ring <==> exists n :: 0 <= n < |log.offered| && log.offered[n] == m && PassesAt(c, log.offered, n)
  {
    hide Passed, PassesAt, Inv, React;
    RingIsPassed(c, es);
    PassedHolds(c, Run(c, es).log.offered, m);
  }

  // After every run the ring holds, for each identity, exactly the numbers that duplicate
  // suppression accepts when it is shown the offered ones in order.
  lemma PublishedExactly(c: Config, es: seq<Event>, key: Key, x: nat)
    requires ConfigOk(c) && c.dedupe
    ensures var log := Run(c, es).log;
            var xs := Numbers(log.offered, key);
            x in Numbers(log.ring, key) <==> x in Dedupe.AcceptedIn(xs, Dedupe.Run(c.window, xs).1)
  {
    hide Numbers, Dedupe.Run, Dedupe.AcceptedIn, React;
    var st := Run(c, es);
    assert StreamInv(c, StreamOf(c, st, key), st.log, key);
    Dedupe.RunAccepted(c.window, Numbers(st.log.offered, key));
  }

  // ---- the fate of every offered message ----

  // With suppression, the numbers let through are those the reference keeps.
  lemma {:induction false} PassedNumbers(c: Config, ms: seq<Message.Native>, key: Key)
    requires c.dedupe
    ensures forall x :: x in Numbers(Passed(c, ms), key) <==> x in Dedupe.Kept(c.window, Numbers(ms, key))
  {
    hide Numbers, Passed, Passes, Dedupe.Kept;
    if |ms| == 0 {
      NothingPassed(c, ms, key);
    } else {
      var n := |ms| - 1;
      var prior, m := ms[..n], ms[n];
      assert ms == prior + [m];
      PassedNumbers(c, prior, key);
      PassedSnoc(c, prior, m);
      NumbersSnoc(prior, m, key);
      if KeyOf(m) == key {
        OwnPassed(c, prior, m);
      } else {
        NumbersSnoc(Passed(c, prior), m, key);
        assert Passed(c, prior) + [] == Passed(c, prior) && Numbers(prior, key) + [] == Numbers(prior, key);
      }
    }
  }

  lemma NothingPassed(c: Config, ms: seq<Message.Native>, key: Key)
    requires |ms| == 0
    ensures Numbers(Passed(c, ms), key) == [] && Dedupe.Kept(c.window, Numbers(ms, key)) == {}
  {}

  lemma OwnPassed(c: Config, ms: seq<Message.Native>, m: Message.Native)
    requires c.dedupe && forall x :: x in Numbers(Passed(c, ms), KeyOf(m)) <==> x in Dedupe.Kept(c.window, Numbers(ms, KeyOf(m)))
    ensures var all := ms + [m];
            forall x :: x in Numbers(Passed(c, all), KeyOf(m)) <==> x in Dedupe.Kept(c.window, Numbers(all, KeyOf(m)))
  {
    hide Numbers, Passed, Dedupe.Kept, Dedupe.Late;
    var xs, x := Numbers(ms, KeyOf(m)), m.header.seqId;
    PassedSnoc(c, ms, m);
    NumbersSnoc(ms, m, KeyOf(m));
    NumbersSnoc(Passed(c, ms), m, KeyOf(m));
    Dedupe.KeptSnoc(c.window, xs, x);
    assert Passed(c, ms) + [] == Passed(c, ms);
  }

  lemma PassedPrefix(c: Config, ms: seq<Message.Native>, n: nat, m: Message.Native)
    requires n <= |ms| && m in Passed(c, ms[..n])
    ensures m in Passed(c, ms) && exists i :: 0 <= i < n && ms[i] == m
  {
    hide Passed, Passes, Numbers;
    PassedHolds(c, ms[..n], m);
    var i :| 0 <= i < |ms[..n]| && ms[..n][i] == m && PassesAt(c, ms[..n], i);
    assert ms[..n][..i] == ms[..i] && ms[i] == m;
    PassedHolds(c, ms, m);
  }

  // The offered message is in the ring, whole; or one with its number, offered earlier, is; or it
  // preceded the first number of its identity or trailed an earlier one by a full window.
  ghost predicate Settled(c: Config, log: Log, n: nat)
    requires n < |log.offered|
  {
    var m := log.offered[n];
    || m in log.ring
    || (exists i :: 0 <= i < n && log.offered[i] in log.ring && SameNumber(log.offered[i], m))
    || Dedupe.Late(Numbers(log.offered[..n], KeyOf(m)), m.header.seqId, c.window)
  }

  predicate SameNumber(a: Message.Native, b: Message.Native) { KeyOf(a) == KeyOf(b) && a.header.seqId == b.header.seqId }

  lemma EveryOfferSettled(c: Config, st: State, n: nat)
    requires Inv(c, st) && c.dedupe && n < |st.log.offered|
    ensures Settled(c, st.log, n)
  {
    hide StateOk, StreamInv, Distinct, Passed, Numbers, Dedupe.Late, Dedupe.Kept;
    var ms, m := st.log.offered, st.log.offered[n];
    if PassesAt(c, ms, n) {
      PassedHolds(c, ms, m);
    } else if !Dedupe.Late(Numbers(ms[..n], KeyOf(m)), m.header.seqId, c.window) {
      PassedNumbers(c, ms[..n], KeyOf(m));
      NumbersFind(Passed(c, ms[..n]), KeyOf(m), m.header.seqId);
      var r :| r in Passed(c, ms[..n]) && KeyOf(r) == KeyOf(m) && r.header.seqId == m.header.seqId;
      PassedPrefix(c, ms, n, r);
    }
  }

  // Nothing comes of a truncated datagram, of one without an identity, and of a new identity beyond the limit.
  lemma Ignored(c: Config, st: State, e: Event)
    requires ConfigOk(c) && StateOk(st) && e.Datagram?
    requires e.truncated || Unwrap(e.bytes).None? || (Unwrap(e.bytes).value.0 !in st.streams && |st.streams| >= c.limit)
    ensures React(c, st, e) == st
  {
    hide Unwrap, SlotsValid, Delivered;
  }

  // An identity once known is never dropped.
  lemma NeverEvicted(c: Config, st: State, e: Event)
    requires ConfigOk(c) && StateOk(st)
    ensures st.streams.Keys <= React(c, st, e).streams.Keys
    ensures |st.streams| <= c.limit ==> |React(c, st, e).streams| <= c.limit
  {
    hide Unwrap, Generations.Receive, PublishFrames, SlotsValid;
    var st' := React(c, st, e);
    if e.Expire? {
      assert st'.streams.Keys == st.streams.Keys;
      assert |st'.streams| == |st'.streams.Keys|;
    } else {
      match Unwrap(e.bytes)
      case None =>
      case Some((key, _)) =>
        assert st'.streams.Keys == st.streams.Keys || st'.streams.Keys == st.streams.Keys + {key};
        assert |st'.streams| == |st'.streams.Keys| && |st.streams| == |st.streams.Keys|;
    }
  }

  // Every offered number is in the ring, unless when offered it preceded the first number of its
  // identity or trailed an earlier one by at least a full window.
  lemma OfferedFate(c: Config, st: State, key: Key, n: nat)
    requires Inv(c, st) && c.dedupe && n < |Numbers(st.log.offered, key)|
    ensures var xs := Numbers(st.log.offered, key);
            xs[n] in Numbers(st.log.ring, key) || xs[n] < xs[0] || Dedupe.FarAbove(xs[..n], xs[n], c.window)
  {
    hide Numbers, Dedupe.Run, Dedupe.AcceptedIn, Dedupe.FarAbove;
    var xs := Numbers(st.log.offered, key);
    assert StreamInv(c, StreamOf(c, st, key), st.log, key);
    Dedupe.RunAccepted(c.window, xs);
    Dedupe.EveryFate(c.window, xs, n);
  }

  // ---- the receiver as it runs ----

  class Receiver {
    const config: Config
    var streams: map<Key, Stream>
    var ring: seq<Message.Native>
    ghost var offered: seq<Message.Native>

    ghost function Abstract(): State
      reads this
    {
      State(streams, Log(ring, offered))
    }

    ghost predicate Valid()
      reads this
    {
      Inv(config, Abstract())
    }

    constructor (config: Config)
      requires ConfigOk(config)
      ensures Valid() && Abstract() == FRESH && this.config == config
    {
      this.config := config;
      streams, ring, offered := map[], [], [];
      new;
      FreshInv(config);
    }

    // Finds the stream of an identity or creates it, unless it is new and the limit is reached.
    method Get(key: Key) returns (found: bool)
      requires ConfigOk(config)
      modifies this`streams
      ensures found <==> key in old(streams) || |old(streams)| < config.limit
      ensures streams == if found then old(streams)[key := StreamOf(config, old(Abstract()), key)] else old(streams)
    {
      if key in streams {
        assert streams[key := streams[key]] == streams;
        return true;
      }
      if |streams| >= config.limit {
        return false;
      }
      streams := streams[key := NewStream(config)];
      return true;
    }

    method OnDatagram(bytes: seq<byte>, truncated: bool, now: nat)
      requires Valid()
      modifies this
      ensures Valid() && Abstract() == React(config, old(Abstract()), Datagram(bytes, truncated, now))
    {
      hide StreamInv, Distinct, Delivered, Unwrap, SlotsValid, Passed;
      NewStreamOk(config);
      ReactKeeps(config, Abstract(), Datagram(bytes, truncated, now));
      if truncated {
        return;
      }
      var u := Unwrap(bytes);
      if u.None? {
        return;
      }
      var (key, body) := u.value;
      var found := Get(key);
      if found {
        ghost var log;
        var t, out;
        t, out, log := DeliverBody(config, streams[key], ring, offered, key, body, now);
        streams, ring, offered := streams[key := t], out, log.offered;
        assert streams == old(streams)[key := t];
      }
    }

    method Expire(now: nat)
      requires Valid()
      modifies this
      ensures Valid() && Abstract() == React(config, old(Abstract()), Event.Expire(now))
    {
      hide StreamInv, Distinct, SlotsValid, Passed;
      ReactKeeps(config, Abstract(), Event.Expire(now));
      streams := map key | key in streams :: streams[key].(slots := Expired(streams[key].slots, now));
    }
  }

  // The publish callback on an admitted message.
  method PublishOne(c: Config, s: Stream, ring: seq<Message.Native>, m: Message.Native)
    returns (t: Stream, out: seq<Message.Native>)
    requires c.window > 0
    ensures forall offered :: (t, out) == (PublishFrame(c, s, Log(ring, offered), m).0, PublishFrame(c, s, Log(ring, offered), m).1.ring)
  {
    hide Dedupe.Observe;
    if !c.dedupe {
      if m.header.seqId > s.lastSeq {
        return s.(lastSeq := m.header.seqId), ring + [m];
      }
      return s, ring;
    }
    var (memory, v) := Dedupe.Observe(s.memory, c.window, m.header.seqId);
    t, out := s.(memory := memory), ring;
    if Dedupe.Accepts(v) {
      out := out + [m];
    }
  }

  method DeliverBody(c: Config, s: Stream, ring: seq<Message.Native>, ghost offered: seq<Message.Native>, key: Key, body: seq<byte>, now: nat)
    returns (t: Stream, out: seq<Message.Native>, ghost log: Log)
    requires ConfigOk(c) && SlotsValid(s.slots)
    ensures t == Delivered(c, s, Log(ring, offered), key, body, now).0 && out == Delivered(c, s, Log(ring, offered), key, body, now).1.ring
    ensures log == Delivered(c, s, Log(ring, offered), key, body, now).1
  {
    hide SlotsValid, Generations.Receive, Message.Decode, AllAccepted, PublishFrame;
    var accepts := Admission(key);
    PublishedAdmitted(s.slots, body, now, accepts);
    var d := FecDecoder.Arrives(s.slots, body, now, accepts);
    AllDecode(key, d.published);
    t, out, log := s.(slots := d.slots), ring, Log(ring, offered);
    ghost var ms := Messages(d.published);
    for i := 0 to |d.published|
      invariant log.ring == out && (t, log) == PublishFrames(c, s.(slots := d.slots), Log(ring, offered), ms[..i])
    {
      var m := Message.Decode(d.published[i].frame).value;
      assert ms[..i + 1][..i] == ms[..i];
      log := PublishFrame(c, t, log, m).1;
      t, out := PublishOne(c, t, out, m);
    }
    assert ms[..|ms|] == ms;
  }
}
