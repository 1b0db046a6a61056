/** The per-generation decoder: what one datagram does to the slots and what it publishes. */
module Generations {
  import opened Bytes
  import opened Elimination
  import opened Cauchy
  import opened Wire
  import opened Fec

  datatype Generation = Generation(
    active: bool, seenAny: bool, parityReceived: bool, recovered: bool,
    genId: nat, k: nat, parityCount: nat, closeReason: nat, firstNs: nat,
    data: seq<seq<byte>>, parities: seq<seq<byte>>, received: seq<bool>)

  const EMPTY: Generation := Generation(false, false, false, false, 0, 0, 0, 0, 0, [], [], [])

  datatype Publication = Publication(frame: Frame, recovered: bool)

  // The generation after a datagram, the answer to the caller, and the accepted publications.
  datatype Step = Step(gen: Generation, ok: bool, published: seq<Publication>)

  // ---- the generation invariant ----

  ghost predicate Parities(ps: seq<seq<byte>>) {
    && (|ps| == 0 || |ps| == MAX_PARITY)
    && (forall i | 0 <= i < |ps| && ps[i] != [] :: 2 <= |ps[i]| <= MAX_FRAME + 2)
    && (forall i, j | 0 <= i < |ps| && 0 <= j < |ps| && ps[i] != [] && ps[j] != [] :: |ps[i]| == |ps[j]|)
  }

  ghost predicate Valid(g: Generation) {
    && 1 <= g.k <= MAX_GENERATION && g.k <= |g.received| == |g.data| && g.closeReason <= 2
    && Parities(g.parities)
    && (g.parityReceived <==> exists i :: 0 <= i < |g.parities| && g.parities[i] != [])
    && (g.parityReceived ==> 1 <= g.parityCount <= MAX_PARITY)
    && (forall i | g.k <= i < |g.received| :: !g.received[i])
  }

  // ---- recovery ----

  // The indices below `n` not received, in order.
  function Absent(received: seq<bool>, n: nat): (a: seq<nat>)
    requires n <= |received|
    ensures forall i | 0 <= i < |a| :: a[i] < n && !received[a[i]]
    ensures forall i, j | 0 <= i < j < |a| :: a[i] < a[j]
    ensures forall c | 0 <= c < n && !received[c] :: c in a
  {
    if n == 0 then [] else
      var a := Absent(received, n - 1);
      if received[n - 1] then a else a + [n - 1]
  }

  // The parity rows below `n` that are held, in order.
  function Held(parities: seq<seq<byte>>, n: nat): (h: seq<nat>)
    requires n <= |parities|
    ensures forall i | 0 <= i < |h| :: h[i] < n && parities[h[i]] != []
    ensures forall i, j | 0 <= i < j < |h| :: h[i] < h[j]
    ensures forall c | 0 <= c < n && parities[c] != [] :: c in h
  {
    if n == 0 then [] else
      var h := Held(parities, n - 1);
      if parities[n - 1] == [] then h else h + [n - 1]
  }

  function Pad(b: Vector, width: nat): (v: Vector)
    requires |b| <= width
    ensures |v| == width
  {
    b + Zeros(width - |b|)
  }

  ghost predicate DataFits(g: Generation, width: nat)
    requires g.k <= |g.received| == |g.data|
  {
    forall c | 0 <= c < g.k && g.received[c] :: |g.data[c]| <= width
  }

  // A held parity minus the contribution of the received data below `n`.
  function RightSide(g: Generation, row: nat, width: nat, n: nat): (v: Vector)
    requires n <= |g.received| == |g.data| && n <= MAX_GENERATION
    requires row < |g.parities| == MAX_PARITY && |g.parities[row]| == width
    requires forall c | 0 <= c < n && g.received[c] :: |g.data[c]| <= width
    ensures |v| == width
  {
    if n == 0 then g.parities[row]
    else
      var v := RightSide(g, row, width, n - 1);
      if g.received[n - 1] then AddRow(v, Coefficient(row, n - 1), Pad(g.data[n - 1], width)) else v
  }

  // The generation holds enough parity rows for its missing data, and not nothing is missing.
  ghost predicate Solvable(g: Generation)
    requires Valid(g)
  {
    && g.parityReceived && !g.recovered
    && 0 < |Absent(g.received, g.k)| <= |Held(g.parities, |g.parities|)|
  }

  ghost function UsedRows(g: Generation): (rows: seq<nat>)
    requires Valid(g) && Solvable(g)
    ensures Rows(rows) && |rows| == |Absent(g.received, g.k)|
    ensures forall i | 0 <= i < |rows| :: rows[i] < |g.parities| && g.parities[rows[i]] != []
  {
    Held(g.parities, |g.parities|)[..|Absent(g.received, g.k)|]
  }

  ghost function ShardWidth(g: Generation): (w: nat)
    requires Valid(g) && Solvable(g)
    ensures 2 <= w <= MAX_FRAME + 2
    ensures forall i | 0 <= i < |g.parities| && g.parities[i] != [] :: |g.parities[i]| == w
  {
    |g.parities[UsedRows(g)[0]]|
  }

  ghost function RightSides(g: Generation): (rhs: Matrix)
    requires Valid(g) && Solvable(g) && DataFits(g, ShardWidth(g))
    ensures |rhs| == |UsedRows(g)| && Rectangular(rhs, ShardWidth(g))
  {
    var rows, w := UsedRows(g), ShardWidth(g);
    seq(|rows|, r requires 0 <= r < |rows| => RightSide(g, rows[r], w, g.k))
  }

  ghost function MissingBlocks(g: Generation): (blocks: Matrix)
    requires Valid(g) && Solvable(g) && DataFits(g, ShardWidth(g))
    ensures |blocks| == |Absent(g.received, g.k)| && Rectangular(blocks, ShardWidth(g))
  {
    Recovered(UsedRows(g), Absent(g.received, g.k), RightSides(g), ShardWidth(g))
  }

  predicate LengthOk(block: Vector, width: nat)
    requires |block| == width >= 2
  {
    var len := GetU16(block);
    1 <= len <= MAX_FRAME && len + 2 <= width
  }

  function FrameOf(block: Vector): (f: Frame)
    requires LengthOkAny(block)
  {
    block[2..2 + GetU16(block)]
  }

  predicate LengthOkAny(block: Vector) {
    |block| >= 2 && LengthOk(block, |block|)
  }

  // Publish the recovered blocks from `r` on, marking each as received; stop at a refusal.
  function PublishFrom(g: Generation, absent: seq<nat>, blocks: Matrix, r: nat, accepts: Frame -> bool): (s: Step)
    requires r <= |absent| == |blocks| && |g.received| == |g.data|
    requires forall i | 0 <= i < |absent| :: absent[i] < |g.data|
    requires forall i | 0 <= i < |blocks| :: LengthOkAny(blocks[i])
    decreases |absent| - r
  {
    if r == |absent| then Step(g.(recovered := true), true, [])
    else if !accepts(FrameOf(blocks[r])) then Step(g, false, [])
    else
      var g' := g.(received := g.received[absent[r] := true], data := g.data[absent[r] := blocks[r]]);
      var s := PublishFrom(g', absent, blocks, r + 1, accepts);
      s.(published := [Publication(FrameOf(blocks[r]), true)] + s.published)
  }

  ghost function TryRecover(g: Generation, accepts: Frame -> bool): (s: Step)
    requires Valid(g)
  {
    if !Solvable(g) then Step(g, true, [])
    else if !DataFits(g, ShardWidth(g)) then Step(g, false, [])
    else
      var blocks := MissingBlocks(g);
      if exists r :: 0 <= r < |blocks| && !LengthOkAny(blocks[r]) then Step(g, false, [])
      else PublishFrom(g, Absent(g.received, g.k), blocks, 0, accepts)
  }

  // ---- one datagram ----

  function SlotFor(slots: seq<Generation>, genId: nat, k: nat, now: nat): (g: Generation)
    requires |slots| > 0
  {
    var g := slots[genId % |slots|];
    if !g.active || g.genId != genId then
      EMPTY.(active := true, genId := genId, k := k, firstNs := now)
    else g
  }

  function Ensure(g: Generation, k: nat): (r: Generation)
    requires |g.data| == |g.received|
    ensures |r.data| == |r.received|
  {
    var g' := if g.k == 0 || k < g.k then g.(k := k) else g;
    if |g'.data| < g'.k then
      g'.(data := g'.data + seq(g'.k - |g'.data|, _ => []), received := g'.received + seq(g'.k - |g'.received|, _ => false))
    else g'
  }

  // A slot just taken for a generation of announced size k.
  ghost predicate Fresh(g: Generation) {
    && 1 <= g.k <= MAX_GENERATION && g.data == [] && g.received == [] && g.parities == []
    && !g.parityReceived && !g.recovered && g.closeReason == 0
  }

  ghost predicate Usable(g: Generation) { Valid(g) || Fresh(g) }

  lemma EnsureValid(g: Generation, k: nat)
    requires Usable(g) && k >= 1
    requires forall i | k <= i < |g.received| :: !g.received[i]
    ensures Valid(Ensure(g, k))
  {}

  function Touched(g: Generation, now: nat): Generation {
    g.(seenAny := true, firstNs := if g.firstNs == 0 then now else g.firstNs)
  }

  function WithData(g: Generation, index: nat, block: Vector): Generation
    requires index < |g.data| == |g.received|
  {
    g.(data := g.data[index := block], received := g.received[index := true])
  }

  ghost function ReceiveData(g: Generation, e: Envelope, payload: Frame, now: nat, accepts: Frame -> bool): (s: Step)
    requires Usable(g) && e.index < e.k <= MAX_GENERATION && 1 <= |payload| <= MAX_FRAME
  {
    if e.k < g.k || (!g.parityReceived && e.k != g.k) then Step(g, false, [])
    else
      EnsureValid(g, e.k);
      var g1 := Ensure(g, e.k);
      if e.index >= g1.k then Step(g1, false, [])
      else if !accepts(payload) then Step(Touched(g1, now), false, [])
      else
        var s := TryRecover(WithData(Touched(g1, now), e.index, ProtectedFrame(payload, |payload|)), accepts);
        s.(published := [Publication(payload, false)] + s.published)
  }

  // A parity shard that contradicts the recorded closure or the received data.
  predicate Conflicting(g: Generation, e: Envelope) {
    || (g.parityReceived && (g.k != e.k || g.parityCount != e.parityCount || g.closeReason != e.closeReason))
    || e.k > g.k
    || exists i :: e.k <= i < |g.received| && g.received[i]
  }

  ghost function ReceiveParity(g: Generation, e: Envelope, payload: Vector, now: nat, accepts: Frame -> bool): (s: Step)
    requires Usable(g) && e.k <= e.index < e.k + e.parityCount && 1 <= e.parityCount <= MAX_PARITY
    requires 1 <= e.k <= MAX_GENERATION && 2 <= |payload| <= MAX_FRAME + 2 && e.closeReason <= 2
  {
    if Conflicting(g, e) then Step(g, false, [])
    else
      var g2 := Closed(g, e, now);
      ClosedValid(g, e, now);
      if OtherWidth(g2, |payload|) then Step(g2, false, [])
      else
        WithParityValid(g2, e.index - e.k, payload);
        TryRecover(WithParity(g2, e.index - e.k, payload), accepts)
  }

  // The closure announced by a parity shard, recorded.
  function Closed(g: Generation, e: Envelope, now: nat): Generation
    requires |g.data| == |g.received|
  {
    var g1 := Touched(Ensure(g, e.k), now).(closeReason := e.closeReason, parityCount := e.parityCount);
    g1.(parities := if g1.parities == [] then seq(MAX_PARITY, _ => []) else g1.parities)
  }

  predicate OtherWidth(g: Generation, width: nat) {
    exists i :: 0 <= i < |g.parities| && g.parities[i] != [] && |g.parities[i]| != width
  }

  function WithParity(g: Generation, row: nat, shard: Vector): Generation
    requires row < |g.parities|
  {
    g.(parities := g.parities[row := shard], parityReceived := true)
  }

  lemma ClosedValid(g: Generation, e: Envelope, now: nat)
    requires Usable(g) && !Conflicting(g, e) && 1 <= e.k && e.closeReason <= 2 && 1 <= e.parityCount <= MAX_PARITY
    ensures Valid(Closed(g, e, now)) && |Closed(g, e, now).parities| == MAX_PARITY
  {
    EnsureValid(g, e.k);
    hide Usable, Conflicting, Ensure;
  }

  lemma WithParityValid(g: Generation, row: nat, shard: Vector)
    requires Valid(g) && row < |g.parities| && 2 <= |shard| <= MAX_FRAME + 2 && !OtherWidth(g, |shard|)
    requires 1 <= g.parityCount <= MAX_PARITY
    ensures Valid(WithParity(g, row, shard))
  {
    assert WithParity(g, row, shard).parities[row] != [];
  }

  lemma WithDataValid(g: Generation, index: nat, block: Vector)
    requires Valid(g) && index < g.k
    ensures Valid(WithData(g, index, block))
  {}

  datatype Received = Received(slots: seq<Generation>, ok: bool, published: seq<Publication>)

  ghost predicate SlotsValid(slots: seq<Generation>) {
    |slots| > 0 && forall i | 0 <= i < |slots| && slots[i].active :: Valid(slots[i])
  }

  // The datagram carries an envelope that passes the checks common to all shards.
  predicate IsShard(d: seq<byte>) {
    |d| >= ENVELOPE_SIZE && ReadEnvelope(d).magic == MAGIC
  }

  predicate HeaderOk(e: Envelope) {
    1 <= e.k <= MAX_GENERATION && e.closeReason <= 2
  }

  predicate DataOk(e: Envelope, payload: seq<byte>) {
    && HeaderOk(e) && e.parityCount == 0 && 1 <= |payload| <= MAX_FRAME
    && |payload| == e.protectedLen && e.index < e.k
  }

  predicate ParityOk(e: Envelope, payload: seq<byte>) {
    && HeaderOk(e) && 1 <= e.parityCount <= MAX_PARITY && e.k <= e.index < e.k + e.parityCount
    && |payload| == e.protectedLen && 2 <= |payload| <= MAX_FRAME + 2
  }

  lemma SlotUsable(slots: seq<Generation>, genId: nat, k: nat, now: nat)
    requires SlotsValid(slots) && 1 <= k <= MAX_GENERATION
    ensures Usable(SlotFor(slots, genId, k, now))
  {}

  ghost function Receive(slots: seq<Generation>, d: seq<byte>, now: nat, accepts: Frame -> bool): (r: Received)
    requires SlotsValid(slots)
  {
    if !IsShard(d) then
      Received(slots, accepts(d), if accepts(d) then [Publication(d, false)] else [])
    else
      var e, payload := ReadEnvelope(d), d[ENVELOPE_SIZE..];
      if !DataOk(e, payload) && !ParityOk(e, payload) then Received(slots, false, [])
      else
        SlotUsable(slots, e.genId, e.k, now);
        var g := SlotFor(slots, e.genId, e.k, now);
        var s := if e.parityCount == 0 then ReceiveData(g, e, payload, now, accepts)
                 else ReceiveParity(g, e, payload, now, accepts);
        Received(slots[e.genId % |slots| := s.gen], s.ok, s.published)
  }

  // ---- what each kind of datagram does ----

  // A datagram is taken for a shard exactly when it is long enough and begins with "FEC2".
  lemma ShardExactly(d: seq<byte>)
    ensures IsShard(d) <==> |d| >= 17 && d[..4] == [0x46, 0x45, 0x43, 0x32]
  {
    hide ReadEnvelope;
    if |d| >= 17 {
      MagicRead(d);
    }
  }

  // ---- the invariant holds after every byte string ----

  predicate SameClosure(g: Generation, h: Generation) {
    g.k == h.k && g.parityCount == h.parityCount && g.closeReason == h.closeReason
  }

  lemma {:induction false} PublishKeepsValid(g: Generation, absent: seq<nat>, blocks: Matrix, r: nat, accepts: Frame -> bool)
    requires Valid(g) && r <= |absent| == |blocks|
    requires forall i | 0 <= i < |absent| :: absent[i] < g.k
    requires forall i | 0 <= i < |blocks| :: LengthOkAny(blocks[i])
    ensures Valid(PublishFrom(g, absent, blocks, r, accepts).gen)
    ensures PublishFrom(g, absent, blocks, r, accepts).gen.active == g.active
    ensures SameClosure(PublishFrom(g, absent, blocks, r, accepts).gen, g)
    decreases |absent| - r
  {
    hide LengthOkAny, FrameOf;
    if r < |absent| && accepts(FrameOf(blocks[r])) {
      var g' := g.(received := g.received[absent[r] := true], data := g.data[absent[r] := blocks[r]]);
      PublishKeepsValid(g', absent, blocks, r + 1, accepts);
    }
  }

  lemma AbsentColumns(g: Generation)
    requires Valid(g)
    ensures g.k <= |g.received| && Columns(Absent(g.received, g.k))
  {}

  lemma TryRecoverKeepsValid(g: Generation, accepts: Frame -> bool)
    requires Valid(g)
    ensures Valid(TryRecover(g, accepts).gen) && TryRecover(g, accepts).gen.active == g.active
    ensures SameClosure(TryRecover(g, accepts).gen, g)
  {
    hide MissingBlocks, PublishFrom, ShardWidth, DataFits, LengthOkAny, Absent, Parities;
    if Solvable(g) && DataFits(g, ShardWidth(g)) {
      var blocks := MissingBlocks(g);
      if forall r | 0 <= r < |blocks| :: LengthOkAny(blocks[r]) {
        PublishKeepsValid(g, Absent(g.received, g.k), blocks, 0, accepts);
      }
    }
  }

  lemma ReceiveDataKeepsValid(g: Generation, e: Envelope, payload: Frame, now: nat, accepts: Frame -> bool)
    requires Usable(g) && e.index < e.k <= MAX_GENERATION && 1 <= |payload| <= MAX_FRAME && g.active
    requires Fresh(g) ==> g.k == e.k
    ensures Valid(ReceiveData(g, e, payload, now, accepts).gen)
    ensures ReceiveData(g, e, payload, now, accepts).gen.active
  {
    hide TryRecover, ProtectedFrame, Parities, Ensure;
    if e.k >= g.k && (g.parityReceived || e.k == g.k) {
      EnsureValid(g, e.k);
      EnsureActive(g, e.k);
      var g1 := Ensure(g, e.k);
      assert Valid(Touched(g1, now));
      if e.index < g1.k {
        WithDataValid(Touched(g1, now), e.index, ProtectedFrame(payload, |payload|));
        TryRecoverKeepsValid(WithData(Touched(g1, now), e.index, ProtectedFrame(payload, |payload|)), accepts);
      }
    }
  }

  lemma EnsureActive(g: Generation, k: nat)
    requires |g.data| == |g.received|
    ensures Ensure(g, k).active == g.active
  {}

  lemma UsableShape(g: Generation)
    requires Usable(g)
    ensures |g.data| == |g.received| && (!Fresh(g) ==> Valid(g))
  {}

  lemma ClosedFields(g: Generation, e: Envelope, now: nat)
    requires |g.data| == |g.received|
    ensures var c := Closed(g, e, now);
            c.active == g.active && c.parityCount == e.parityCount && c.closeReason == e.closeReason
  {}

  lemma ReceiveParityKeepsValid(g: Generation, e: Envelope, payload: Vector, now: nat, accepts: Frame -> bool)
    requires Usable(g) && e.k <= e.index < e.k + e.parityCount && 1 <= e.parityCount <= MAX_PARITY && g.active
    requires 1 <= e.k <= MAX_GENERATION && 2 <= |payload| <= MAX_FRAME + 2 && e.closeReason <= 2
    requires Fresh(g) ==> g.k == e.k
    ensures Valid(ReceiveParity(g, e, payload, now, accepts).gen)
    ensures ReceiveParity(g, e, payload, now, accepts).gen.active
  {
    hide TryRecover, Valid, OtherWidth, Closed, Ensure, Usable, Parities;
    UsableShape(g);
    if Conflicting(g, e) {
      FreshNeverConflicts(g, e);
    } else {
      ClosedValid(g, e, now);
      ClosedFields(g, e, now);
      var g2 := Closed(g, e, now);
      if !OtherWidth(g2, |payload|) {
        WithParityValid(g2, e.index - e.k, payload);
        TryRecoverKeepsValid(WithParity(g2, e.index - e.k, payload), accepts);
      }
    }
  }

  lemma FreshNeverConflicts(g: Generation, e: Envelope)
    requires Fresh(g) ==> g.k == e.k
    ensures Fresh(g) ==> !Conflicting(g, e)
  {}

  // For every byte string: the slots stay valid and at most the addressed slot changes.
  lemma ReceiveKeepsValid(slots: seq<Generation>, d: seq<byte>, now: nat, accepts: Frame -> bool)
    requires SlotsValid(slots)
    ensures var r := Receive(slots, d, now, accepts);
            SlotsValid(r.slots) && |r.slots| == |slots| &&
            forall i | 0 <= i < |slots| && !(IsShard(d) && i == ReadEnvelope(d).genId % |slots|) :: r.slots[i] == slots[i]
  {
    hide ReceiveData, ReceiveParity, Valid, ReadEnvelope;
    if IsShard(d) {
      var e, payload := ReadEnvelope(d), d[ENVELOPE_SIZE..];
      if DataOk(e, payload) || ParityOk(e, payload) {
        SlotUsable(slots, e.genId, e.k, now);
        var g := SlotFor(slots, e.genId, e.k, now);
        FreshSize(slots, e.genId, e.k, now);
        if e.parityCount == 0 {
          ReceiveDataKeepsValid(g, e, payload, now, accepts);
        } else {
          ReceiveParityKeepsValid(g, e, payload, now, accepts);
        }
      }
    }
  }

  lemma FreshSize(slots: seq<Generation>, genId: nat, k: nat, now: nat)
    requires SlotsValid(slots)
    ensures var g := SlotFor(slots, genId, k, now); g.active && (Fresh(g) ==> g.k == k)
  {}

  // A parity shard that contradicts the recorded closure changes nothing and publishes nothing.
  lemma ConflictRefused(slots: seq<Generation>, d: seq<byte>, now: nat, accepts: Frame -> bool)
    requires SlotsValid(slots) && IsShard(d) && ParityOk(ReadEnvelope(d), d[ENVELOPE_SIZE..])
    requires var e := ReadEnvelope(d); var g := slots[e.genId % |slots|];
             g.active && g.genId == e.genId && Conflicting(g, e)
    ensures Receive(slots, d, now, accepts) == Received(slots, false, [])
  {
    hide ReadEnvelope;
    var e := ReadEnvelope(d);
    SlotUsable(slots, e.genId, e.k, now);
    assert slots[e.genId % |slots| := slots[e.genId % |slots|]] == slots;
  }

  // No generation that can be reached makes the elimination run out of pivots.
  lemma PivotAlwaysFound(g: Generation)
    requires Valid(g) && Solvable(g) && DataFits(g, ShardWidth(g))
    ensures var rows, absent := UsedRows(g), Absent(g.received, g.k);
            EliminateFrom(Augmented(Submatrix(rows, absent), RightSides(g)), 0, |rows| + ShardWidth(g)).Some?
  {
    hide *;
    AbsentColumns(g);
    PivotFound(UsedRows(g), Absent(g.received, g.k), RightSides(g), ShardWidth(g));
  }

  // ---- expiry ----

  const TTL: nat := 1_000_000_000

  // No generation a full time-to-live old stays, and every younger one stays as it is.
  function Expired(slots: seq<Generation>, now: nat): (r: seq<Generation>)
    ensures |r| == |slots|
    ensures forall i | 0 <= i < |r| && r[i].active :: now < r[i].firstNs + 1_000_000_000
    ensures forall i | 0 <= i < |slots| && now < slots[i].firstNs + 1_000_000_000 :: r[i] == slots[i]
  {
    seq(|slots|, i requires 0 <= i < |slots| =>
      if slots[i].active && now >= slots[i].firstNs + TTL then EMPTY else slots[i])
  }

  lemma ExpiredValid(slots: seq<Generation>, now: nat)
    requires SlotsValid(slots)
    ensures SlotsValid(Expired(slots, now))
  {
    hide Valid;
  }
}
