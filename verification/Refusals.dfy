/** What the decoder does with datagrams that no honest sender produced, and when the callback refuses. */
module Refusals {
  import opened Bytes
  import opened Elimination
  import opened Fec
  import opened Generations

  // ---- which datagrams are looked at ----

  // Whatever does not begin with "FEC2" or is shorter than a shard header goes to the callback as it is.
  lemma PlainHandedOver(slots: seq<Generation>, d: seq<byte>, now: nat, accepts: Frame -> bool)
    requires SlotsValid(slots) && (|d| < 17 || d[..4] != [0x46, 0x45, 0x43, 0x32])
    ensures var r := Receive(slots, d, now, accepts);
            && r.slots == slots && r.ok == accepts(d)
            && r.published == if accepts(d) then [Publication(d, false)] else []
  {
    hide ReadEnvelope, SlotsValid;
    ShardExactly(d);
  }

  // The header bytes admit the payload behind them as a data shard or as a parity shard.
  ghost predicate WellFormed(e: Envelope, len: nat) {
    && 1 <= e.k <= 128 && e.closeReason <= 2 && len == e.protectedLen
    && (if e.parityCount == 0 then 1 <= len <= 1024 && e.index < e.k
        else e.parityCount <= 16 && e.k <= e.index < e.k + e.parityCount && 2 <= len <= 1026)
  }

  // Every other shard changes nothing and publishes nothing.
  lemma MalformedRefused(slots: seq<Generation>, d: seq<byte>, now: nat, accepts: Frame -> bool)
    requires SlotsValid(slots) && |d| >= 17 && d[..4] == [0x46, 0x45, 0x43, 0x32] && !WellFormed(ReadEnvelope(d), |d| - 17)
    ensures Receive(slots, d, now, accepts) == Received(slots, false, [])
  {
    hide ReadEnvelope, SlotsValid;
    ShardExactly(d);
  }

  // ---- a data shard ----

  // The generation was announced with another size, or was closed with a larger one.
  predicate OtherSize(g: Generation, e: Envelope) { e.k < g.k || (!g.parityReceived && e.k != g.k) }

  // A data shard that contradicts the announced size changes nothing and publishes nothing.
  lemma OtherSizeRefused(slots: seq<Generation>, d: seq<byte>, now: nat, accepts: Frame -> bool)
    requires SlotsValid(slots) && IsShard(d) && DataOk(ReadEnvelope(d), d[ENVELOPE_SIZE..])
    requires var e := ReadEnvelope(d); var g := slots[e.genId % |slots|];
             g.active && g.genId == e.genId && OtherSize(g, e)
    ensures Receive(slots, d, now, accepts) == Received(slots, false, [])
  {
    hide ReadEnvelope;
    var e := ReadEnvelope(d);
    SlotUsable(slots, e.genId, e.k, now);
    assert slots[e.genId % |slots| := slots[e.genId % |slots|]] == slots;
  }

  // Index `i` of the generation has arrived.
  predicate Arrived(g: Generation, i: nat) { i < |g.received| && g.received[i] }

  ghost predicate SameHoldings(g: Generation, h: Generation) {
    && g.genId == h.genId && g.parities == h.parities && g.parityReceived == h.parityReceived && g.recovered == h.recovered
    && (forall i: nat :: Arrived(g, i) <==> Arrived(h, i))
    && (forall i: nat | Arrived(g, i) && i < |g.data| && i < |h.data| :: g.data[i] == h.data[i])
  }

  // A data shard whose frame the callback refuses counts as not arrived.
  lemma RefusedFrameNotCounted(g: Generation, e: Envelope, payload: Frame, now: nat, accepts: Frame -> bool)
    requires Usable(g) && DataOk(e, payload) && !accepts(payload)
    ensures var s := ReceiveData(g, e, payload, now, accepts);
            !s.ok && s.published == [] && SameHoldings(g, s.gen)
  {
    hide Parities, ProtectedFrame;
  }

  // A data shard whose frame the callback takes publishes it first, as received and not as recovered.
  lemma TakenFrameFirst(g: Generation, e: Envelope, payload: Frame, now: nat, accepts: Frame -> bool)
    requires Usable(g) && DataOk(e, payload) && accepts(payload) && !OtherSize(g, e) && e.index < Ensure(g, e.k).k
    ensures var s := ReceiveData(g, e, payload, now, accepts);
            && |s.published| > 0 && s.published[0] == Publication(payload, false)
            && forall i | 1 <= i < |s.published| :: s.published[i].recovered
  {
    hide Parities, ProtectedFrame, TryRecover, Ensure;
    EnsureValid(g, e.k);
    var h := WithData(Touched(Ensure(g, e.k), now), e.index, ProtectedFrame(payload, |payload|));
    WithDataValid(Touched(Ensure(g, e.k), now), e.index, ProtectedFrame(payload, |payload|));
    RecoveryOnlyRecovers(h, accepts);
  }

  lemma RecoveryOnlyRecovers(g: Generation, accepts: Frame -> bool)
    requires Valid(g)
    ensures forall i | 0 <= i < |TryRecover(g, accepts).published| :: TryRecover(g, accepts).published[i].recovered
  {
    hide PublishFrom, MissingBlocks, ShardWidth, LengthOkAny, Absent;
    if Solvable(g) && DataFits(g, ShardWidth(g)) {
      var blocks := MissingBlocks(g);
      if forall r | 0 <= r < |blocks| :: LengthOkAny(blocks[r]) {
        PrefixPublished(g, Absent(g.received, g.k), blocks, 0, accepts);
        var ps := TryRecover(g, accepts).published;
        forall i | 0 <= i < |ps| ensures ps[i].recovered {
          assert ps[i - 0] == Publication(FrameOf(blocks[i]), true);
        }
      }
    }
  }

  // ---- a parity shard ----

  // A parity shard of another width than those held adds nothing and publishes nothing.
  lemma OtherWidthRefused(g: Generation, e: Envelope, payload: seq<byte>, now: nat, accepts: Frame -> bool)
    requires Usable(g) && ParityOk(e, payload) && g.parityReceived && OtherWidth(g, |payload|)
    ensures var s := ReceiveParity(g, e, payload, now, accepts);
            !s.ok && s.published == [] && SameHoldings(g, s.gen)
  {
    hide Parities;
    if !Conflicting(g, e) {
      ClosedValid(g, e, now);
    }
  }

  // A parity shard is refused without a trace, or its closure is the generation's from then on.
  lemma ClosureRecorded(g: Generation, e: Envelope, payload: seq<byte>, now: nat, accepts: Frame -> bool)
    requires Usable(g) && ParityOk(e, payload)
    ensures var s := ReceiveParity(g, e, payload, now, accepts);
            || s == Step(g, false, [])
            || (s.gen.k == e.k && s.gen.parityCount == e.parityCount && s.gen.closeReason == e.closeReason)
  {
    hide Parities, TryRecover, Valid, OtherWidth;
    UsableShape(g);
    if !Conflicting(g, e) {
      ClosedValid(g, e, now);
      ClosedSize(g, e, now);
      var g2 := Closed(g, e, now);
      if !OtherWidth(g2, |payload|) {
        WithParityValid(g2, e.index - e.k, payload);
        TryRecoverKeepsValid(WithParity(g2, e.index - e.k, payload), accepts);
      }
    }
  }

  lemma ClosedSize(g: Generation, e: Envelope, now: nat)
    requires Usable(g) && !Conflicting(g, e)
    ensures Closed(g, e, now).k == e.k && Closed(g, e, now).parityCount == e.parityCount && Closed(g, e, now).closeReason == e.closeReason
  {}

  // ---- a recovery that does not go through ----

  // Recovery answers in one of three ways: nothing to do, inconsistent shards, or the solved frames one
  // by one up to the first that the callback refuses.
  lemma RecoveryOutcome(g: Generation, accepts: Frame -> bool)
    requires Valid(g)
    ensures var s := TryRecover(g, accepts);
            if !Solvable(g) then s == Step(g, true, [])
            else if !DataFits(g, ShardWidth(g)) || !Lengths(MissingBlocks(g)) then s == Step(g, false, [])
            else UpToRefusal(g, Absent(g.received, g.k), MissingBlocks(g), 0, accepts, s)
  {
    hide PublishFrom, MissingBlocks, ShardWidth, LengthOkAny, Absent, UpToRefusal;
    if Solvable(g) && DataFits(g, ShardWidth(g)) && Lengths(MissingBlocks(g)) {
      PrefixPublished(g, Absent(g.received, g.k), MissingBlocks(g), 0, accepts);
    }
  }

  ghost predicate Lengths(blocks: Matrix) { forall r | 0 <= r < |blocks| :: LengthOkAny(blocks[r]) }

  // The frames from `r` on are published up to the first refused one; exactly they count as arrived, and the
  // generation is recovered if none was refused.
  ghost predicate UpToRefusal(g: Generation, absent: seq<nat>, blocks: Matrix, r: nat, accepts: Frame -> bool, s: Step)
    requires r <= |absent| == |blocks| && Lengths(blocks)
  {
    var n := |s.published|;
    && r + n <= |blocks| && s.ok == (r + n == |blocks|)
    && (r + n < |blocks| ==> !accepts(FrameOf(blocks[r + n])))
    && (forall i | r <= i < r + n :: accepts(FrameOf(blocks[i])) && s.published[i - r] == Publication(FrameOf(blocks[i]), true))
    && s.gen.recovered == (g.recovered || s.ok)
    && forall c: nat :: Arrived(s.gen, c) <==> Arrived(g, c) || c in absent[r..r + n]
  }

  lemma {:induction false} PrefixPublished(g: Generation, absent: seq<nat>, blocks: Matrix, r: nat, accepts: Frame -> bool)
    requires r <= |absent| == |blocks| && |g.received| == |g.data| && Lengths(blocks)
    requires forall i | 0 <= i < |absent| :: absent[i] < |g.data|
    ensures UpToRefusal(g, absent, blocks, r, accepts, PublishFrom(g, absent, blocks, r, accepts))
    decreases |absent| - r
  {
    hide LengthOkAny, FrameOf;
    if r < |absent| && accepts(FrameOf(blocks[r])) {
      var h := g.(received := g.received[absent[r] := true], data := g.data[absent[r] := blocks[r]]);
      PrefixPublished(h, absent, blocks, r + 1, accepts);
      var s := PublishFrom(h, absent, blocks, r + 1, accepts);
      OneMore(g, h, absent, blocks, r, accepts, s);
    }
  }

  lemma OneMore(g: Generation, h: Generation, absent: seq<nat>, blocks: Matrix, r: nat, accepts: Frame -> bool, s: Step)
    requires r < |absent| == |blocks| && Lengths(blocks) && accepts(FrameOf(blocks[r])) && g.recovered == h.recovered
    requires forall c: nat :: Arrived(h, c) <==> Arrived(g, c) || c == absent[r]
    requires UpToRefusal(h, absent, blocks, r + 1, accepts, s)
    ensures UpToRefusal(g, absent, blocks, r, accepts, s.(published := [Publication(FrameOf(blocks[r]), true)] + s.published))
  {
    hide LengthOkAny, FrameOf, Arrived;
    var n := |s.published|;
    assert absent[r..r + 1 + n] == [absent[r]] + absent[r + 1..r + 1 + n];
    var all := [Publication(FrameOf(blocks[r]), true)] + s.published;
    forall i | r <= i < r + 1 + n ensures accepts(FrameOf(blocks[i])) && all[i - r] == Publication(FrameOf(blocks[i]), true) {
      if i > r {
        assert all[i - r] == s.published[i - r - 1];
      }
    }
  }
}
