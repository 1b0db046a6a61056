/** Whole runs of the decoder: any n distinct shards, in any order and among other traffic. */
module Runs {
  import opened Bytes
  import opened Cauchy
  import opened Fec
  import opened Generations
  import opened Recovery

  // ---- the datagrams of a generation ----

  function Data(t: Sent, i: nat): (d: seq<byte>)
    requires SentOk(t) && i < |t.frames|
  {
    DataDatagram(t.genId, i, t.k, t.frames[i])
  }

  function Parity(t: Sent, row: nat): (d: seq<byte>)
    requires SentOk(t) && row < t.parity
  {
    ParityDatagram(t.genId, t.reason, t.frames, t.parity, row)
  }

  // They are exactly what the encoder builds.
  lemma BuiltDatagrams(t: Sent)
    requires SentOk(t)
    ensures var g := Built(t.genId, t.reason, t.frames, t.k, t.parity);
            && |g.data| == |t.frames| && (forall i | 0 <= i < |t.frames| :: g.data[i] == Data(t, i))
            && g.parity == Parity(t, 0)
            && |g.extraParity| == t.parity - 1 && (forall r | 1 <= r < t.parity :: g.extraParity[r - 1] == Parity(t, r))
  {
    hide DataDatagram, ParityDatagram;
  }

  lemma DataReads(t: Sent, i: nat)
    requires SentOk(t) && i < |t.frames|
    ensures var d := Data(t, i); var e := ReadEnvelope(d);
            && IsShard(d) && e.genId == t.genId && e.index == i && e.k == t.k && e.parityCount == 0
            && d[ENVELOPE_SIZE..] == t.frames[i] && DataOk(e, t.frames[i])
  {
    hide ReadEnvelope, WriteEnvelope;
    var f := t.frames[i];
    var e := Envelope(Fec.MAGIC, t.genId, i, t.k, 0, |f|, 0);
    ReadWriteEnvelope(e, f);
    assert Data(t, i)[ENVELOPE_SIZE..] == f;
  }

  lemma ParityReads(t: Sent, row: nat)
    requires SentOk(t) && row < t.parity
    ensures var d := Parity(t, row); var e := ReadEnvelope(d);
            && IsShard(d) && e.genId == t.genId && e.index == N(t) + row && Announces(e, t)
            && d[ENVELOPE_SIZE..] == Shard(row, t.frames) && ParityOk(e, Shard(row, t.frames))
  {
    hide ReadEnvelope, WriteEnvelope, Shard;
    var shard := Shard(row, t.frames);
    var e := Envelope(Fec.MAGIC, t.genId, |t.frames| + row, |t.frames|, t.parity, MaxLength(t.frames) + 2, t.reason);
    ReadWriteEnvelope(e, shard);
    assert Parity(t, row)[ENVELOPE_SIZE..] == shard;
  }

  ghost predicate IsData(d: seq<byte>, t: Sent)
    requires SentOk(t)
  {
    exists i :: 0 <= i < |t.frames| && d == Data(t, i)
  }

  ghost predicate IsParity(d: seq<byte>, t: Sent)
    requires SentOk(t)
  {
    exists r :: 0 <= r < t.parity && d == Parity(t, r)
  }

  ghost predicate IsHonest(d: seq<byte>, t: Sent)
    requires SentOk(t)
  {
    IsData(d, t) || IsParity(d, t)
  }

  // Addressed to another slot, not a shard at all, or refused on its header.
  predicate Elsewhere(d: seq<byte>, t: Sent, slots: nat)
    requires slots > 0
  {
    || !IsShard(d)
    || ReadEnvelope(d).genId % slots != t.genId % slots
    || (!DataOk(ReadEnvelope(d), d[ENVELOPE_SIZE..]) && !ParityOk(ReadEnvelope(d), d[ENVELOPE_SIZE..]))
  }

  // A well-formed parity shard of the generation that announces another closure.
  ghost predicate Disagrees(d: seq<byte>, t: Sent) {
    && IsShard(d) && ParityOk(ReadEnvelope(d), d[ENVELOPE_SIZE..])
    && ReadEnvelope(d).genId == t.genId && !Announces(ReadEnvelope(d), t)
  }

  // ---- one datagram against the slot of the generation ----

  ghost predicate Untaken(g: Generation, t: Sent) { !g.active || g.genId != t.genId }

  lemma SlotForGeneration(slots: seq<Generation>, t: Sent, k: nat, now: nat)
    requires SlotsValid(slots) && SentOk(t) && 1 <= k <= MAX_GENERATION
    requires var g := slots[t.genId % |slots|]; Untaken(g, t) || Honest(g, t)
    ensures var g := slots[t.genId % |slots|]; var h := SlotFor(slots, t.genId, k, now);
            if Untaken(g, t) then Start(h, t, k) && h.received == [] && h.parities == [] && h.firstNs == now else h == g
  {
    hide Agrees, HonestParities;
  }

  // ---- what the slot knows ----

  // The shards that arrived suffice to rebuild the generation.
  predicate Enough(data: set<nat>, rows: set<nat>, n: nat) { |data| + |rows| >= n }

  // The indices below `n` outside `data`, in order.
  ghost function Lacking(n: nat, data: set<nat>): (a: seq<nat>)
    ensures forall i | 0 <= i < |a| :: a[i] < n && a[i] !in data
    ensures forall i, j | 0 <= i < j < |a| :: a[i] < a[j]
    ensures forall c | 0 <= c < n && c !in data :: c in a
  {
    if n == 0 then [] else
      var a := Lacking(n - 1, data);
      if n - 1 in data then a else a + [n - 1]
  }

  // The slot holds exactly the shards that arrived; once there were enough, every frame.
  ghost predicate Exact(g: Generation, t: Sent, data: set<nat>, rows: set<nat>)
    requires SentOk(t)
  {
    && Honest(g, t) && (forall r: nat :: HasRow(g, r) <==> r in rows) && (g.parityReceived <==> rows != {})
    && (if Enough(data, rows, |t.frames|) then AllReceived(g, t) else !g.recovered && forall i: nat :: Has(g, i) <==> i in data)
  }

  // The slot after a shard was stored and before recovery is tried: `before` says whether there were
  // enough shards without it.
  ghost predicate Pending(h: Generation, t: Sent, data: set<nat>, rows: set<nat>, before: bool)
    requires SentOk(t)
  {
    && Honest(h, t) && (forall r: nat :: HasRow(h, r) <==> r in rows) && (h.parityReceived <==> rows != {})
    && (if before then AllReceived(h, t) else !h.recovered && forall i: nat :: Has(h, i) <==> i in data)
  }

  ghost function Elements(s: seq<nat>): set<nat> { set x | x in s }

  ghost function Below(n: nat): (s: set<nat>)
    ensures |s| == n && forall x: nat :: x in s <==> x < n
  {
    if n == 0 then {} else Below(n - 1) + {n - 1}
  }

  lemma {:induction false} IncreasingSize(s: seq<nat>)
    requires forall i, j | 0 <= i < j < |s| :: s[i] < s[j]
    ensures |Elements(s)| == |s|
  {
    if |s| > 0 {
      var n := |s| - 1;
      IncreasingSize(s[..n]);
      assert s == s[..n] + [s[n]];
      assert Elements(s) == Elements(s[..n]) + {s[n]};
    }
  }

  lemma SubsetSize(a: set<nat>, b: set<nat>)
    requires a <= b
    ensures |a| <= |b| && (|a| == |b| ==> a == b)
  {
    assert b == a + (b - a);
  }

  lemma LackingSize(n: nat, data: set<nat>)
    requires forall i | i in data :: i < n
    ensures |Lacking(n, data)| == n - |data|
  {
    var a := Lacking(n, data);
    IncreasingSize(a);
    assert Elements(a) !! data && Elements(a) + data == Below(n);
  }

  lemma {:induction false} AbsentIsLacking(received: seq<bool>, n: nat, data: set<nat>)
    requires n <= |received| && forall i | 0 <= i < n :: received[i] <==> i in data
    ensures Absent(received, n) == Lacking(n, data)
  {
    hide Absent, Lacking;
    if n == 0 {
      NothingBelowZero(received, data);
    } else {
      AbsentIsLacking(received, n - 1, data);
      var a := Lacking(n - 1, data);
      assert Absent(received, n) == if received[n - 1] then a else a + [n - 1] by { AbsentStep(received, n); }
      assert Lacking(n, data) == if n - 1 in data then a else a + [n - 1] by { LackingStep(n - 1, data); }
    }
  }

  lemma NothingBelowZero(received: seq<bool>, data: set<nat>)
    ensures Absent(received, 0) == [] && Lacking(0, data) == []
  {}

  lemma LackingStep(n: nat, data: set<nat>)
    ensures Lacking(n + 1, data) == if n in data then Lacking(n, data) else Lacking(n, data) + [n]
  {}

  lemma {:induction false} AbsentNone(received: seq<bool>, n: nat)
    requires n <= |received| && forall i | 0 <= i < n :: received[i]
    ensures Absent(received, n) == []
  {
    if n > 0 { AbsentNone(received, n - 1); }
  }

  lemma HeldSize(parities: seq<seq<byte>>, rows: set<nat>)
    requires forall r: nat :: r in rows <==> r < |parities| && parities[r] != []
    ensures |Held(parities, |parities|)| == |rows|
  {
    var h := Held(parities, |parities|);
    IncreasingSize(h);
    assert Elements(h) == rows;
  }

  lemma NothingAbsent(g: Generation, t: Sent)
    requires SentOk(t) && Honest(g, t) && AllReceived(g, t)
    ensures !Solvable(g)
  {
    hide Agrees, HonestParities, Parities;
    if g.parityReceived { AbsentNone(g.received, g.k); }
  }

  lemma DataBelow(h: Generation, t: Sent, data: set<nat>)
    requires SentOk(t) && Honest(h, t) && forall i: nat :: Has(h, i) <==> i in data
    ensures forall i | i in data :: i < |t.frames|
  {
    hide HonestParities, Parities;
    forall i | i in data ensures i < |t.frames| {
      assert Has(h, i);
    }
  }

  lemma HonestSize(h: Generation, t: Sent)
    requires SentOk(t) && Honest(h, t) && h.parityReceived
    ensures h.k == |t.frames| <= |h.received|
  {
    hide Agrees, HonestParities, Parities;
  }

  // Recovery has enough rows exactly when enough shards arrived and a frame is missing.
  lemma SolvableExactly(h: Generation, t: Sent, data: set<nat>, rows: set<nat>)
    requires SentOk(t) && Pending(h, t, data, rows, false)
    ensures Valid(h) && (Solvable(h) <==> Enough(data, rows, |t.frames|) && |data| < |t.frames|)
    ensures |data| <= |t.frames|
    ensures Solvable(h) ==> h.parityReceived && h.k == |t.frames| && Absent(h.received, h.k) == Lacking(|t.frames|, data)
  {
    hide Honest, Lacking, Held, Absent, Valid, Below;
    HonestValid(h, t);
    DataBelow(h, t, data);
    var n := |t.frames|;
    LackingSize(n, data);
    SubsetSize(data, Below(n));
    if h.parityReceived {
      HonestSize(h, t);
      assert forall i | 0 <= i < n :: h.received[i] <==> Has(h, i);
      AbsentIsLacking(h.received, n, data);
      assert forall r: nat :: r in rows <==> HasRow(h, r);
      HeldSize(h.parities, rows);
    }
  }

  // What recovery publishes once a shard has arrived: the lacking frames, the moment there are enough.
  ghost function Rebuilt(t: Sent, before: bool, data: set<nat>, rows: set<nat>): (ps: seq<Publication>) {
    if Enough(data, rows, |t.frames|) && !before then Recoveries(t, Lacking(|t.frames|, data)) else []
  }

  lemma NoRecoveries(t: Sent)
    ensures Recoveries(t, []) == []
  {}

  lemma RecoverExact(h: Generation, t: Sent, data: set<nat>, rows: set<nat>, before: bool, accepts: Frame -> bool)
    requires SentOk(t) && AcceptsAll(accepts, t) && Pending(h, t, data, rows, before)
    requires before ==> Enough(data, rows, |t.frames|)
    ensures Valid(h)
    ensures var s := TryRecover(h, accepts);
            && s.ok && Exact(s.gen, t, data, rows) && s.published == Rebuilt(t, before, data, rows) && s.gen.firstNs == h.firstNs
  {
    hide Honest, Lacking, TryRecover, Solvable, Valid, Recoveries, Enough;
    HonestValid(h, t);
    RecoverStep(h, t, accepts);
    if before {
      NothingAbsent(h, t);
    } else {
      SolvableExactly(h, t, data, rows);
      NoRecoveries(t);
      if !Solvable(h) && Enough(data, rows, |t.frames|) {
        AllLackNothing(h, t, data);
      }
    }
  }

  lemma AllLackNothing(h: Generation, t: Sent, data: set<nat>)
    requires SentOk(t) && Honest(h, t) && |data| == |t.frames| && forall i: nat :: Has(h, i) <==> i in data
    ensures AllReceived(h, t) && Lacking(|t.frames|, data) == []
  {
    hide Honest;
    var n := |t.frames|;
    DataBelow(h, t, data);
    LackingSize(n, data);
    SubsetSize(data, Below(n));
    assert Has(h, n - 1) by { assert n - 1 in Below(n); }
    forall i | 0 <= i < n ensures h.received[i] {
      assert i in Below(n) && Has(h, i);
    }
  }

  // ---- one honest shard ----

  // A slot just taken, or one that holds exactly what arrived.
  ghost predicate Begun(h: Generation, t: Sent, k: nat, data: set<nat>, rows: set<nat>)
    requires SentOk(t)
  {
    if Start(h, t, k) then data == {} && rows == {} else Exact(h, t, data, rows)
  }

  ghost predicate Knows(g: Generation, t: Sent, data: set<nat>, rows: set<nat>)
    requires SentOk(t)
  {
    if Untaken(g, t) then data == {} && rows == {} else Exact(g, t, data, rows)
  }

  // Before the first shard nothing is held, and that is not enough.
  lemma StartHasNothing(h: Generation, t: Sent, k: nat)
    requires SentOk(t) && Start(h, t, k)
    ensures (forall i: nat :: !Has(h, i)) && (forall r: nat :: !HasRow(h, r)) && !h.parityReceived && !h.recovered
    ensures !Enough({}, {}, |t.frames|)
  {}

  lemma AllStillReceived(g: Generation, h: Generation, t: Sent)
    requires SentOk(t) && AllReceived(g, t) && forall i: nat :: Has(g, i) ==> Has(h, i)
    ensures AllReceived(h, t)
  {
    assert Has(g, |t.frames| - 1);
    forall i | 0 <= i < |t.frames| ensures h.received[i] {
      assert Has(g, i);
    }
  }

  lemma DataPending(g: Generation, t: Sent, i: nat, now: nat, data: set<nat>, rows: set<nat>)
    requires SentOk(t) && Begun(g, t, t.k, data, rows) && |g.data| == |g.received| && i < |t.frames| && i < |Ensure(g, t.k).data|
    requires Honest(AfterData(g, t, i, now), t)
    ensures Pending(AfterData(g, t, i, now), t, data + {i}, rows, Enough(data, rows, |t.frames|))
    ensures Enough(data, rows, |t.frames|) ==> Enough(data + {i}, rows, |t.frames|)
  {
    hide Honest, AfterData, Start, Has, HasRow, AllReceived;
    var h := AfterData(g, t, i, now);
    DataHas(g, t, i, now);
    SubsetSize(data, data + {i});
    if Start(g, t, t.k) {
      StartHasNothing(g, t, t.k);
    } else if Enough(data, rows, |t.frames|) {
      AllStillReceived(g, h, t);
    }
  }

  lemma ParityPending(g: Generation, e: Envelope, t: Sent, row: nat, now: nat, data: set<nat>, rows: set<nat>)
    requires SentOk(t) && Begun(g, t, |t.frames|, data, rows) && |g.data| == |g.received| && row < t.parity
    requires |Closed(g, e, now).parities| == MAX_PARITY && Honest(AfterParity(g, e, t, row, now), t)
    ensures Pending(AfterParity(g, e, t, row, now), t, data, rows + {row}, Enough(data, rows, |t.frames|))
    ensures Enough(data, rows, |t.frames|) ==> Enough(data, rows + {row}, |t.frames|)
  {
    hide Honest, AfterParity, Start, Has, HasRow, AllReceived, Closed;
    var h := AfterParity(g, e, t, row, now);
    ParityHas(g, e, t, row, now);
    SubsetSize(rows, rows + {row});
    if Start(g, t, |t.frames|) {
      StartHasNothing(g, t, |t.frames|);
    } else if Enough(data, rows, |t.frames|) {
      AllStillReceived(g, h, t);
    }
  }

  lemma SlotBegun(slots: seq<Generation>, t: Sent, k: nat, now: nat, data: set<nat>, rows: set<nat>)
    requires SlotsValid(slots) && SentOk(t) && 1 <= k <= MAX_GENERATION && Knows(slots[t.genId % |slots|], t, data, rows)
    ensures var g, h := slots[t.genId % |slots|], SlotFor(slots, t.genId, k, now);
            && Begun(h, t, k, data, rows) && (Start(h, t, k) || Honest(h, t)) && |h.data| == |h.received|
            && h.firstNs == if Untaken(g, t) then now else g.firstNs
  {
    hide Agrees, HonestParities, Enough, Has, HasRow;
    var g := slots[t.genId % |slots|];
    SlotForGeneration(slots, t, k, now);
    if !Untaken(g, t) {
      NotStart(g, t, k);
    }
  }

  lemma NotStart(g: Generation, t: Sent, k: nat)
    requires SentOk(t) && Honest(g, t)
    ensures !Start(g, t, k) && |g.data| == |g.received|
  {
    hide Agrees, HonestParities;
  }

  // The answer to an honest shard: it publishes the shard's own frame if it is a data shard, then
  // rebuilds what is lacking if this shard makes enough, and nothing else.
  ghost predicate AnsweredExactly(slots: seq<Generation>, r: Received, t: Sent, own: seq<Publication>, before: bool, data: set<nat>, rows: set<nat>, now: nat)
    requires SentOk(t) && |slots| > 0
  {
    && |r.slots| == |slots| && r.ok && r.published == own + Rebuilt(t, before, data, rows)
    && var g, h := slots[t.genId % |slots|], r.slots[t.genId % |slots|];
       Exact(h, t, data, rows) && h.firstNs == if Untaken(g, t) || g.firstNs == 0 then now else g.firstNs
  }

  lemma ReceiveHonestData(slots: seq<Generation>, t: Sent, i: nat, now: nat, accepts: Frame -> bool, data: set<nat>, rows: set<nat>)
    requires SlotsValid(slots) && SentOk(t) && i < |t.frames| && AcceptsAll(accepts, t)
    requires Knows(slots[t.genId % |slots|], t, data, rows)
    ensures AnsweredExactly(slots, Receive(slots, Data(t, i), now, accepts), t, [Publication(t.frames[i], false)],
              Enough(data, rows, |t.frames|), data + {i}, rows, now)
  {
    hide Data, ReadEnvelope, ReceiveData, ReceiveParity, Honest, Start, Valid, Exact, Rebuilt, Enough, Pending, TryRecover, Untaken, AfterData, Ensure, Has, HasRow;
    var d := Data(t, i);
    DataReads(t, i);
    SlotBegun(slots, t, t.k, now, data, rows);
    SlotUsable(slots, t.genId, t.k, now);
    var h := SlotFor(slots, t.genId, t.k, now);
    DataStep(h, ReadEnvelope(d), t, now, accepts);
    DataPending(h, t, i, now, data, rows);
    RecoverExact(AfterData(h, t, i, now), t, data + {i}, rows, Enough(data, rows, |t.frames|), accepts);
    DataHas(h, t, i, now);
  }

  lemma ReceiveHonestParity(slots: seq<Generation>, t: Sent, row: nat, now: nat, accepts: Frame -> bool, data: set<nat>, rows: set<nat>)
    requires SlotsValid(slots) && SentOk(t) && row < t.parity && AcceptsAll(accepts, t)
    requires Knows(slots[t.genId % |slots|], t, data, rows)
    ensures AnsweredExactly(slots, Receive(slots, Parity(t, row), now, accepts), t, [],
              Enough(data, rows, |t.frames|), data, rows + {row}, now)
  {
    hide Parity, Shard, ReadEnvelope, ReceiveData, ReceiveParity, Honest, Start, Valid, Exact, Rebuilt, Enough, Pending, TryRecover, Untaken,
      AfterParity, Closed, Has, HasRow;
    var d := Parity(t, row);
    ParityReads(t, row);
    SlotBegun(slots, t, N(t), now, data, rows);
    SlotUsable(slots, t.genId, N(t), now);
    var h, e := SlotFor(slots, t.genId, N(t), now), ReadEnvelope(d);
    ParityStep(h, e, t, row, now, accepts);
    ParityPending(h, e, t, row, now, data, rows);
    var before := Enough(data, rows, |t.frames|);
    RecoverExact(AfterParity(h, e, t, row, now), t, data, rows + {row}, before, accepts);
    ParityHas(h, e, t, row, now);
    assert [] + Rebuilt(t, before, data, rows + {row}) == Rebuilt(t, before, data, rows + {row});
  }

  // A datagram that is not an honest shard leaves the slot of the generation alone.
  lemma ForeignLeavesSlot(slots: seq<Generation>, d: seq<byte>, t: Sent, now: nat, accepts: Frame -> bool)
    requires SlotsValid(slots) && SentOk(t)
    requires
      || Elsewhere(d, t, |slots|)
      || (Disagrees(d, t) && var g := slots[t.genId % |slots|]; !Untaken(g, t) && Honest(g, t) && g.parityReceived)
    ensures var r := Receive(slots, d, now, accepts);
            |r.slots| == |slots| && r.slots[t.genId % |slots|] == slots[t.genId % |slots|]
  {
    hide ReadEnvelope, ReceiveData, ReceiveParity, Valid, Agrees, HonestParities;
    if Elsewhere(d, t, |slots|) {
      ReceiveKeepsValid(slots, d, now, accepts);
    } else {
      ConflictRefused(slots, d, now, accepts);
    }
  }

  // ---- runs ----

  // A datagram handed to the decoder, or a call that expires old generations.
  datatype Event = Arrival(datagram: seq<byte>, now: nat) | Expiry(now: nat)

  datatype Answer = Answer(ok: bool, published: seq<Publication>)

  datatype Trace = Trace(slots: seq<Generation>, answers: seq<Answer>)

  ghost function Handle(slots: seq<Generation>, e: Event, accepts: Frame -> bool): (r: Received)
    requires SlotsValid(slots)
    ensures SlotsValid(r.slots) && |r.slots| == |slots|
  {
    match e
    case Arrival(d, now) => ReceiveKeepsValid(slots, d, now, accepts); Receive(slots, d, now, accepts)
    case Expiry(now) => ExpiredValid(slots, now); Received(Expired(slots, now), true, [])
  }

  ghost function Run(slots: seq<Generation>, events: seq<Event>, accepts: Frame -> bool): (t: Trace)
    requires SlotsValid(slots)
    ensures SlotsValid(t.slots) && |t.slots| == |slots| && |t.answers| == |events|
  {
    if |events| == 0 then Trace(slots, [])
    else
      var n := |events| - 1;
      var before := Run(slots, events[..n], accepts);
      var r := Handle(before.slots, events[n], accepts);
      Trace(r.slots, before.answers + [Answer(r.ok, r.published)])
  }

  ghost predicate HonestEvent(e: Event, t: Sent)
    requires SentOk(t)
  {
    e.Arrival? && IsHonest(e.datagram, t)
  }

  // Event `i` is an honest shard at time `lo` or later, concerns another slot, disagrees with a closure
  // already received, or expires at a time when nothing that arrived since `lo` is old.
  ghost predicate Harmless(events: seq<Event>, i: nat, t: Sent, slots: nat, lo: nat)
    requires SentOk(t) && slots > 0 && i < |events|
  {
    match events[i]
    case Expiry(now) => now < lo + TTL
    case Arrival(d, now) =>
      || (IsHonest(d, t) && now >= lo)
      || Elsewhere(d, t, slots)
      || (Disagrees(d, t) && ParityBefore(events, t, i))
  }

  ghost predicate Schedule(events: seq<Event>, t: Sent, slots: nat, lo: nat)
    requires SentOk(t) && slots > 0
  {
    forall i | 0 <= i < |events| :: Harmless(events, i, t, slots, lo)
  }

  ghost predicate ParityBefore(events: seq<Event>, t: Sent, i: nat)
    requires SentOk(t) && i <= |events|
  {
    exists j :: 0 <= j < i && events[j].Arrival? && IsParity(events[j].datagram, t)
  }

  // The distinct data and parity shards among the events.
  ghost function GotData(events: seq<Event>, t: Sent): set<nat>
    requires SentOk(t)
  {
    set i | 0 <= i < |t.frames| && Arrived(events, Data(t, i))
  }

  ghost function GotRows(events: seq<Event>, t: Sent): set<nat>
    requires SentOk(t)
  {
    set r | 0 <= r < t.parity && Arrived(events, Parity(t, r))
  }

  ghost predicate Arrived(events: seq<Event>, d: seq<byte>) {
    exists j :: 0 <= j < |events| && Brings(events[j], d)
  }

  ghost predicate Brings(e: Event, d: seq<byte>) { e.Arrival? && e.datagram == d }

  ghost predicate EnoughOf(events: seq<Event>, t: Sent)
    requires SentOk(t)
  {
    Enough(GotData(events, t), GotRows(events, t), |t.frames|)
  }

  // The frame was published in answer to some honest shard.
  ghost predicate Emitted(events: seq<Event>, answers: seq<Answer>, t: Sent, f: Frame)
    requires SentOk(t) && |events| == |answers|
  {
    exists j :: 0 <= j < |events| && HonestEvent(events[j], t) && Publishes(answers[j].published, f)
  }

  // What the answer to the honest shard of event `j` publishes: its own frame if it is a data shard,
  // then, at the one moment when enough shards have arrived, the frames whose data shards have not.
  ghost function Expected(events: seq<Event>, t: Sent, j: nat): (ps: seq<Publication>)
    requires SentOk(t) && j < |events| && HonestEvent(events[j], t)
  {
    var d, upTo := events[j].datagram, events[..j + 1];
    OwnFrame(d, t) + Rebuilt(t, EnoughOf(events[..j], t), GotData(upTo, t), GotRows(upTo, t))
  }

  ghost function OwnFrame(d: seq<byte>, t: Sent): (ps: seq<Publication>)
    requires SentOk(t)
  {
    if IsData(d, t) && |d| >= ENVELOPE_SIZE then [Publication(d[ENVELOPE_SIZE..], false)] else []
  }

  ghost predicate AnswersExact(events: seq<Event>, answers: seq<Answer>, t: Sent)
    requires SentOk(t) && |events| == |answers|
  {
    forall j | 0 <= j < |events| && HonestEvent(events[j], t) :: answers[j] == Answer(true, Expected(events, t, j))
  }

  // ---- what arrives ----

  lemma ArrivedSnoc(events: seq<Event>, e: Event, d: seq<byte>)
    ensures Arrived(events + [e], d) <==> Arrived(events, d) || Brings(e, d)
  {
    hide Brings;
    var all := events + [e];
    if Arrived(events, d) {
      var j :| 0 <= j < |events| && Brings(events[j], d);
      assert all[j] == events[j];
    }
    if Brings(e, d) {
      assert all[|events|] == e;
    }
  }

  lemma GotSnoc(events: seq<Event>, e: Event, t: Sent)
    requires SentOk(t)
    ensures GotData(events + [e], t) == GotData(events, t) + (set i | 0 <= i < |t.frames| && Brings(e, Data(t, i)))
    ensures GotRows(events + [e], t) == GotRows(events, t) + (set r | 0 <= r < t.parity && Brings(e, Parity(t, r)))
  {
    hide Data, Parity, Brings, Arrived;
    forall d: seq<byte> ensures Arrived(events + [e], d) <==> Arrived(events, d) || Brings(e, d) {
      ArrivedSnoc(events, e, d);
    }
  }

  // A data shard brings its own index and no parity row.
  lemma DataBrings(events: seq<Event>, e: Event, t: Sent, i: nat)
    requires SentOk(t) && i < |t.frames| && Brings(e, Data(t, i))
    ensures GotData(events + [e], t) == GotData(events, t) + {i} && GotRows(events + [e], t) == GotRows(events, t)
    ensures !IsParity(e.datagram, t) && OwnFrame(e.datagram, t) == [Publication(t.frames[i], false)]
  {
    hide Data, Parity, ReadEnvelope, Arrived;
    GotSnoc(events, e, t);
    DataReads(t, i);
    forall q | 0 <= q < |t.frames| && Brings(e, Data(t, q)) ensures q == i { DataReads(t, q); }
    forall r | 0 <= r < t.parity ensures !Brings(e, Parity(t, r)) { ParityReads(t, r); }
    assert (set q | 0 <= q < |t.frames| && Brings(e, Data(t, q))) == {i};
  }

  lemma ParityBrings(events: seq<Event>, e: Event, t: Sent, row: nat)
    requires SentOk(t) && row < t.parity && Brings(e, Parity(t, row))
    ensures GotRows(events + [e], t) == GotRows(events, t) + {row} && GotData(events + [e], t) == GotData(events, t)
    ensures OwnFrame(e.datagram, t) == []
  {
    hide Data, Parity, ReadEnvelope, Arrived;
    GotSnoc(events, e, t);
    ParityReads(t, row);
    forall i | 0 <= i < |t.frames| ensures !Brings(e, Data(t, i)) { DataReads(t, i); }
    forall r | 0 <= r < t.parity && Brings(e, Parity(t, r)) ensures r == row { ParityReads(t, r); }
    assert (set r | 0 <= r < t.parity && Brings(e, Parity(t, r))) == {row};
  }

  lemma ForeignBrings(events: seq<Event>, e: Event, t: Sent)
    requires SentOk(t) && !HonestEvent(e, t)
    ensures GotData(events + [e], t) == GotData(events, t) && GotRows(events + [e], t) == GotRows(events, t)
  {
    hide Data, Parity, Arrived;
    GotSnoc(events, e, t);
  }

  // ---- over every schedule ----

  // The time of the first honest shard that came at a clock other than zero.
  ghost function Dated(events: seq<Event>, t: Sent): (now: nat)
    requires SentOk(t)
  {
    if |events| == 0 then 0 else
      var n := |events| - 1;
      var date := Dated(events[..n], t);
      if date == 0 && HonestEvent(events[n], t) then events[n].now else date
  }

  lemma DatedSnoc(events: seq<Event>, e: Event, t: Sent)
    requires SentOk(t)
    ensures Dated(events + [e], t) == if Dated(events, t) == 0 && HonestEvent(e, t) then e.now else Dated(events, t)
  {
    hide HonestEvent;
    assert (events + [e])[..|events|] == events;
  }

  // The slot knows what arrived; a taken slot is dated by its first shard, at `lo` or later.
  ghost predicate Tracks(g: Generation, events: seq<Event>, t: Sent, lo: nat)
    requires SentOk(t)
  {
    && Knows(g, t, GotData(events, t), GotRows(events, t))
    && (if Untaken(g, t) then Dated(events, t) == 0 else g.firstNs == Dated(events, t) >= lo)
  }

  lemma TracksNothing(g: Generation, t: Sent, lo: nat)
    requires SentOk(t) && Untaken(g, t)
    ensures Tracks(g, [], t, lo)
  {}

  // An expiry too early for the generation leaves its slot, or what was not its slot, as it was.
  lemma ExpiryTracks(slots: seq<Generation>, now: nat, events: seq<Event>, t: Sent, lo: nat)
    requires SlotsValid(slots) && SentOk(t) && now < lo + TTL && Tracks(slots[t.genId % |slots|], events, t, lo)
    ensures Tracks(Expired(slots, now)[t.genId % |slots|], events + [Expiry(now)], t, lo)
  {
    hide Exact, GotData, GotRows, Dated;
    ForeignBrings(events, Expiry(now), t);
    DatedSnoc(events, Expiry(now), t);
  }

  lemma ParityMeansClosed(g: Generation, events: seq<Event>, t: Sent, lo: nat)
    requires SentOk(t) && Tracks(g, events, t, lo) && ParityBefore(events, t, |events|)
    ensures !Untaken(g, t) && Honest(g, t) && g.parityReceived
  {
    hide Honest, Parity, Data, HasRow, Has, AllReceived, Enough;
    var j :| 0 <= j < |events| && events[j].Arrival? && IsParity(events[j].datagram, t);
    var r :| 0 <= r < t.parity && events[j].datagram == Parity(t, r);
    assert Brings(events[j], Parity(t, r));
    assert r in GotRows(events, t);
  }

  lemma HonestTracks(slots: seq<Generation>, events: seq<Event>, e: Event, t: Sent, lo: nat, accepts: Frame -> bool)
    requires SlotsValid(slots) && SentOk(t) && AcceptsAll(accepts, t)
    requires Tracks(slots[t.genId % |slots|], events, t, lo) && HonestEvent(e, t) && e.now >= lo
    ensures var r, all := Handle(slots, e, accepts), events + [e];
            && Tracks(r.slots[t.genId % |slots|], all, t, lo) && r.ok
            && r.published == OwnFrame(e.datagram, t) + Rebuilt(t, EnoughOf(events, t), GotData(all, t), GotRows(all, t))
  {
    hide Data, Parity, Receive, Exact, Knows, Rebuilt, Enough, GotData, GotRows, OwnFrame, Untaken, Dated;
    DatedSnoc(events, e, t);
    var data, rows := GotData(events, t), GotRows(events, t);
    if IsData(e.datagram, t) {
      var i :| 0 <= i < |t.frames| && e.datagram == Data(t, i);
      DataBrings(events, e, t, i);
      ReceiveHonestData(slots, t, i, e.now, accepts, data, rows);
    } else {
      var row :| 0 <= row < t.parity && e.datagram == Parity(t, row);
      ParityBrings(events, e, t, row);
      ReceiveHonestParity(slots, t, row, e.now, accepts, data, rows);
    }
    ExactTaken(Handle(slots, e, accepts).slots[t.genId % |slots|], t, GotData(events + [e], t), GotRows(events + [e], t));
    ExactKnows(Handle(slots, e, accepts).slots[t.genId % |slots|], t, GotData(events + [e], t), GotRows(events + [e], t));
  }

  lemma ExactTaken(g: Generation, t: Sent, data: set<nat>, rows: set<nat>)
    requires SentOk(t) && Exact(g, t, data, rows)
    ensures !Untaken(g, t)
  {
    hide Agrees, HonestParities, Has, HasRow, Enough, Valid;
  }

  lemma ExactKnows(g: Generation, t: Sent, data: set<nat>, rows: set<nat>)
    requires SentOk(t) && Exact(g, t, data, rows)
    ensures Knows(g, t, data, rows)
  {
    hide Agrees, HonestParities, Has, HasRow, Enough, Valid;
  }

  lemma ForeignTracks(slots: seq<Generation>, events: seq<Event>, e: Event, t: Sent, lo: nat, accepts: Frame -> bool)
    requires SlotsValid(slots) && SentOk(t) && e.Arrival? && !IsHonest(e.datagram, t)
    requires Tracks(slots[t.genId % |slots|], events, t, lo)
    requires Elsewhere(e.datagram, t, |slots|) || (Disagrees(e.datagram, t) && ParityBefore(events, t, |events|))
    ensures Tracks(Handle(slots, e, accepts).slots[t.genId % |slots|], events + [e], t, lo)
  {
    hide Receive, Exact, GotData, GotRows, Elsewhere, Disagrees, IsHonest, ParityBefore, Dated;
    DatedSnoc(events, e, t);
    if !Elsewhere(e.datagram, t, |slots|) {
      ParityMeansClosed(slots[t.genId % |slots|], events, t, lo);
    }
    ForeignLeavesSlot(slots, e.datagram, t, e.now, accepts);
    ForeignBrings(events, e, t);
  }

  lemma StepTracks(slots: seq<Generation>, events: seq<Event>, e: Event, t: Sent, lo: nat, accepts: Frame -> bool)
    requires SlotsValid(slots) && SentOk(t) && AcceptsAll(accepts, t)
    requires Tracks(slots[t.genId % |slots|], events, t, lo) && Harmless(events + [e], |events|, t, |slots|, lo)
    ensures var r, all := Handle(slots, e, accepts), events + [e];
            && Tracks(r.slots[t.genId % |slots|], all, t, lo)
            && (HonestEvent(e, t) ==>
                  r.ok && r.published == OwnFrame(e.datagram, t) + Rebuilt(t, EnoughOf(events, t), GotData(all, t), GotRows(all, t)))
  {
    hide Tracks, Receive, Elsewhere, Disagrees, IsHonest, ParityBefore, Rebuilt, OwnFrame, EnoughOf, GotData, GotRows;
    match e
    case Expiry(now) => ExpiryTracks(slots, now, events, t, lo);
    case Arrival(d, now) =>
      if IsHonest(d, t) {
        HonestNotElsewhere(d, t, |slots|);
        HonestTracks(slots, events, e, t, lo, accepts);
      } else {
        if ParityBefore(events + [e], t, |events|) { ParityBeforeInit(events, e, t); }
        ForeignTracks(slots, events, e, t, lo, accepts);
      }
  }

  // An honest shard concerns the generation's slot and agrees with its closure.
  lemma HonestNotElsewhere(d: seq<byte>, t: Sent, slots: nat)
    requires SentOk(t) && slots > 0 && IsHonest(d, t)
    ensures !Elsewhere(d, t, slots) && !Disagrees(d, t)
  {
    hide Data, Parity, ReadEnvelope;
    if IsData(d, t) {
      var i :| 0 <= i < |t.frames| && d == Data(t, i);
      DataReads(t, i);
    } else {
      var r :| 0 <= r < t.parity && d == Parity(t, r);
      ParityReads(t, r);
    }
  }

  lemma ParityBeforeInit(events: seq<Event>, e: Event, t: Sent)
    requires SentOk(t) && ParityBefore(events + [e], t, |events|)
    ensures ParityBefore(events, t, |events|)
  {
    hide IsParity;
    var j :| 0 <= j < |events| && (events + [e])[j].Arrival? && IsParity((events + [e])[j].datagram, t);
    assert (events + [e])[j] == events[j];
  }

  lemma HarmlessInit(events: seq<Event>, t: Sent, slots: nat, lo: nat)
    requires SentOk(t) && slots > 0 && |events| > 0 && Schedule(events, t, slots, lo)
    ensures Schedule(events[..|events| - 1], t, slots, lo)
  {
    hide IsHonest, Elsewhere, Disagrees, IsParity;
    var n := |events| - 1;
    forall i | 0 <= i < n ensures Harmless(events[..n], i, t, slots, lo) {
      assert Harmless(events, i, t, slots, lo);
      if ParityBefore(events, t, i) {
        var j :| 0 <= j < i && events[j].Arrival? && IsParity(events[j].datagram, t);
        assert events[..n][j] == events[j];
      }
    }
  }

  lemma ExpectedPrefix(events: seq<Event>, e: Event, t: Sent, j: nat)
    requires SentOk(t) && j < |events| && HonestEvent(events[j], t)
    ensures (events + [e])[j] == events[j] && Expected(events + [e], t, j) == Expected(events, t, j)
  {
    hide OwnFrame, Rebuilt, EnoughOf, GotData, GotRows, HonestEvent;
    assert (events + [e])[..j + 1] == events[..j + 1] && (events + [e])[..j] == events[..j];
  }

  lemma AnswersSnoc(events: seq<Event>, answers: seq<Answer>, e: Event, a: Answer, t: Sent)
    requires SentOk(t) && |events| == |answers| && AnswersExact(events, answers, t)
    requires HonestEvent(e, t) ==>
      a == Answer(true, OwnFrame(e.datagram, t) + Rebuilt(t, EnoughOf(events, t), GotData(events + [e], t), GotRows(events + [e], t)))
    ensures AnswersExact(events + [e], answers + [a], t)
  {
    hide OwnFrame, Rebuilt, EnoughOf, GotData, GotRows, HonestEvent;
    var all, xs := events + [e], answers + [a];
    assert all[..|events|] == events && all[..|events| + 1] == all;
    forall j | 0 <= j < |all| && HonestEvent(all[j], t) ensures xs[j] == Answer(true, Expected(all, t, j)) {
      if j < |events| {
        ExpectedPrefix(events, e, t, j);
      }
    }
  }

  // Over every schedule the slot knows exactly what arrived, and every answer is exactly as expected.
  lemma {:induction false} RunTracks(slots: seq<Generation>, events: seq<Event>, t: Sent, lo: nat, accepts: Frame -> bool)
    requires SlotsValid(slots) && SentOk(t) && AcceptsAll(accepts, t)
    requires Untaken(slots[t.genId % |slots|], t) && Schedule(events, t, |slots|, lo)
    ensures var r := Run(slots, events, accepts);
            Tracks(r.slots[t.genId % |slots|], events, t, lo) && AnswersExact(events, r.answers, t)
  {
    hide Tracks, AnswersExact, Handle, Harmless, Rebuilt, OwnFrame, EnoughOf, GotData, GotRows, HonestEvent, Untaken;
    if |events| == 0 {
      TracksNothing(slots[t.genId % |slots|], t, lo);
      NoAnswers(t);
    } else {
      var n := |events| - 1;
      var prior, e := events[..n], events[n];
      assert events == prior + [e];
      HarmlessInit(events, t, |slots|, lo);
      RunTracks(slots, prior, t, lo, accepts);
      var before := Run(slots, prior, accepts);
      StepTracks(before.slots, prior, e, t, lo, accepts);
      var r := Handle(before.slots, e, accepts);
      AnswersSnoc(prior, before.answers, e, Answer(r.ok, r.published), t);
    }
  }

  lemma NoAnswers(t: Sent)
    requires SentOk(t)
    ensures AnswersExact([], [], t)
  {}

  // ---- the results ----

  lemma PublishesMore(ps: seq<Publication>, qs: seq<Publication>, f: Frame)
    ensures Publishes(ps, f) || Publishes(qs, f) ==> Publishes(ps + qs, f)
  {
    if Publishes(ps, f) {
      var i :| 0 <= i < |ps| && ps[i].frame == f;
      assert (ps + qs)[i].frame == f;
    } else if Publishes(qs, f) {
      var i :| 0 <= i < |qs| && qs[i].frame == f;
      assert (ps + qs)[|ps| + i].frame == f;
    }
  }

  lemma RecoveriesPublish(t: Sent, indices: seq<nat>, i: nat)
    requires (forall q | 0 <= q < |indices| :: indices[q] < |t.frames|) && i in indices
    ensures i < |t.frames| && Publishes(Recoveries(t, indices), t.frames[i])
  {
    var q :| 0 <= q < |indices| && indices[q] == i;
    assert Recoveries(t, indices)[q].frame == t.frames[i];
  }

  // A frame whose data shard arrived was published with it.
  lemma DataEmits(events: seq<Event>, answers: seq<Answer>, t: Sent, i: nat)
    requires SentOk(t) && |events| == |answers| && AnswersExact(events, answers, t) && i in GotData(events, t)
    ensures i < |t.frames| && Emitted(events, answers, t, t.frames[i])
  {
    hide Data, Parity, Rebuilt, EnoughOf, GotRows, Publishes, OwnFrame;
    var j :| 0 <= j < |events| && Brings(events[j], Data(t, i));
    assert IsData(events[j].datagram, t);
    assert HonestEvent(events[j], t);
    DataBrings([], events[j], t, i);
    var own, all := OwnFrame(events[j].datagram, t), Expected(events, t, j);
    OwnPublishes(t.frames[i]);
    PublishesMore(own, all[|own|..], t.frames[i]);
    assert own + all[|own|..] == all;
  }

  lemma OwnPublishes(f: Frame)
    ensures Publishes([Publication(f, false)], f)
  {
    assert [Publication(f, false)][0].frame == f;
  }

  lemma EmittedSnoc(events: seq<Event>, answers: seq<Answer>, t: Sent, f: Frame)
    requires SentOk(t) && |events| == |answers| > 0
    ensures var n := |events| - 1;
            && (Emitted(events[..n], answers[..n], t, f) ==> Emitted(events, answers, t, f))
            && (HonestEvent(events[n], t) && Publishes(answers[n].published, f) ==> Emitted(events, answers, t, f))
  {
    hide HonestEvent, Publishes;
    var n := |events| - 1;
    if Emitted(events[..n], answers[..n], t, f) {
      var j :| 0 <= j < n && HonestEvent(events[..n][j], t) && Publishes(answers[..n][j].published, f);
      assert events[j] == events[..n][j] && answers[j] == answers[..n][j];
    }
  }

  lemma AnswersInit(events: seq<Event>, answers: seq<Answer>, t: Sent)
    requires SentOk(t) && |events| == |answers| > 0 && AnswersExact(events, answers, t)
    ensures var n := |events| - 1; AnswersExact(events[..n], answers[..n], t)
  {
    hide OwnFrame, Rebuilt, EnoughOf, GotData, GotRows, HonestEvent;
    var n := |events| - 1;
    forall j | 0 <= j < n && HonestEvent(events[..n][j], t) ensures answers[..n][j] == Answer(true, Expected(events[..n], t, j)) {
      ExpectedPrefix(events[..n], events[n], t, j);
      assert events[..n] + [events[n]] == events;
    }
  }

  // Once enough shards have arrived, every frame has been published.
  lemma {:induction false} EnoughEmits(events: seq<Event>, answers: seq<Answer>, t: Sent, i: nat)
    requires SentOk(t) && |events| == |answers| && AnswersExact(events, answers, t) && i < |t.frames| && EnoughOf(events, t)
    ensures Emitted(events, answers, t, t.frames[i])
  {
    hide AnswersExact, GotData, GotRows, Enough, HonestEvent, Emitted, Publishes, Expected;
    if i in GotData(events, t) {
      DataEmits(events, answers, t, i);
    } else {
      NotEnoughAtFirst(t);
      assert |events| == 0 ==> events == [];
      var n := |events| - 1;
      EmittedSnoc(events, answers, t, t.frames[i]);
      if EnoughOf(events[..n], t) {
        AnswersInit(events, answers, t);
        EnoughEmits(events[..n], answers[..n], t, i);
      } else {
        LastEmits(events, answers, t, i);
      }
    }
  }

  lemma NotEnoughAtFirst(t: Sent)
    requires SentOk(t)
    ensures !EnoughOf([], t)
  {
    assert GotData([], t) == {} && GotRows([], t) == {};
  }

  // The shard that makes enough publishes every frame still lacking.
  lemma LastEmits(events: seq<Event>, answers: seq<Answer>, t: Sent, i: nat)
    requires SentOk(t) && |events| == |answers| > 0 && AnswersExact(events, answers, t) && i < |t.frames| && i !in GotData(events, t)
    requires EnoughOf(events, t) && !EnoughOf(events[..|events| - 1], t)
    ensures var n := |events| - 1; HonestEvent(events[n], t) && Publishes(answers[n].published, t.frames[i])
  {
    hide GotData, GotRows, IsHonest, OwnFrame, Recoveries, Lacking, Publishes;
    var n := |events| - 1;
    assert events[..n] + [events[n]] == events && events[..n + 1] == events;
    if !HonestEvent(events[n], t) {
      ForeignBrings(events[..n], events[n], t);
    }
    var lacking := Lacking(|t.frames|, GotData(events, t));
    RecoveriesPublish(t, lacking, i);
    PublishesMore(OwnFrame(events[n].datagram, t), Recoveries(t, lacking), t.frames[i]);
  }

  // The main result. Over every schedule the answer to each honest shard is exactly the expected one:
  // its own frame if it is a data shard, and at the one moment when enough shards have arrived the frames
  // still lacking, nothing else. As soon as n distinct shards have arrived every frame has been published.
  lemma AnyEnoughShardsRecover(slots: seq<Generation>, events: seq<Event>, t: Sent, lo: nat, accepts: Frame -> bool)
    requires SlotsValid(slots) && SentOk(t) && AcceptsAll(accepts, t)
    requires Untaken(slots[t.genId % |slots|], t) && Schedule(events, t, |slots|, lo)
    ensures AnswersExact(events, Run(slots, events, accepts).answers, t)
    ensures |GotData(events, t)| + |GotRows(events, t)| >= |t.frames| ==>
              forall i | 0 <= i < |t.frames| :: Emitted(events, Run(slots, events, accepts).answers, t, t.frames[i])
  {
    hide Run, Schedule, AnswersExact, Emitted, GotData, GotRows, Tracks, Untaken;
    RunTracks(slots, events, t, lo, accepts);
    if EnoughOf(events, t) {
      forall i | 0 <= i < |t.frames| ensures Emitted(events, Run(slots, events, accepts).answers, t, t.frames[i]) {
        EnoughEmits(events, Run(slots, events, accepts).answers, t, i);
      }
    }
  }

  // Over every schedule a taken slot carries the time of the generation's first shard, and the next expiry
  // drops it exactly when that was a full time-to-live ago.
  lemma ExpiresByFirstShard(slots: seq<Generation>, events: seq<Event>, t: Sent, lo: nat, accepts: Frame -> bool, now: nat)
    requires SlotsValid(slots) && SentOk(t) && AcceptsAll(accepts, t)
    requires Untaken(slots[t.genId % |slots|], t) && Schedule(events, t, |slots|, lo)
    ensures var i := t.genId % |slots|;
            var g, h := Run(slots, events, accepts).slots[i], Run(slots, events + [Expiry(now)], accepts).slots[i];
            !Untaken(g, t) ==> g.firstNs == Dated(events, t) && h == if now >= Dated(events, t) + 1_000_000_000 then EMPTY else g
  {
    hide Knows, Schedule, AnswersExact, Receive, Dated;
    RunTracks(slots, events, t, lo, accepts);
    assert (events + [Expiry(now)])[..|events|] == events;
  }

  // With a clock past zero, that first shard is the first honest one of all.
  lemma {:induction false} DatedFirst(events: seq<Event>, t: Sent, j: nat)
    requires SentOk(t) && j < |events| && HonestEvent(events[j], t) && events[j].now > 0
    requires forall i | 0 <= i < j :: !HonestEvent(events[i], t)
    ensures Dated(events, t) == events[j].now
  {
    hide HonestEvent;
    var n := |events| - 1;
    if j < n {
      DatedFirst(events[..n], t, j);
    } else {
      NotDated(events[..n], t);
    }
  }

  lemma {:induction false} NotDated(events: seq<Event>, t: Sent)
    requires SentOk(t) && forall i | 0 <= i < |events| :: !HonestEvent(events[i], t)
    ensures Dated(events, t) == 0
  {
    hide HonestEvent;
    if |events| > 0 {
      NotDated(events[..|events| - 1], t);
    }
  }

  // ---- recovery happens once ----

  ghost predicate Recovers(a: Answer) { exists q :: 0 <= q < |a.published| && a.published[q].recovered }

  lemma GotMonotone(events: seq<Event>, a: nat, b: nat, t: Sent)
    requires SentOk(t) && a <= b <= |events|
    ensures GotData(events[..a], t) <= GotData(events[..b], t) && GotRows(events[..a], t) <= GotRows(events[..b], t)
    ensures EnoughOf(events[..a], t) ==> EnoughOf(events[..b], t)
  {
    hide Data, Parity, Brings;
    forall d | Arrived(events[..a], d) ensures Arrived(events[..b], d) {
      var j :| 0 <= j < a && Brings(events[..a][j], d);
      assert events[..b][j] == events[..a][j];
    }
    SubsetSize(GotData(events[..a], t), GotData(events[..b], t));
    SubsetSize(GotRows(events[..a], t), GotRows(events[..b], t));
  }

  // An answer with a recovered frame comes at the moment when enough shards have arrived.
  lemma RecoversWhenEnough(events: seq<Event>, answers: seq<Answer>, t: Sent, j: nat)
    requires SentOk(t) && |events| == |answers| && AnswersExact(events, answers, t) && j < |events|
    requires HonestEvent(events[j], t) && Recovers(answers[j])
    ensures EnoughOf(events[..j + 1], t) && !EnoughOf(events[..j], t)
  {
    hide GotData, GotRows, HonestEvent, Recoveries, Lacking, IsData, Enough;
  }

  // The answer recovers every frame whose data shard has not arrived by then, each once and in order.
  ghost predicate RecoversLacking(events: seq<Event>, a: Answer, t: Sent, j: nat)
    requires SentOk(t) && j < |events| && HonestEvent(events[j], t)
  {
    a.published == OwnFrame(events[j].datagram, t) + Recoveries(t, Lacking(|t.frames|, GotData(events[..j + 1], t)))
  }

  // Over every schedule at most one answer recovers anything, and it recovers exactly what is lacking.
  lemma RecoveredOnce(slots: seq<Generation>, events: seq<Event>, t: Sent, lo: nat, accepts: Frame -> bool)
    requires SlotsValid(slots) && SentOk(t) && AcceptsAll(accepts, t)
    requires Untaken(slots[t.genId % |slots|], t) && Schedule(events, t, |slots|, lo)
    ensures var answers := Run(slots, events, accepts).answers;
            && (forall j | 0 <= j < |events| && HonestEvent(events[j], t) && Recovers(answers[j]) :: RecoversLacking(events, answers[j], t, j))
            && (forall a, b | 0 <= a < b < |events| && HonestEvent(events[a], t) && HonestEvent(events[b], t) ::
                  !(Recovers(answers[a]) && Recovers(answers[b])))
  {
    hide Run, Schedule, AnswersExact, Tracks, Untaken, HonestEvent, Recovers, RecoversLacking;
    RunTracks(slots, events, t, lo, accepts);
    var answers := Run(slots, events, accepts).answers;
    forall j | 0 <= j < |events| && HonestEvent(events[j], t) && Recovers(answers[j]) ensures RecoversLacking(events, answers[j], t, j) {
      RecoversExpected(events, answers, t, j);
    }
    forall a, b | 0 <= a < b < |events| && HonestEvent(events[a], t) && HonestEvent(events[b], t)
      ensures !(Recovers(answers[a]) && Recovers(answers[b]))
    {
      RecoversAgain(events, answers, t, a, b);
    }
  }

  lemma RecoversExpected(events: seq<Event>, answers: seq<Answer>, t: Sent, j: nat)
    requires SentOk(t) && |events| == |answers| && AnswersExact(events, answers, t) && j < |events|
    requires HonestEvent(events[j], t) && Recovers(answers[j])
    ensures RecoversLacking(events, answers[j], t, j)
  {
    hide AnswersExact, GotData, GotRows, HonestEvent, Recovers, OwnFrame, Recoveries, Lacking, Enough;
    RecoversWhenEnough(events, answers, t, j);
    AnswerAt(events, answers, t, j);
  }

  lemma RecoversAgain(events: seq<Event>, answers: seq<Answer>, t: Sent, a: nat, b: nat)
    requires SentOk(t) && |events| == |answers| && AnswersExact(events, answers, t) && a < b < |events|
    requires HonestEvent(events[a], t) && HonestEvent(events[b], t)
    ensures !(Recovers(answers[a]) && Recovers(answers[b]))
  {
    hide AnswersExact, GotData, GotRows, HonestEvent, Recovers, Enough;
    GotMonotone(events, a + 1, b, t);
    if Recovers(answers[b]) {
      RecoversWhenEnough(events, answers, t, b);
      if Recovers(answers[a]) {
        RecoversWhenEnough(events, answers, t, a);
      }
    }
  }

  lemma AnswerAt(events: seq<Event>, answers: seq<Answer>, t: Sent, j: nat)
    requires SentOk(t) && |events| == |answers| && AnswersExact(events, answers, t) && j < |events| && HonestEvent(events[j], t)
    ensures answers[j].published == Expected(events, t, j)
  {
    hide HonestEvent, Expected;
  }
}
