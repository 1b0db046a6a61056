/** From the sender's generations to the receiver's ring. */
module Pipeline {
  import opened Bytes
  import opened Options
  import opened Fec
  import opened Generations
  import opened Recovery
  import Runs
  import opened Receiver
  import Message
  import Dedupe

  // The state after further events.
  ghost function After(c: Config, st: State, es: seq<Event>): (r: State)
    requires Inv(c, st)
    ensures Inv(c, r)
  {
    if |es| == 0 then st
    else
      var n := |es| - 1;
      ReactKeeps(c, After(c, st, es[..n]), es[n]);
      React(c, After(c, st, es[..n]), es[n])
  }

  ghost predicate Addressed(e: Event, key: Key) {
    e.Datagram? && !e.truncated && Unwrap(e.bytes).Some? && Unwrap(e.bytes).value.0 == key
  }

  // What one event is to the decoder of an identity: its body, an expiry, or nothing.
  ghost function Seen(e: Event, key: Key): (r: seq<Runs.Event>) {
    if e.Expire? then [Runs.Expiry(e.now)]
    else if Addressed(e, key) then [Runs.Arrival(Unwrap(e.bytes).value.1, e.now)]
    else []
  }

  ghost function Bodies(es: seq<Event>, key: Key): (r: seq<Runs.Event>) {
    if |es| == 0 then [] else Bodies(es[..|es| - 1], key) + Seen(es[|es| - 1], key)
  }

  // Whenever a datagram of the identity comes, its stream is known or there is room for it.
  ghost predicate Room(c: Config, st: State, es: seq<Event>, key: Key)
    requires Inv(c, st)
  {
    forall i | 0 <= i < |es| && Addressed(es[i], key) ::
      key in After(c, st, es[..i]).streams || |After(c, st, es[..i]).streams| < c.limit
  }

  // ---- what an identity is offered ----

  ghost function Somes(ms: seq<Message.Native>): (r: seq<Option<Message.Native>>)
    ensures |r| == |ms| && forall i | 0 <= i < |ms| :: r[i] == Some(ms[i])
  {
    seq(|ms|, i requires 0 <= i < |ms| => Some(ms[i]))
  }

  // What the published frames decode to.
  ghost function Decodes(ps: seq<Publication>): (r: seq<Option<Message.Native>>)
    ensures |r| == |ps| && forall i | 0 <= i < |ps| :: r[i] == Message.Decode(ps[i].frame)
  {
    seq(|ps|, i requires 0 <= i < |ps| => Message.Decode(ps[i].frame))
  }

  ghost function AllDecodes(answers: seq<Runs.Answer>): (r: seq<Option<Message.Native>>) {
    if |answers| == 0 then [] else
      var n := |answers| - 1;
      AllDecodes(answers[..n]) + Decodes(answers[n].published)
  }

  lemma AllDecodesSnoc(answers: seq<Runs.Answer>, a: Runs.Answer)
    ensures AllDecodes(answers + [a]) == AllDecodes(answers) + Decodes(a.published)
  {
    hide Decodes;
    assert (answers + [a])[..|answers|] == answers;
  }

  // The messages of one identity that were offered to its window.
  ghost function Offered(log: Log, key: Key): (r: seq<Option<Message.Native>>) { Somes(Of(log.offered, key)) }

  lemma {:induction false} PublishFramesOffer(c: Config, s: Stream, log: Log, ms: seq<Message.Native>)
    requires c.window > 0
    ensures var (s', log') := PublishFrames(c, s, log, ms); s'.slots == s.slots && log'.offered == log.offered + ms
  {
    hide Dedupe.Observe;
    if |ms| > 0 {
      var n := |ms| - 1;
      PublishFramesOffer(c, s, log, ms[..n]);
      assert ms[..n] + [ms[n]] == ms;
    }
  }

  lemma {:induction false} OfMore(a: seq<Message.Native>, ms: seq<Message.Native>, key: Key, k: Key)
    requires forall i | 0 <= i < |ms| :: KeyOf(ms[i]) == key
    ensures Of(a + ms, k) == Of(a, k) + (if k == key then ms else [])
  {
    hide Of;
    if |ms| == 0 {
      assert a + ms == a;
    } else {
      var n := |ms| - 1;
      OfMore(a, ms[..n], key, k);
      OfSnoc(a + ms[..n], ms[n], k);
      assert a + ms == (a + ms[..n]) + [ms[n]] && ms == ms[..n] + [ms[n]];
    }
  }

  // A body of one identity is offered as exactly what the decoder publishes for it, and no other
  // identity is offered anything.
  lemma DeliveredOffers(c: Config, s: Stream, log: Log, key: Key, body: seq<byte>, now: nat)
    requires ConfigOk(c) && SlotsValid(s.slots)
    ensures var (s', log') := Delivered(c, s, log, key, body, now);
            var d := Generations.Receive(s.slots, body, now, Admission(key));
            && s'.slots == d.slots && Offered(log', key) == Offered(log, key) + Decodes(d.published)
            && forall k | k != key :: Offered(log', k) == Offered(log, k)
  {
    hide Message.Decode, Generations.Receive, PublishFrames, SlotsValid, AllAccepted, Admission, Of;
    var d := Generations.Receive(s.slots, body, now, Admission(key));
    PublishedAdmitted(s.slots, body, now, Admission(key));
    AllDecode(key, d.published);
    var ms := Messages(d.published);
    PublishFramesOffer(c, s.(slots := d.slots), log, ms);
    assert Somes(ms) == Decodes(d.published);
    OfMore(log.offered, ms, key, key);
    forall k | k != key ensures Of(log.offered + ms, k) == Of(log.offered, k) {
      OfMore(log.offered, ms, key, k);
    }
  }

  lemma OtherStream(c: Config, st: State, e: Event, key: Key)
    requires Inv(c, st) && !Addressed(e, key) && !e.Expire?
    ensures var st' := React(c, st, e);
            StreamOf(c, st', key) == StreamOf(c, st, key) && Offered(st'.log, key) == Offered(st.log, key)
  {
    hide Unwrap, Delivered, StreamInv, Distinct, Passed, Offered;
    if !e.truncated && Unwrap(e.bytes).Some? {
      var (k, body) := Unwrap(e.bytes).value;
      KnownSlots(c, st, k);
      DeliveredOffers(c, StreamOf(c, st, k), st.log, k, body, e.now);
    }
  }

  // Expiry reaches known streams; a stream not yet created has nothing to expire.
  lemma ExpireStream(c: Config, st: State, now: nat, key: Key)
    requires Inv(c, st)
    ensures var st' := React(c, st, Expire(now));
            StreamOf(c, st', key).slots == Expired(StreamOf(c, st, key).slots, now) && st'.log == st.log
  {
    hide StreamInv, Distinct, SlotsValid, Passed;
    assert Expired(NewStream(c).slots, now) == NewStream(c).slots;
  }

  lemma KnownSlots(c: Config, st: State, key: Key)
    requires ConfigOk(c) && StateOk(st)
    ensures SlotsValid(StreamOf(c, st, key).slots)
  {
    hide SlotsValid;
    NewStreamOk(c);
  }

  lemma OwnStream(c: Config, st: State, e: Event, key: Key)
    requires Inv(c, st) && Addressed(e, key) && (key in st.streams || |st.streams| < c.limit)
    ensures SlotsValid(StreamOf(c, st, key).slots)
    ensures var st' := React(c, st, e);
            var d := Generations.Receive(StreamOf(c, st, key).slots, Unwrap(e.bytes).value.1, e.now, Admission(key));
            StreamOf(c, st', key).slots == d.slots && Offered(st'.log, key) == Offered(st.log, key) + Decodes(d.published)
  {
    hide Unwrap, Delivered, StreamInv, Distinct, Generations.Receive, SlotsValid, Admission, Passed, Offered;
    KnownSlots(c, st, key);
    DeliveredOffers(c, StreamOf(c, st, key), st.log, key, Unwrap(e.bytes).value.1, e.now);
  }

  lemma RunsSnoc(slots: seq<Generation>, events: seq<Runs.Event>, e: Runs.Event, accepts: Frame -> bool)
    requires SlotsValid(slots)
    ensures var before, after := Runs.Run(slots, events, accepts), Runs.Run(slots, events + [e], accepts);
            var d := Runs.Handle(before.slots, e, accepts);
            after.slots == d.slots && after.answers == before.answers + [Runs.Answer(d.ok, d.published)]
  {
    hide Runs.Handle;
    assert (events + [e])[..|events|] == events;
  }

  // The stream has its decoder's slots, and was offered what the decoder published after `base`.
  ghost predicate Follows(c: Config, st: State, key: Key, run: Runs.Trace, base: seq<Option<Message.Native>>)
    requires ConfigOk(c)
  {
    StreamOf(c, st, key).slots == run.slots && Offered(st.log, key) == base + AllDecodes(run.answers)
  }

  lemma ExpiryFollows(c: Config, st: State, slots: seq<Generation>, events: seq<Runs.Event>, now: nat, key: Key, base: seq<Option<Message.Native>>)
    requires Inv(c, st) && SlotsValid(slots) && ConfigOk(c) && StateOk(st)
    requires Follows(c, st, key, Runs.Run(slots, events, Admission(key)), base)
    ensures Follows(c, React(c, st, Expire(now)), key, Runs.Run(slots, events + [Runs.Expiry(now)], Admission(key)), base)
  {
    hide Inv, React, SlotsValid, Admission, Runs.Run, StreamOf, Expired, AllDecodes, Decodes, Offered;
    var run := Runs.Run(slots, events, Admission(key));
    ExpireStream(c, st, now, key);
    RunsSnoc(slots, events, Runs.Expiry(now), Admission(key));
    AllDecodesSnoc(run.answers, Runs.Answer(true, []));
    assert Decodes([]) == [];
  }

  lemma ArrivalFollows(c: Config, st: State, slots: seq<Generation>, events: seq<Runs.Event>, e: Event, key: Key, base: seq<Option<Message.Native>>)
    requires Inv(c, st) && SlotsValid(slots) && ConfigOk(c) && StateOk(st) && Addressed(e, key) && (key in st.streams || |st.streams| < c.limit)
    requires Follows(c, st, key, Runs.Run(slots, events, Admission(key)), base)
    ensures Follows(c, React(c, st, e), key, Runs.Run(slots, events + Seen(e, key), Admission(key)), base)
  {
    hide Inv, React, Generations.Receive, SlotsValid, Admission, Addressed, Unwrap, Runs.Run, StreamOf, AllDecodes, Decodes, Offered, Seen;
    var run := Runs.Run(slots, events, Admission(key));
    AddressedBody(e, key);
    var arrival := Runs.Arrival(Unwrap(e.bytes).value.1, e.now);
    OwnStream(c, st, e, key);
    RunsSnoc(slots, events, arrival, Admission(key));
    var d := Runs.Handle(run.slots, arrival, Admission(key));
    AllDecodesSnoc(run.answers, Runs.Answer(d.ok, d.published));
    Append(base, AllDecodes(run.answers), Decodes(d.published));
  }

  lemma StepFollows(c: Config, st: State, slots: seq<Generation>, events: seq<Runs.Event>, e: Event, key: Key, base: seq<Option<Message.Native>>)
    requires Inv(c, st) && SlotsValid(slots) && (Addressed(e, key) ==> key in st.streams || |st.streams| < c.limit)
    requires Follows(c, st, key, Runs.Run(slots, events, Admission(key)), base)
    ensures ConfigOk(c) && StateOk(st)
    ensures Follows(c, React(c, st, e), key, Runs.Run(slots, events + Seen(e, key), Admission(key)), base)
  {
    hide Inv, React, SlotsValid, Admission, Addressed, Unwrap, Runs.Run, StreamOf, AllDecodes, Offered;
    InvSlots(c, st, key);
    if e.Expire? {
      ExpiryFollows(c, st, slots, events, e.now, key, base);
    } else if Addressed(e, key) {
      ArrivalFollows(c, st, slots, events, e, key, base);
    } else {
      OtherStream(c, st, e, key);
      assert events + [] == events;
    }
  }

  lemma AddressedBody(e: Event, key: Key)
    requires Addressed(e, key)
    ensures e.Datagram? && Unwrap(e.bytes).Some? && Seen(e, key) == [Runs.Arrival(Unwrap(e.bytes).value.1, e.now)]
  {}

  lemma Append<T>(a: seq<T>, b: seq<T>, c: seq<T>)
    ensures (a + b) + c == a + (b + c)
  {}

  lemma RoomInit(c: Config, st: State, es: seq<Event>, key: Key)
    requires Inv(c, st) && |es| > 0 && Room(c, st, es, key)
    ensures var n := |es| - 1;
            Room(c, st, es[..n], key) &&
            (Addressed(es[n], key) ==> key in After(c, st, es[..n]).streams || |After(c, st, es[..n]).streams| < c.limit)
  {
    hide Inv, After, Addressed;
    var n := |es| - 1;
    assert forall i | 0 <= i < n :: es[..n][..i] == es[..i];
  }

  // One identity's decoder, created or not yet, runs on the bodies addressed to it and on every expiry, and
  // its window is offered exactly what the decoder publishes, in order, whatever else arrives.
  lemma {:induction false} DecoderFollows(c: Config, st: State, es: seq<Event>, key: Key)
    requires Inv(c, st) && Room(c, st, es, key)
    ensures ConfigOk(c) && SlotsValid(StreamOf(c, st, key).slots)
    ensures var st', run := After(c, st, es), Runs.Run(StreamOf(c, st, key).slots, Bodies(es, key), Admission(key));
            StreamOf(c, st', key).slots == run.slots && Offered(st'.log, key) == Offered(st.log, key) + AllDecodes(run.answers)
  {
    hide Inv, React, Generations.Receive, SlotsValid, Admission, Addressed, Unwrap, Room, StreamOf, Seen, Offered;
    InvSlots(c, st, key);
    var base := Offered(st.log, key);
    if |es| == 0 {
      assert base + [] == base;
    } else {
      var n := |es| - 1;
      RoomInit(c, st, es, key);
      DecoderFollows(c, st, es[..n], key);
      StepFollows(c, After(c, st, es[..n]), StreamOf(c, st, key).slots, Bodies(es[..n], key), es[n], key, base);
    }
  }

  lemma InvSlots(c: Config, st: State, key: Key)
    requires Inv(c, st)
    ensures ConfigOk(c) && StateOk(st) && SlotsValid(StreamOf(c, st, key).slots)
  {
    hide StreamInv, Distinct, SlotsValid, Passed;
    NewStreamOk(c);
  }

  // ---- the whole path ----

  // The message was offered, and settled.
  ghost predicate Reached(c: Config, log: Log, m: Message.Native) {
    exists n :: 0 <= n < |log.offered| && log.offered[n] == m && Settled(c, log, n)
  }

  // Any n of the shards of a generation, wrapped for their identity and mixed with any other traffic and
  // with expiries that come too early for the generation, have every frame of the generation offered, and with
  // duplicate suppression bring it to the ring unless its number is there already or it is late. The
  // identity may be new.
  lemma GenerationReachesRing(c: Config, st: State, es: seq<Event>, key: Key, t: Sent, lo: nat)
    requires Inv(c, st) && Room(c, st, es, key) && SentOk(t) && AcceptsAll(Admission(key), t)
    requires var slots := StreamOf(c, st, key).slots;
             |slots| > 0 && Runs.Untaken(slots[t.genId % |slots|], t) && Runs.Schedule(Bodies(es, key), t, |slots|, lo)
    requires |Runs.GotData(Bodies(es, key), t)| + |Runs.GotRows(Bodies(es, key), t)| >= |t.frames|
    ensures var log := After(c, st, es).log;
            forall i | 0 <= i < |t.frames| ::
              && Message.Decode(t.frames[i]).Some? && Message.Decode(t.frames[i]).value in log.offered
              && (c.dedupe ==> Reached(c, log, Message.Decode(t.frames[i]).value))
  {
    hide Inv, After, Bodies, SlotsValid, AcceptsAll, SentOk, Runs.Schedule, Runs.Run, Runs.GotData, Runs.GotRows, Runs.Untaken,
      Message.Decode, Reached, Runs.AnswersExact, Runs.Emitted, Admission, Room, StreamOf, Offered, AllDecodes;
    InvSlots(c, st, key);
    var slots, events, st' := StreamOf(c, st, key).slots, Bodies(es, key), After(c, st, es);
    DecoderFollows(c, st, es, key);
    Runs.AnyEnoughShardsRecover(slots, events, t, lo, Admission(key));
    var run := Runs.Run(slots, events, Admission(key));
    forall i | 0 <= i < |t.frames|
      ensures Message.Decode(t.frames[i]).Some? && Message.Decode(t.frames[i]).value in st'.log.offered
      ensures c.dedupe ==> Reached(c, st'.log, Message.Decode(t.frames[i]).value)
    {
      AdmittedKey(key, t, i);
      EmittedOffered(st'.log, Offered(st.log, key), events, run.answers, t, t.frames[i], key);
      if c.dedupe { OfferedReached(c, st', Message.Decode(t.frames[i]).value); }
    }
  }

  lemma AdmittedKey(key: Key, t: Sent, i: nat)
    requires SentOk(t) && AcceptsAll(Admission(key), t) && i < |t.frames|
    ensures Message.Decode(t.frames[i]).Some? && KeyOf(Message.Decode(t.frames[i]).value) == key
  {
    hide Message.Decode;
    assert Admission(key)(t.frames[i]);
  }

  lemma EmittedOffered(log: Log, base: seq<Option<Message.Native>>, events: seq<Runs.Event>, answers: seq<Runs.Answer>, t: Sent, f: Frame, key: Key)
    requires SentOk(t) && |events| == |answers| && Runs.Emitted(events, answers, t, f)
    requires Message.Decode(f).Some? && Offered(log, key) == base + AllDecodes(answers)
    ensures Message.Decode(f).value in log.offered
  {
    hide Runs.HonestEvent, SentOk, Message.Decode, Of, AllDecodes, Somes;
    var j :| 0 <= j < |events| && Runs.HonestEvent(events[j], t) && Publishes(answers[j].published, f);
    var i :| 0 <= i < |answers[j].published| && answers[j].published[i].frame == f;
    AllDecodesHave(answers, j, i);
    var m := Message.Decode(f);
    var q :| 0 <= q < |AllDecodes(answers)| && AllDecodes(answers)[q] == m;
    var all := Offered(log, key);
    assert all[|base| + q] == m;
    OfHas(log.offered, key, Of(log.offered, key)[|base| + q]);
  }

  lemma {:induction false} AllDecodesHave(answers: seq<Runs.Answer>, j: nat, i: nat)
    requires j < |answers| && i < |answers[j].published|
    ensures Message.Decode(answers[j].published[i].frame) in AllDecodes(answers)
  {
    hide Message.Decode;
    var n := |answers| - 1;
    var m := Message.Decode(answers[j].published[i].frame);
    if j < n {
      AllDecodesHave(answers[..n], j, i);
    } else {
      assert Decodes(answers[n].published)[i] == m;
    }
  }

  lemma {:induction false} OfHas(ms: seq<Message.Native>, key: Key, m: Message.Native)
    requires m in Of(ms, key)
    ensures m in ms
  {
    var n := |ms| - 1;
    if m in Of(ms[..n], key) {
      OfHas(ms[..n], key, m);
    }
  }

  lemma OfferedReached(c: Config, st: State, m: Message.Native)
    requires Inv(c, st) && c.dedupe && m in st.log.offered
    ensures Reached(c, st.log, m)
  {
    hide Inv, Settled;
    var n :| 0 <= n < |st.log.offered| && st.log.offered[n] == m;
    EveryOfferSettled(c, st, n);
  }

  // ---- a datagram that is no shard ----

  // An encoded message is never taken for a shard.
  lemma MessageIsNoShard(m: Message.Native, len: nat)
    requires Message.WellTyped(m) && Message.ValidFrame(m, len)
    ensures Message.Encode(m, len).Some? && !IsShard(Message.Encode(m, len).value)
  {
    hide Message.WellTyped, Message.Encode, Message.Decode, IsShard;
    Message.DecodeEncode(m, len);
    DecodableIsNoShard(Message.Encode(m, len).value);
  }

  lemma DecodableIsNoShard(b: seq<byte>)
    requires Message.Decode(b).Some?
    ensures !IsShard(b)
  {
    hide Message.Decode, IsShard;
    Message.DecodedMagic(b);
    ShardExactly(b);
  }

  lemma PlainDelivered(c: Config, s: Stream, log: Log, key: Key, body: seq<byte>, now: nat)
    requires ConfigOk(c) && SlotsValid(s.slots) && Message.Decode(body).Some? && KeyOf(Message.Decode(body).value) == key
    ensures Delivered(c, s, log, key, body, now) == PublishFrame(c, s, log, Message.Decode(body).value)
  {
    hide Message.Decode, IsShard, SlotsValid, PublishFrame;
    DecodableIsNoShard(body);
    var m := Message.Decode(body).value;
    assert Admission(key)(body);
    assert Generations.Receive(s.slots, body, now, Admission(key)) == Received(s.slots, true, [Publication(body, false)]);
    assert Messages([Publication(body, false)]) == [m];
    OneFrame(c, s, log, m);
  }

  lemma OneFrame(c: Config, s: Stream, log: Log, m: Message.Native)
    requires c.window > 0
    ensures PublishFrames(c, s, log, [m]) == PublishFrame(c, s, log, m)
  {
    hide PublishFrame;
    assert [m][..0] == [];
  }

  // A message sent without forward error correction, wrapped for its identity, is offered as it is, changes no
  // decoder, and is written exactly if its number passes. The identity may be new.
  lemma MessageReachesRing(c: Config, st: State, m: Message.Native, len: nat, now: nat)
    requires Inv(c, st) && Message.WellTyped(m) && Message.ValidFrame(m, len)
    requires var key := KeyOf(m); KeyFits(key) && key.stream != 0 && key.epoch != 0 && (key in st.streams || |st.streams| < c.limit)
    ensures ConfigOk(c) && StateOk(st) && Message.Encode(m, len).Some?
    ensures var st', key := React(c, st, Datagram(Wrap(KeyOf(m), Message.Encode(m, len).value), false, now)), KeyOf(m);
            && st'.log.offered == st.log.offered + [m]
            && (forall k :: StreamOf(c, st', k).slots == StreamOf(c, st, k).slots)
            && st'.log.ring == st.log.ring + (if Passes(c, Numbers(st.log.offered, key), m.header.seqId) then [m] else [])
            && (c.dedupe ==> m.header.seqId in Numbers(st'.log.ring, key) || Dedupe.Late(Numbers(st.log.offered, key), m.header.seqId, c.window))
  {
    hide Message.WellTyped, Message.Encode, Message.Decode, SlotsValid, Wrap, Unwrap, PublishFrame, StreamInv, Distinct, Passed, Passes, Numbers, Delivered, Dedupe.Late;
    Message.DecodeEncode(m, len);
    var key, body := KeyOf(m), Message.Encode(m, len).value;
    UnwrapWrap(key, body);
    var s := StreamOf(c, st, key);
    KnownSlots(c, st, key);
    PlainDelivered(c, s, st.log, key, body, now);
    assert StreamInv(c, s, st.log, key);
    WrittenExactly(c, s, st.log, m);
    SlotsKept(c, s, st.log, m);
    if c.dedupe {
      PassedOrLate(c, st, m);
    }
  }

  lemma SlotsKept(c: Config, s: Stream, log: Log, m: Message.Native)
    requires c.window > 0
    ensures PublishFrame(c, s, log, m).0.slots == s.slots
  {
    hide Dedupe.Observe;
  }

  lemma PassedOrLate(c: Config, st: State, m: Message.Native)
    requires Inv(c, st) && c.dedupe
    ensures var ring := st.log.ring + (if Passes(c, Numbers(st.log.offered, KeyOf(m)), m.header.seqId) then [m] else []);
            m.header.seqId in Numbers(ring, KeyOf(m)) || Dedupe.Late(Numbers(st.log.offered, KeyOf(m)), m.header.seqId, c.window)
  {
    hide StateOk, StreamInv, Distinct, Passed, Numbers, Dedupe.Late, Dedupe.Kept;
    NumbersSnoc(st.log.ring, m, KeyOf(m));
    PassedNumbers(c, st.log.offered, KeyOf(m));
    assert st.log.ring + [] == st.log.ring;
  }
}
