/** Fan-out: one bounded queue and one worker per destination, each isolated from the others. */
module Fanout {
  import opened Bytes
  import opened Options

  type Frame = seq<byte>

  datatype Work = Work(frames: seq<Frame>, bytes: nat)

  // The shared state of a destination, its worker's batch in hand, and the history of both:
  // batches offered by the producer and batches flushed in full.
  datatype Destination = Destination(
    queue: seq<Work>, bytes: int, done: bool, failed: bool, rejected: nat,
    inHand: Option<Work>, exited: bool, offered: seq<Work>, flushed: seq<Work>)

  const IDLE: Destination := Destination([], 0, false, false, 0, None, false, [], [])

  // ---- sums ----

  function Length(frames: seq<Frame>): nat {
    if |frames| == 0 then 0 else Length(frames[..|frames| - 1]) + |frames[|frames| - 1]|
  }

  function Frames(works: seq<Work>): nat {
    if |works| == 0 then 0 else Frames(works[..|works| - 1]) + |works[|works| - 1].frames|
  }

  function Queued(works: seq<Work>): nat {
    if |works| == 0 then 0 else Queued(works[..|works| - 1]) + works[|works| - 1].bytes
  }

  lemma {:induction false} SumsConcat(a: seq<Work>, b: seq<Work>)
    ensures Frames(a + b) == Frames(a) + Frames(b) && Queued(a + b) == Queued(a) + Queued(b)
  {
    if |b| == 0 {
      assert a + b == a;
    } else {
      var n := |b| - 1;
      SumsConcat(a, b[..n]);
      assert (a + b)[..|a| + n] == a + b[..n];
    }
  }

  // ---- the critical sections ----

  // Failing drops the queue and counts its frames, with those of the batch that failed.
  function Failed(d: Destination, frames: nat): Destination {
    d.(failed := true, rejected := d.rejected + frames + Frames(d.queue), queue := [], bytes := 0)
  }

  // The producer offers a batch; a failed destination rejects it, a full one fails.
  function Offer(d: Destination, capacity: nat, frames: seq<Frame>): Destination {
    var work := Work(frames, Length(frames));
    var d' := d.(offered := d.offered + [work]);
    if d.failed then d'.(rejected := d.rejected + |frames|)
    else if d.bytes + work.bytes > capacity then Failed(d', |frames|)
    else d'.(bytes := d.bytes + work.bytes, queue := d.queue + [work])
  }

  // The worker takes the next batch, or leaves its loop.
  function Take(d: Destination): Destination {
    if d.exited || d.inHand.Some? || !(d.done || d.failed || |d.queue| > 0) then d
    else if d.failed || |d.queue| == 0 then d.(exited := true)
    else d.(inHand := Some(d.queue[0]), queue := d.queue[1..], bytes := d.bytes - d.queue[0].bytes)
  }

  // The batch in hand was sent in full, or its sending failed.
  function Flush(d: Destination, ok: bool): Destination {
    if d.inHand.None? then d
    else
      var work := d.inHand.value;
      if ok then d.(inHand := None, flushed := d.flushed + [work])
      else Failed(d.(inHand := None, exited := true), |work.frames|)
  }

  function Finished(d: Destination): Destination { d.(done := true) }

  datatype Action = Offering(frames: seq<Frame>) | Taking | Flushing(ok: bool) | Finishing

  // The thread that finishes is the producer, so nothing is offered afterwards.
  function Step(d: Destination, capacity: nat, a: Action): Destination {
    match a
    case Offering(frames) => if d.done then d else Offer(d, capacity, frames)
    case Taking => Take(d)
    case Flushing(ok) => Flush(d, ok)
    case Finishing => Finished(d)
  }

  // ---- what every step keeps ----

  function InHand(d: Destination): seq<Work> { if d.inHand.Some? then [d.inHand.value] else [] }

  // Batches not rejected: flushed, in hand and queued, in the order they were offered.
  ghost function Live(d: Destination): seq<Work> { d.flushed + (InHand(d) + d.queue) }

  // The live batches are a prefix of the offered ones and the frames of all others were rejected.
  ghost predicate Accounted(live: seq<Work>, offered: seq<Work>, rejected: nat) {
    live <= offered && rejected + Frames(live) == Frames(offered)
  }

  ghost predicate Inv(d: Destination, capacity: nat) {
    && Accounted(Live(d), d.offered, d.rejected)
    && d.bytes == Queued(d.queue) <= capacity
    && (d.failed ==> d.queue == []) && (!d.failed ==> Live(d) == d.offered)
    && (d.exited ==> d.inHand.None? && (d.failed || (d.done && d.queue == [])))
    && (forall i | 0 <= i < |d.offered| :: d.offered[i].bytes == Length(d.offered[i].frames))
  }

  lemma OneWork(work: Work)
    ensures Frames([work]) == |work.frames| && Queued([work]) == work.bytes
  {
    assert [work][..0] == [];
  }

  lemma OfferedMore(live: seq<Work>, offered: seq<Work>, rejected: nat, work: Work)
    requires Accounted(live, offered, rejected)
    ensures Accounted(live, offered + [work], rejected + |work.frames|)
    ensures live == offered ==> Accounted(live + [work], offered + [work], rejected)
  {
    SumsConcat(offered, [work]);
    OneWork(work);
  }

  lemma LessLive(a: seq<Work>, b: seq<Work>, offered: seq<Work>, rejected: nat)
    requires Accounted(a + b, offered, rejected)
    ensures Accounted(a, offered, rejected + Frames(b))
  {
    SumsConcat(a, b);
  }

  // Failing moves the queued batches from live to rejected.
  lemma FailedKeeps(d: Destination, capacity: nat, frames: nat)
    requires Accounted(Live(d), d.offered, d.rejected + frames)
    requires forall i | 0 <= i < |d.offered| :: d.offered[i].bytes == Length(d.offered[i].frames)
    requires d.exited ==> d.inHand.None?
    ensures Inv(Failed(d, frames), capacity)
  {
    hide Frames, Length;
    assert Live(d) == (d.flushed + InHand(d)) + d.queue;
    assert Live(Failed(d, frames)) == d.flushed + InHand(d);
    LessLive(d.flushed + InHand(d), d.queue, d.offered, d.rejected + frames);
    assert Queued([]) == 0;
  }

  lemma OfferKeeps(d: Destination, capacity: nat, frames: seq<Frame>)
    requires Inv(d, capacity) && !d.done
    ensures Inv(Offer(d, capacity, frames), capacity)
  {
    hide Frames, Queued, Length, Accounted, Failed;
    var work := Work(frames, Length(frames));
    OfferedMore(Live(d), d.offered, d.rejected, work);
    if d.failed {
      assert Live(Offer(d, capacity, frames)) == Live(d);
    } else if d.bytes + work.bytes > capacity {
      FailedKeeps(d.(offered := d.offered + [work]), capacity, |frames|);
    } else {
      SumsConcat(d.queue, [work]);
      OneWork(work);
      assert Live(Offer(d, capacity, frames)) == Live(d) + [work];
    }
  }

  lemma TakeKeeps(d: Destination, capacity: nat)
    requires Inv(d, capacity)
    ensures Inv(Take(d), capacity)
  {
    hide Frames, Queued, Length, Accounted;
    if |d.queue| > 0 {
      SumsConcat([d.queue[0]], d.queue[1..]);
      OneWork(d.queue[0]);
      assert [d.queue[0]] + d.queue[1..] == d.queue;
    }
    assert Live(Take(d)) == Live(d);
  }

  lemma FlushKeeps(d: Destination, capacity: nat, ok: bool)
    requires Inv(d, capacity)
    ensures Inv(Flush(d, ok), capacity)
  {
    hide Frames, Queued, Length, Accounted, Failed;
    if d.inHand.Some? {
      if ok {
        assert Live(Flush(d, ok)) == Live(d);
      } else {
        FlushFails(d, capacity);
      }
    }
  }

  lemma FlushFails(d: Destination, capacity: nat)
    requires Inv(d, capacity) && d.inHand.Some?
    ensures Inv(Flush(d, false), capacity)
  {
    hide Frames, Queued, Length;
    var work, d' := d.inHand.value, d.(inHand := None, exited := true);
    SumsConcat(d.flushed, [work] + d.queue);
    SumsConcat([work], d.queue);
    SumsConcat(d.flushed, d.queue);
    OneWork(work);
    LessLive(d.flushed, [work] + d.queue, d.offered, d.rejected);
    var f := Flush(d, false);
    assert Live(f) == d.flushed;
    NoWork();
  }

  lemma NoWork()
    ensures Frames([]) == 0 && Queued([]) == 0
  {}

  lemma StepKeeps(d: Destination, capacity: nat, a: Action)
    requires Inv(d, capacity)
    ensures Inv(Step(d, capacity, a), capacity)
  {
    hide Frames, Queued, Length, Accounted, Offer, Take, Flush;
    match a
    case Offering(frames) => if !d.done { OfferKeeps(d, capacity, frames); }
    case Taking => TakeKeeps(d, capacity);
    case Flushing(ok) => FlushKeeps(d, capacity, ok);
    case Finishing => assert Live(Finished(d)) == Live(d);
  }

  lemma IdleInv(capacity: nat)
    ensures Inv(IDLE, capacity)
  {}

  // ---- runs of all destinations together ----

  datatype Event = Event(destination: nat, action: Action)

  ghost function Run(count: nat, capacity: nat, events: seq<Event>): (ds: seq<Destination>)
    ensures |ds| == count
  {
    if |events| == 0 then seq(count, _ => IDLE)
    else
      var n := |events| - 1;
      var ds, e := Run(count, capacity, events[..n]), events[n];
      if e.destination >= count then ds
      else ds[e.destination := Step(ds[e.destination], capacity, e.action)]
  }

  lemma {:induction false} RunInv(count: nat, capacity: nat, events: seq<Event>)
    ensures forall i | 0 <= i < count :: Inv(Run(count, capacity, events)[i], capacity)
  {
    hide Inv, Step;
    if |events| == 0 {
      IdleInv(capacity);
    } else {
      var n := |events| - 1;
      var ds, e := Run(count, capacity, events[..n]), events[n];
      RunInv(count, capacity, events[..n]);
      if e.destination < count {
        StepKeeps(ds[e.destination], capacity, e.action);
      }
    }
  }

  // What one destination sees of a run.
  ghost function Own(events: seq<Event>, i: nat): (r: seq<Action>) {
    if |events| == 0 then [] else
      var n := |events| - 1;
      Own(events[..n], i) + (if events[n].destination == i then [events[n].action] else [])
  }

  ghost function Alone(capacity: nat, actions: seq<Action>): Destination {
    if |actions| == 0 then IDLE
    else Step(Alone(capacity, actions[..|actions| - 1]), capacity, actions[|actions| - 1])
  }

  // Isolation: a destination ends where it would have, had the others not existed.
  lemma {:induction false} Isolated(count: nat, capacity: nat, events: seq<Event>, i: nat)
    requires i < count
    ensures Run(count, capacity, events)[i] == Alone(capacity, Own(events, i))
  {
    hide Inv, Step;
    if |events| > 0 {
      var n := |events| - 1;
      Isolated(count, capacity, events[..n], i);
      var before := Own(events[..n], i);
      assert before + [] == before;
      if events[n].destination == i {
        assert (before + [events[n].action])[..|before|] == before;
      }
    }
  }

  // At every moment the flushed batches are a prefix of the offered ones, and queued bytes are exact and bounded.
  lemma FlushedIsPrefix(count: nat, capacity: nat, events: seq<Event>, i: nat)
    requires i < count
    ensures var d := Run(count, capacity, events)[i];
            && d.flushed <= d.offered && d.bytes == Queued(d.queue) <= capacity
            && d.rejected == Frames(d.offered) - Frames(d.flushed + (InHand(d) + d.queue))
  {
    hide Run, Frames, Queued, Length;
    RunInv(count, capacity, events);
    var d := Run(count, capacity, events)[i];
    assert Inv(d, capacity);
  }

  // Once the worker has left, every batch was flushed in full or counted as rejected, none if it did not fail.
  lemma FinishedAccounts(count: nat, capacity: nat, events: seq<Event>, i: nat)
    requires i < count && Run(count, capacity, events)[i].exited
    ensures var d := Run(count, capacity, events)[i];
            && d.flushed <= d.offered && d.rejected == Frames(d.offered[|d.flushed|..])
            && (!d.failed ==> d.flushed == d.offered && d.rejected == 0)
  {
    hide Run, Queued, Length;
    RunInv(count, capacity, events);
    var d := Run(count, capacity, events)[i];
    assert Inv(d, capacity);
    assert Live(d) == d.flushed;
    SumsConcat(d.flushed, d.offered[|d.flushed|..]);
    assert d.flushed + d.offered[|d.flushed|..] == d.offered;
  }

  // ---- one producer, many destinations ----

  // Where the producing thread stands: between batches, handing one batch to destination `next`, telling
  // destination `next` to finish, or done.
  datatype Producer = Between | Handing(frames: seq<Frame>, next: nat) | Closing(next: nat) | Closed

  // The destinations with the batches given to `enqueue` so far.
  datatype Line = Line(destinations: seq<Destination>, producer: Producer, batches: seq<seq<Frame>>)

  datatype Move = Begin(frames: seq<Frame>) | Proceed | Close | TakeNext(destination: nat) | SendEnds(destination: nat, ok: bool)

  function WorkOf(frames: seq<Frame>): Work { Work(frames, Length(frames)) }

  function Works(batches: seq<seq<Frame>>): (ws: seq<Work>)
    ensures |ws| == |batches|
  {
    seq(|batches|, i requires 0 <= i < |batches| => WorkOf(batches[i]))
  }

  // The loops of `enqueue` and `finish` visit one destination at a time; workers move in between.
  function Moved(l: Line, capacity: nat, m: Move): Line {
    var ds := l.destinations;
    match m
    case Begin(frames) => if l.producer == Between then l.(producer := Handing(frames, 0), batches := l.batches + [frames]) else l
    case Close => if l.producer == Between then l.(producer := Closing(0)) else l
    case Proceed =>
      (match l.producer
       case Handing(frames, next) =>
         if next >= |ds| then l.(producer := Between)
         else l.(destinations := ds[next := Offer(ds[next], capacity, frames)], producer := Handing(frames, next + 1))
       case Closing(next) =>
         if next >= |ds| then l.(producer := Closed)
         else l.(destinations := ds[next := Finished(ds[next])], producer := Closing(next + 1))
       case _ => l)
    case TakeNext(i) => if i < |ds| then l.(destinations := ds[i := Take(ds[i])]) else l
    case SendEnds(i, ok) => if i < |ds| then l.(destinations := ds[i := Flush(ds[i], ok)]) else l
  }

  ghost function Runs(count: nat, capacity: nat, moves: seq<Move>): (l: Line)
    ensures |l.destinations| == count
  {
    if |moves| == 0 then Line(seq(count, _ => IDLE), Between, [])
    else Moved(Runs(count, capacity, moves[..|moves| - 1]), capacity, moves[|moves| - 1])
  }

  // The batches destination `i` has been offered: all, or all but the one being handed out.
  function Due(l: Line, i: nat): (ws: seq<seq<Frame>>) {
    if l.producer.Handing? && i >= l.producer.next && |l.batches| > 0 then l.batches[..|l.batches| - 1] else l.batches
  }

  ghost predicate LineOk(l: Line, capacity: nat) {
    && (l.producer.Handing? ==> |l.batches| > 0 && l.batches[|l.batches| - 1] == l.producer.frames)
    && forall i | 0 <= i < |l.destinations| ::
         && Inv(l.destinations[i], capacity) && l.destinations[i].offered == Works(Due(l, i))
         && (l.destinations[i].done ==> l.producer.Closed? || (l.producer.Closing? && i < l.producer.next))
  }

  lemma OfferOffers(d: Destination, capacity: nat, frames: seq<Frame>)
    ensures Offer(d, capacity, frames).offered == d.offered + [WorkOf(frames)] && Offer(d, capacity, frames).done == d.done
  {}

  lemma WorksSnoc(batches: seq<seq<Frame>>)
    requires |batches| > 0
    ensures var n := |batches| - 1; Works(batches) == Works(batches[..n]) + [WorkOf(batches[n])]
  {
    hide WorkOf;
  }

  // A worker's step leaves what was offered and whether to finish alone.
  lemma WorkerKeeps(d: Destination, capacity: nat, ok: bool)
    requires Inv(d, capacity)
    ensures Inv(Take(d), capacity) && Take(d).offered == d.offered && Take(d).done == d.done
    ensures Inv(Flush(d, ok), capacity) && Flush(d, ok).offered == d.offered && Flush(d, ok).done == d.done
  {
    hide Inv;
    TakeKeeps(d, capacity);
    FlushKeeps(d, capacity, ok);
  }

  lemma MovedKeeps(l: Line, capacity: nat, m: Move)
    requires LineOk(l, capacity)
    ensures LineOk(Moved(l, capacity, m), capacity) && |Moved(l, capacity, m).destinations| == |l.destinations|
  {
    hide Inv, Offer, WorkOf, Works, Take, Flush;
    var ds := l.destinations;
    match m
    case Begin(frames) => assert (l.batches + [frames])[..|l.batches|] == l.batches;
    case Close =>
    case TakeNext(i) => if i < |ds| { WorkerKeeps(ds[i], capacity, true); }
    case SendEnds(i, ok) => if i < |ds| { WorkerKeeps(ds[i], capacity, ok); }
    case Proceed =>
      if l.producer.Handing? {
        HandKeeps(l, capacity);
      } else if l.producer.Closing? {
        CloseKeeps(l, capacity);
      }
  }

  lemma HandKeeps(l: Line, capacity: nat)
    requires LineOk(l, capacity) && l.producer.Handing?
    ensures LineOk(Moved(l, capacity, Proceed), capacity)
  {
    hide Inv, Offer, WorkOf, Works;
    var ds, next := l.destinations, l.producer.next;
    if next < |ds| {
      OfferKeeps(ds[next], capacity, l.producer.frames);
      OfferOffers(ds[next], capacity, l.producer.frames);
      WorksSnoc(l.batches);
    }
  }

  lemma CloseKeeps(l: Line, capacity: nat)
    requires LineOk(l, capacity) && l.producer.Closing?
    ensures LineOk(Moved(l, capacity, Proceed), capacity)
  {
    hide Inv, WorkOf, Works;
    var ds, next := l.destinations, l.producer.next;
    if next < |ds| {
      StepKeeps(ds[next], capacity, Finishing);
    }
  }

  lemma {:induction false} RunsKeep(count: nat, capacity: nat, moves: seq<Move>)
    ensures LineOk(Runs(count, capacity, moves), capacity)
  {
    hide LineOk, Moved;
    if |moves| == 0 {
      IdleLine(count, capacity);
    } else {
      RunsKeep(count, capacity, moves[..|moves| - 1]);
      MovedKeeps(Runs(count, capacity, moves[..|moves| - 1]), capacity, moves[|moves| - 1]);
    }
  }

  lemma IdleLine(count: nat, capacity: nat)
    ensures LineOk(Line(seq(count, _ => IDLE), Between, []), capacity)
  {
    hide Inv;
    IdleInv(capacity);
  }

  // Over every interleaving of one producer and all workers each destination flushes a prefix of the same
  // batches in the same order; every worker that left without failing flushed all of them.
  lemma SameBatches(count: nat, capacity: nat, moves: seq<Move>, i: nat)
    requires i < count
    ensures var l := Runs(count, capacity, moves);
            var d := l.destinations[i];
            && d.flushed <= Works(l.batches)
            && (d.exited && !d.failed ==> d.flushed == Works(l.batches) && d.rejected == 0)
            && (d.exited && l.producer.Closed? ==> d.rejected == Frames(Works(l.batches)[|d.flushed|..]))
  {
    hide Works, Runs, Queued, Length;
    RunsKeep(count, capacity, moves);
    var l := Runs(count, capacity, moves);
    var d := l.destinations[i];
    WorksPrefix(l, i);
    if d.exited {
      assert Live(d) == d.flushed;
      SumsConcat(d.flushed, d.offered[|d.flushed|..]);
      assert d.flushed + d.offered[|d.flushed|..] == d.offered;
    }
  }

  lemma WorksPrefix(l: Line, i: nat)
    ensures Works(Due(l, i)) <= Works(l.batches)
  {
    hide WorkOf;
  }

  // ---- why a destination fails ----

  // Move `n` ended a batch in the hands of worker `i` with an error.
  ghost predicate SendFailed(count: nat, capacity: nat, moves: seq<Move>, i: nat, n: nat)
    requires i < count && n < |moves|
  {
    moves[n] == SendEnds(i, false) && Runs(count, capacity, moves[..n]).destinations[i].inHand.Some?
  }

  // Move `n` handed destination `i`, still healthy, a batch that does not fit with what is queued.
  ghost predicate Overfull(count: nat, capacity: nat, moves: seq<Move>, i: nat, n: nat)
    requires i < count && n < |moves|
  {
    var l := Runs(count, capacity, moves[..n]);
    && moves[n] == Proceed && l.producer.Handing? && l.producer.next == i && !l.destinations[i].failed
    && Queued(l.destinations[i].queue) + Length(l.producer.frames) > capacity
  }

  ghost predicate Cause(count: nat, capacity: nat, moves: seq<Move>, i: nat, n: nat)
    requires i < count && n < |moves|
  {
    SendFailed(count, capacity, moves, i, n) || Overfull(count, capacity, moves, i, n)
  }

  lemma CauseBefore(count: nat, capacity: nat, moves: seq<Move>, i: nat, n: nat)
    requires i < count && n < |moves| - 1
    ensures Cause(count, capacity, moves[..|moves| - 1], i, n) <==> Cause(count, capacity, moves, i, n)
  {
    hide Runs, Queued, Length;
    assert moves[..|moves| - 1][..n] == moves[..n];
  }

  // One move: a destination fails by it exactly when it had failed or the move is a cause.
  lemma FailsByMove(count: nat, capacity: nat, moves: seq<Move>, i: nat)
    requires i < count && |moves| > 0
    ensures var n := |moves| - 1;
            Runs(count, capacity, moves).destinations[i].failed <==>
              Runs(count, capacity, moves[..n]).destinations[i].failed || Cause(count, capacity, moves, i, n)
  {
    hide Queued, Length, Moved, LineOk;
    var n := |moves| - 1;
    RunsKeep(count, capacity, moves[..n]);
    var l := Runs(count, capacity, moves[..n]);
    ExactBytes(l, capacity, i);
    MovedFails(l, capacity, moves[n], i);
  }

  lemma ExactBytes(l: Line, capacity: nat, i: nat)
    requires LineOk(l, capacity) && i < |l.destinations|
    ensures l.destinations[i].bytes == Queued(l.destinations[i].queue)
  {
    hide Works, Frames, Length, Queued;
  }

  lemma MovedFails(l: Line, capacity: nat, m: Move, i: nat)
    requires i < |l.destinations| && l.destinations[i].bytes == Queued(l.destinations[i].queue)
    ensures |Moved(l, capacity, m).destinations| == |l.destinations|
    ensures var d := l.destinations[i];
            Moved(l, capacity, m).destinations[i].failed <==>
              || d.failed || (m == SendEnds(i, false) && d.inHand.Some?)
              || (m == Proceed && l.producer.Handing? && l.producer.next == i && Queued(d.queue) + Length(l.producer.frames) > capacity)
  {
    hide Queued, Length, Frames;
  }

  // Over every interleaving a destination has failed if and only if a send of its worker ended with an
  // error or it was handed a batch that did not fit.
  lemma {:induction false} FailsExactly(count: nat, capacity: nat, moves: seq<Move>, i: nat)
    requires i < count
    ensures Runs(count, capacity, moves).destinations[i].failed <==> exists n :: 0 <= n < |moves| && Cause(count, capacity, moves, i, n)
  {
    hide Cause;
    if |moves| > 0 {
      var n := |moves| - 1;
      FailsExactly(count, capacity, moves[..n], i);
      FailsByMove(count, capacity, moves, i);
      forall k | 0 <= k < n ensures Cause(count, capacity, moves[..n], i, k) <==> Cause(count, capacity, moves, i, k) {
        CauseBefore(count, capacity, moves, i, k);
      }
    }
  }

  // The lengths of all batches given out.
  function Total(batches: seq<seq<Frame>>): (n: nat) { Queued(Works(batches)) }

  lemma {:induction false} BatchesOnlyGrow(count: nat, capacity: nat, moves: seq<Move>, n: nat)
    requires n <= |moves|
    ensures Runs(count, capacity, moves[..n]).batches <= Runs(count, capacity, moves).batches
  {
    if n < |moves| {
      assert moves[..|moves| - 1][..n] == moves[..n];
      BatchesOnlyGrow(count, capacity, moves[..|moves| - 1], n);
    } else {
      assert moves[..n] == moves;
    }
  }

  lemma TotalPrefix(a: seq<seq<Frame>>, b: seq<seq<Frame>>)
    requires a <= b
    ensures Total(a) <= Total(b)
  {
    hide WorkOf;
    var rest := Works(b)[|a|..];
    SumsConcat(Works(a), rest);
    assert Works(a) + rest == Works(b);
  }

  // What is queued and the batch being handed out are among the batches.
  lemma RoomNeeded(l: Line, capacity: nat, i: nat)
    requires LineOk(l, capacity) && i < |l.destinations| && l.producer.Handing? && l.producer.next == i && !l.destinations[i].failed
    ensures Queued(l.destinations[i].queue) + Length(l.producer.frames) <= Total(l.batches)
  {
    hide Frames, Length, Works, Queued;
    var d := l.destinations[i];
    WorksSnoc(l.batches);
    SumsConcat(d.flushed, InHand(d) + d.queue);
    SumsConcat(InHand(d), d.queue);
    SumsConcat(d.offered, [WorkOf(l.producer.frames)]);
    OneWork(WorkOf(l.producer.frames));
    assert Live(d) == d.offered == Works(Due(l, i));
  }

  // If no send of a destination ends with an error and all batches together fit its queue, it never
  // fails, rejects nothing, and its worker leaves only after flushing every batch.
  lemma NeverFails(count: nat, capacity: nat, moves: seq<Move>, i: nat)
    requires i < count && SendEnds(i, false) !in moves && Total(Runs(count, capacity, moves).batches) <= capacity
    ensures var l := Runs(count, capacity, moves);
            var d := l.destinations[i];
            !d.failed && d.rejected == 0 && (d.exited ==> d.flushed == Works(l.batches))
  {
    hide Runs, Works, Queued, Length, Total, Frames;
    FailsExactly(count, capacity, moves, i);
    forall n | 0 <= n < |moves| ensures !Cause(count, capacity, moves, i, n) {
      NoCause(count, capacity, moves, i, n);
    }
    RunsKeep(count, capacity, moves);
    SameBatches(count, capacity, moves, i);
  }

  lemma NoCause(count: nat, capacity: nat, moves: seq<Move>, i: nat, n: nat)
    requires i < count && SendEnds(i, false) !in moves && Total(Runs(count, capacity, moves).batches) <= capacity && n < |moves|
    ensures !Cause(count, capacity, moves, i, n)
  {
    hide Runs, Works, Queued, Length, Total, LineOk;
    var l := Runs(count, capacity, moves[..n]);
    assert moves[n] in moves;
    RunsKeep(count, capacity, moves[..n]);
    BatchesOnlyGrow(count, capacity, moves, n);
    TotalPrefix(l.batches, Runs(count, capacity, moves).batches);
    if l.producer.Handing? && l.producer.next == i && !l.destinations[i].failed {
      RoomNeeded(l, capacity, i);
    }
  }

  // ---- a worker left alone gets through ----

  // Take a batch and send it, `n` times.
  ghost function Drained(d: Destination, n: nat): Destination {
    if n == 0 then d else Flush(Take(Drained(d, n - 1)), true)
  }

  lemma DrainOne(d: Destination, capacity: nat)
    requires Inv(d, capacity) && !d.failed && !d.exited && d.inHand.None? && |d.queue| > 0
    ensures var e := Flush(Take(d), true);
            && Inv(e, capacity) && e.flushed == d.flushed + [d.queue[0]] && e.queue == d.queue[1..] && e.inHand.None?
            && !e.failed && !e.exited && e.done == d.done && e.offered == d.offered
  {
    hide Inv;
    TakeKeeps(d, capacity);
    FlushKeeps(Take(d), capacity, true);
  }

  // A healthy worker with free hands sends everything queued, oldest first.
  lemma {:induction false} Drains(d: Destination, capacity: nat, n: nat)
    requires Inv(d, capacity) && !d.failed && !d.exited && d.inHand.None? && n <= |d.queue|
    ensures var e := Drained(d, n);
            && Inv(e, capacity) && e.flushed == d.flushed + d.queue[..n] && e.queue == d.queue[n..] && e.inHand.None?
            && !e.failed && !e.exited && e.done == d.done && e.offered == d.offered
  {
    hide Inv, Take, Flush;
    if n > 0 {
      Drains(d, capacity, n - 1);
      DrainOne(Drained(d, n - 1), capacity);
      assert d.queue[..n] == d.queue[..n - 1] + [d.queue[n - 1]];
    }
  }

  // Told to finish, it leaves after that, and has flushed every batch it was offered.
  lemma DrainsAndLeaves(d: Destination, capacity: nat)
    requires Inv(d, capacity) && !d.failed && !d.exited && d.inHand.None? && d.done
    ensures var e := Take(Drained(d, |d.queue|)); e.exited && !e.failed && e.flushed == d.offered
  {
    hide Frames, Queued, Length, Accounted, Drained;
    Drains(d, capacity, |d.queue|);
    assert d.flushed + d.queue[..|d.queue|] == Live(d);
  }

  // After a failed send the worker is gone and nothing more is flushed, whatever is offered.
  lemma FailedSendEnds(d: Destination, capacity: nat)
    requires Inv(d, capacity) && d.inHand.Some?
    ensures Gone(Flush(d, false)) && Flush(d, false).flushed == d.flushed
  {
    hide Inv;
  }

  predicate Gone(d: Destination) { d.exited && d.failed && d.inHand.None? && d.queue == [] }

  lemma GoneStays(d: Destination, capacity: nat, a: Action)
    requires Gone(d)
    ensures Gone(Step(d, capacity, a)) && Step(d, capacity, a).flushed == d.flushed
  {
    hide Length, Frames;
  }

  lemma LengthOne(frames: seq<Frame>, f: Frame)
    ensures Length(frames + [f]) == Length(frames) + |f| && Length([]) == 0
  {
    assert (frames + [f])[..|frames|] == frames;
  }

  // ---- the object shared by producer and workers ----

  // Each method is one critical section of the code, run under its destination's lock.
  class Fanout {
    const capacity: nat
    var destinations: seq<Destination>

    ghost predicate Valid()
      reads this
    {
      forall i | 0 <= i < |destinations| :: Inv(destinations[i], capacity)
    }

    constructor (count: nat, capacity: nat)
      ensures Valid() && this.capacity == capacity && destinations == seq(count, _ => IDLE)
    {
      this.capacity := capacity;
      destinations := seq(count, _ => IDLE);
      new;
      IdleInv(capacity);
    }

    // Hands one batch to every destination in turn.
    method Enqueue(frames: seq<Frame>)
      requires Valid() && forall i | 0 <= i < |destinations| :: !destinations[i].done
      modifies this
      ensures Valid() && |destinations| == |old(destinations)|
      ensures forall i | 0 <= i < |destinations| :: destinations[i] == Offer(old(destinations)[i], capacity, frames)
    {
      hide Inv, Offer;
      var i, ds := 0, destinations;
      while i < |ds|
        invariant 0 <= i <= |ds| == |old(destinations)| && destinations == old(destinations)
        invariant forall k | 0 <= k < i :: ds[k] == Offer(old(destinations)[k], capacity, frames) && Inv(ds[k], capacity)
        invariant forall k | i <= k < |ds| :: ds[k] == old(destinations)[k]
      {
        OfferKeeps(ds[i], capacity, frames);
        var d := Enqueued(ds[i], capacity, frames);
        ds := ds[i := d];
        i := i + 1;
      }
      destinations := ds;
    }

    method TakeWork(i: nat) returns (work: Option<Work>)
      requires Valid() && i < |destinations| && destinations[i].inHand.None?
      modifies this
      ensures Valid() && destinations == old(destinations)[i := Take(old(destinations)[i])] && work == destinations[i].inHand
      ensures var d := old(destinations)[i];
              && (work.Some? <==> !d.exited && !d.failed && |d.queue| > 0)
              && (work.Some? ==> work.value == d.queue[0] && destinations[i].queue == d.queue[1..])
    {
      hide Inv;
      var d := destinations[i];
      TakeKeeps(d, capacity);
      work := None;
      if !d.exited && (d.done || d.failed || |d.queue| > 0) {
        if d.failed || |d.queue| == 0 {
          d := d.(exited := true);
        } else {
          work := Some(d.queue[0]);
          d := d.(inHand := work, queue := d.queue[1..], bytes := d.bytes - d.queue[0].bytes);
        }
      }
      destinations := destinations[i := d];
    }

    method Flushed(i: nat, ok: bool)
      requires Valid() && i < |destinations| && destinations[i].inHand.Some?
      modifies this
      ensures Valid() && destinations == old(destinations)[i := Flush(old(destinations)[i], ok)]
    {
      hide Inv;
      var d := destinations[i];
      FlushKeeps(d, capacity, ok);
      var work := d.inHand.value;
      if ok {
        d := d.(inHand := None, flushed := d.flushed + [work]);
      } else {
        d := Fail(d.(inHand := None, exited := true), |work.frames|);
      }
      destinations := destinations[i := d];
    }

    // Tells every worker to leave once its queue is empty.
    method Finish()
      requires Valid()
      modifies this
      ensures Valid() && |destinations| == |old(destinations)|
      ensures forall i | 0 <= i < |destinations| :: destinations[i] == Finished(old(destinations)[i])
    {
      hide Inv;
      var i, ds := 0, destinations;
      while i < |ds|
        invariant 0 <= i <= |ds| == |old(destinations)| && destinations == old(destinations)
        invariant forall k | 0 <= k < i :: ds[k] == Finished(old(destinations)[k]) && Inv(ds[k], capacity)
        invariant forall k | i <= k < |ds| :: ds[k] == old(destinations)[k]
      {
        StepKeeps(ds[i], capacity, Finishing);
        ds := ds[i := ds[i].(done := true)];
        i := i + 1;
      }
      destinations := ds;
    }

    // Did every destination get through?
    method AllOk() returns (ok: bool)
      requires Valid() && forall i | 0 <= i < |destinations| :: destinations[i].exited
      ensures ok <==> forall i | 0 <= i < |destinations| :: destinations[i].flushed == destinations[i].offered && !destinations[i].failed
    {
      ok := true;
      var i := 0;
      while i < |destinations|
        invariant 0 <= i <= |destinations|
        invariant ok <==> forall k | 0 <= k < i :: !destinations[k].failed
      {
        if destinations[i].failed {
          ok := false;
        }
        i := i + 1;
      }
      if ok {
        forall k | 0 <= k < |destinations| ensures destinations[k].flushed == destinations[k].offered {
          AllFlushed(destinations[k], capacity);
        }
      }
    }
  }

  lemma AllFlushed(d: Destination, capacity: nat)
    requires Inv(d, capacity) && d.exited && !d.failed
    ensures d.flushed == d.offered
  {
    hide Frames, Queued, Length;
    assert Live(d) == d.flushed;
  }

  // Counts the queued frames as rejected, batch by batch, and drops the queue.
  method Fail(d: Destination, frames: nat) returns (r: Destination)
    ensures r == Failed(d, frames)
  {
    var rejected := d.rejected + frames;
    for i := 0 to |d.queue|
      invariant rejected == d.rejected + frames + Frames(d.queue[..i])
    {
      assert d.queue[..i + 1][..i] == d.queue[..i];
      rejected := rejected + |d.queue[i].frames|;
    }
    assert d.queue[..|d.queue|] == d.queue;
    return d.(failed := true, rejected := rejected, queue := [], bytes := 0);
  }

  method Enqueued(d: Destination, capacity: nat, frames: seq<Frame>) returns (r: Destination)
    ensures r == Offer(d, capacity, frames)
  {
    var bytes := 0;
    for j := 0 to |frames|
      invariant bytes == Length(frames[..j])
    {
      assert frames[..j + 1][..j] == frames[..j];
      bytes := bytes + |frames[j]|;
    }
    assert frames[..|frames|] == frames;
    var work := Work(frames, bytes);
    r := d.(offered := d.offered + [work]);
    if d.failed {
      r := r.(rejected := d.rejected + |frames|);
    } else if d.bytes + bytes > capacity {
      r := Fail(r, |frames|);
    } else {
      r := r.(bytes := d.bytes + bytes, queue := d.queue + [work]);
    }
  }
}
