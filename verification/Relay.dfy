/** The durable relay as a protocol: outboxes, links that lose, repeat and reorder, one inbox, crashes. */
module Relay {
  import opened Options
  import opened Durable

  // A sender's transmit thread: the row read, sent, and matched by an acknowledgement.
  datatype Transmit = Resting | Holding(row: Row) | Awaiting(row: Row) | Matched(row: Row)

  // `committed` lists the payloads ever enqueued; `acknowledged` the ids confirmed to the local producer.
  datatype Sender = Sender(spool: Spool, committed: seq<Payload>, acknowledged: set<nat>, ingress: Option<nat>, tx: Transmit)

  datatype Frame = Frame(session: Session, id: nat, payload: Payload)

  datatype Accepting = Listening | Got(frame: Frame) | Kept(frame: Frame)

  // The delivery thread: the row read, sent on the open connection, and confirmed on it.
  datatype Deliver = Waiting | Reading(row: Row) | Sent(row: Row) | Confirmed(row: Row)

  // A frame on its way to the local receiver, which drains one connection before it takes the next.
  datatype Item = Item(connection: nat, row: Row)

  // `rows` lists every row ever inserted into the inbox, `published` every row the local receiver took,
  // `confirmed` the ids whose publication the delivery thread saw acknowledged.
  datatype Inbox = Inbox(
    spool: Spool, rows: seq<Row>, rx: Accepting, gaps: nat,
    dx: Deliver, connection: nat, link: seq<Item>, confirms: set<nat>, published: seq<Row>, confirmed: set<nat>)

  // The network keeps every frame and acknowledgement ever sent: any may arrive late, again or never.
  datatype World = World(senders: map<Session, Sender>, frames: set<Frame>, acks: set<(Session, nat)>, inbox: Inbox)

  datatype Action =
    | Ingress(s: Session, payload: Payload) | LocalAck(s: Session)
    | TxFirst(s: Session) | TxSend(s: Session) | TxAck(s: Session, id: nat) | TxError(s: Session) | TxRetire(s: Session)
    | SenderCrash(s: Session)
    | RxTake(frame: Frame) | RxAccept | RxAck | RxError
    | DxFirst | DxSend | DxConfirm | DxError | DxRetire
    | Publish(ok: bool) | LinkLoss(i: nat)
    | InboxCrash

  function Start(limits: map<Session, nat>, inboxLimit: nat): World {
    World(map s | s in limits :: Sender(Fresh(s, limits[s]), [], {}, None, Resting), {}, {},
          Inbox(Fresh(0, inboxLimit), [], Listening, 0, Waiting, 0, [], {}, [], {}))
  }

  // ---- steps ----

  // What an action does to the sender itself, given the acknowledgements on the network.
  function Moved(s: Session, x: Sender, acks: set<(Session, nat)>, a: Action): Sender
    requires SpoolOk(x.spool)
  {
    match a
    case Ingress(_, payload) =>
      var (spool, reply) := Enqueued(x.spool, payload);
      if x.ingress == None && reply.Done?
      then x.(spool := spool, committed := x.committed + [payload], ingress := Some(reply.id))
      else x
    case LocalAck(_) =>
      if x.ingress.Some? then x.(acknowledged := x.acknowledged + {x.ingress.value}, ingress := None) else x
    case TxFirst(_) =>
      if x.tx == Resting && FirstOf(x.spool).Some? then x.(tx := Holding(FirstOf(x.spool).value)) else x
    case TxSend(_) => if x.tx.Holding? then x.(tx := Awaiting(x.tx.row)) else x
    case TxAck(_, id) =>
      if x.tx.Awaiting? && (s, id) in acks then x.(tx := if id == x.tx.row.id then Matched(x.tx.row) else Resting) else x
    case TxError(_) => x.(tx := Resting)
    case TxRetire(_) =>
      if x.tx.Matched? then x.(spool := Retired(x.spool, x.tx.row.id), tx := Resting) else x
    case SenderCrash(_) => x.(tx := Resting, ingress := None)
    case _ => x
  }

  function SenderStep(w: World, s: Session, a: Action): World
    requires s in w.senders && SpoolOk(w.senders[s].spool)
  {
    var x := w.senders[s];
    w.(senders := w.senders[s := Moved(s, x, w.acks, a)],
       frames := if a.TxSend? && x.tx.Holding? then w.frames + {Frame(s, x.tx.row.id, x.tx.row.payload)} else w.frames)
  }

  function SetInbox(w: World, x: Inbox): World { w.(inbox := x) }

  function InboxStep(w: World, a: Action): World
    requires SpoolOk(w.inbox.spool)
  {
    var x := w.inbox;
    match a
    case RxTake(frame) => if x.rx == Listening && frame in w.frames then SetInbox(w, x.(rx := Got(frame))) else w
    case RxAccept =>
      if !x.rx.Got? then w
      else
        var f := x.rx.frame;
        var (spool, reply) := Accepted(x.spool, f.session, f.id, f.payload);
        (match reply
         case Done(id) => SetInbox(w, x.(spool := spool, rows := x.rows + [Row(id, f.session, f.id, f.payload)], rx := Kept(f)))
         case Repeat => SetInbox(w, x.(rx := Kept(f)))
         case Gap => SetInbox(w, x.(rx := Listening, gaps := x.gaps + 1))
         case _ => SetInbox(w, x.(rx := Listening)))
    case RxAck =>
      if x.rx.Kept? then SetInbox(w, x.(rx := Listening)).(acks := w.acks + {(x.rx.frame.session, x.rx.frame.id)}) else w
    case RxError => SetInbox(w, x.(rx := Listening))
    case InboxCrash => SetInbox(w, Reconnect(x).(rx := Listening))
    case _ => SetInbox(w, DeliveryStep(x, a))
  }

  // A failed delivery closes its connection: what it still carries may be published, not confirmed.
  function Reconnect(x: Inbox): Inbox { x.(dx := Waiting, connection := x.connection + 1) }

  function DeliveryStep(x: Inbox, a: Action): Inbox
    requires SpoolOk(x.spool)
  {
    match a
    case DxFirst =>
      if x.dx == Waiting && FirstOf(x.spool).Some? then x.(dx := Reading(FirstOf(x.spool).value)) else x
    case DxSend =>
      if x.dx.Reading? then x.(dx := Sent(x.dx.row), link := x.link + [Item(x.connection, x.dx.row)]) else x
    case DxConfirm =>
      if x.dx.Sent? && x.connection in x.confirms
      then x.(dx := Confirmed(x.dx.row), confirms := x.confirms - {x.connection}, confirmed := x.confirmed + {x.dx.row.id})
      else x
    case DxError => Reconnect(x)
    case DxRetire =>
      if x.dx.Confirmed? then x.(spool := Retired(x.spool, x.dx.row.id), dx := Waiting) else x
    case Publish(ok) =>
      if |x.link| == 0 then x
      else
        var item := x.link[0];
        if ok then x.(link := x.link[1..], published := x.published + [item.row], confirms := x.confirms + {item.connection})
        else x.(link := x.link[1..])
    case LinkLoss(i) => if i < |x.link| then x.(link := x.link[..i] + x.link[i + 1..]) else x
    case _ => x
  }

  predicate OfSender(a: Action) {
    a.Ingress? || a.LocalAck? || a.TxFirst? || a.TxSend? || a.TxAck? || a.TxError? || a.TxRetire? || a.SenderCrash?
  }

  function Step(w: World, a: Action): World
    requires Inv(w)
  {
    if OfSender(a) then if a.s in w.senders then SenderStep(w, a.s, a) else w
    else InboxStep(w, a)
  }

  // ---- what every step keeps ----

  function Retirements(spool: Spool): int { spool.issued - |spool.pending| }

  // The outbox holds the committed payloads from the first unretired one on, under consecutive ids.
  ghost predicate OutboxOk(s: Session, x: Sender) {
    var k := Retirements(x.spool);
    && SpoolOk(x.spool) && x.spool.session == s && x.spool.issued == |x.committed| && k >= 0
    && forall i | 0 <= i < |x.spool.pending| :: x.spool.pending[i] == Row(k + i + 1, s, 0, x.committed[k + i])
  }

  // The mark is the number of retired payloads, or one more.
  ghost predicate MarkOk(x: Sender, high: nat) {
    var k := Retirements(x.spool);
    && (high == k || (high == k + 1 && |x.spool.pending| > 0))
    && (!x.tx.Resting? ==> |x.spool.pending| > 0 && x.spool.pending[0] == x.tx.row)
    && (x.tx.Matched? ==> high == k + 1)
  }

  ghost predicate IngressOk(x: Sender) {
    && (forall i | 0 <= i < |x.committed| :: Legal(x.committed[i]))
    && (x.ingress.Some? ==> 1 <= x.ingress.value <= |x.committed|)
    && forall id | id in x.acknowledged :: 1 <= id <= |x.committed|
  }

  // A frame on the network carries its sender's payload and is at most the first unretired one.
  ghost predicate FrameOk(w: World, f: Frame) {
    && f.session in w.senders
    && var x := w.senders[f.session];
       1 <= f.id <= |x.committed| && f.id <= Retirements(x.spool) + 1 && f.payload == x.committed[f.id - 1]
  }

  ghost predicate NetworkOk(w: World) {
    && (forall f | f in w.frames :: FrameOk(w, f))
    && (forall p | p in w.acks :: p.1 <= High(w.inbox.spool, p.0))
    && (w.inbox.rx.Got? ==> FrameOk(w, w.inbox.rx.frame))
    && (w.inbox.rx.Kept? ==> w.inbox.rx.frame.id <= High(w.inbox.spool, w.inbox.rx.frame.session))
    && w.inbox.gaps == 0
  }

  // The payloads of one session, in the order they were accepted.
  ghost function Payloads(rows: seq<Row>, s: Session): (ps: seq<Payload>) {
    if |rows| == 0 then [] else
      var n := |rows| - 1;
      Payloads(rows[..n], s) + (if rows[n].session == s then [rows[n].payload] else [])
  }

  // The inbox holds its rows from the first unretired one on, under consecutive ids.
  ghost predicate InboxOk(x: Inbox) {
    var k := Retirements(x.spool);
    && SpoolOk(x.spool) && x.spool.issued == |x.rows| && k >= 0 && x.spool.pending == x.rows[k..]
    && forall i | 0 <= i < |x.rows| :: x.rows[i].id == i + 1
  }

  ghost predicate SessionOk(w: World, s: Session)
    requires s in w.senders
  {
    var x, high := w.senders[s], High(w.inbox.spool, s);
    && SenderOk(s, x, high) && Payloads(w.inbox.rows, s) == x.committed[..high]
  }

  // Published rows: the first is row 1, each next one is the same row or the one after.
  ghost predicate Ordered(rows: seq<Row>, published: seq<Row>) {
    && (forall i | 0 <= i < |published| :: published[i] in rows)
    && (|published| > 0 ==> published[0].id == 1)
    && forall i | 0 < i < |published| :: published[i - 1].id <= published[i].id <= published[i - 1].id + 1
  }

  function LastPublished(published: seq<Row>): nat { if |published| == 0 then 0 else published[|published| - 1].id }

  // Stop and wait over a link that keeps order: everything in flight is the first unretired row.
  ghost predicate DeliveryOk(x: Inbox) {
    var k, last := Retirements(x.spool), LastPublished(x.published);
    && Ordered(x.rows, x.published) && (last == k || last == k + 1)
    && (!x.dx.Waiting? ==> |x.spool.pending| > 0 && x.dx.row == x.spool.pending[0])
    && (forall i | 0 <= i < |x.link| :: |x.spool.pending| > 0 && x.link[i].row == x.spool.pending[0] && x.link[i].connection <= x.connection)
    && (forall i | 0 <= i < |x.link| - 1 :: x.link[i].connection < x.connection)
    && (|x.link| > 0 && x.link[|x.link| - 1].connection == x.connection ==> x.dx.Sent?)
    && (forall c | c in x.confirms :: c <= x.connection)
    && (x.connection in x.confirms ==> x.dx.Sent? && x.link == [] && last == k + 1)
    && (x.dx.Confirmed? ==> x.link == [] && last == k + 1 && x.dx.row.id in x.confirmed)
    && (forall id | 1 <= id <= k :: id in x.confirmed) && (forall id | id in x.confirmed :: 1 <= id <= last)
  }

  ghost predicate Inv(w: World) {
    InboxOk(w.inbox) && DeliveryOk(w.inbox) && NetworkOk(w) && SessionsOk(w)
  }

  ghost predicate SessionsOk(w: World) {
    (forall s | s in w.senders :: SessionOk(w, s)) && (forall s | s in w.inbox.spool.received :: s in w.senders)
  }

  lemma StartInv(limits: map<Session, nat>, inboxLimit: nat)
    ensures Inv(Start(limits, inboxLimit))
  {
    hide SenderOk, InboxOk, DeliveryOk, FrameOk;
    var w := Start(limits, inboxLimit);
    StartInbox(inboxLimit);
    forall s | s in limits ensures SessionOk(w, s) {
      StartSender(s, limits[s]);
    }
  }

  lemma StartSender(s: Session, limit: nat)
    ensures SenderOk(s, Sender(Fresh(s, limit), [], {}, None, Resting), 0)
  {}

  lemma StartInbox(limit: nat)
    ensures var x := Inbox(Fresh(0, limit), [], Listening, 0, Waiting, 0, [], {}, [], {}); InboxOk(x) && DeliveryOk(x)
  {}

  // ---- sender steps ----

  lemma IngressSelf(s: Session, x: Sender, payload: Payload)
    requires OutboxOk(s, x) && Enqueued(x.spool, payload).1.Done?
    ensures OutboxOk(s, x.(spool := Enqueued(x.spool, payload).0, committed := x.committed + [payload]))
  {
    hide SpoolOk;
    EnqueueOk(x.spool, payload);
  }

  lemma RetireSelf(s: Session, x: Sender)
    requires OutboxOk(s, x) && |x.spool.pending| > 0
    ensures var spool := Retired(x.spool, x.spool.pending[0].id);
            && OutboxOk(s, x.(spool := spool)) && Retirements(spool) == Retirements(x.spool) + 1
            && spool.pending == x.spool.pending[1..]
  {
    hide SpoolOk, Retired;
    RetireFirst(x.spool);
  }

  ghost predicate SenderOk(s: Session, x: Sender, high: nat) {
    OutboxOk(s, x) && MarkOk(x, high) && IngressOk(x) && high <= |x.committed|
  }

  // A step of a sender keeps its outbox in line with the mark; it retires only what the inbox holds.
  lemma MovedOk(s: Session, x: Sender, high: nat, acks: set<(Session, nat)>, a: Action)
    requires SenderOk(s, x, high) && forall id | (s, id) in acks :: id <= high
    ensures var x' := Moved(s, x, acks, a);
            && SenderOk(s, x', high) && x.committed <= x'.committed && Retirements(x.spool) <= Retirements(x'.spool)
  {
    hide SpoolOk, Retired, OutboxOk, Size;
    OutboxFacts(s, x);
    var x' := Moved(s, x, acks, a);
    if a.Ingress? && Enqueued(x.spool, a.payload).1.Done? {
      IngressSelf(s, x, a.payload);
    } else if a.TxRetire? && x.tx.Matched? {
      RetireSelf(s, x);
    }
    OutboxSame(s, x.(spool := x'.spool, committed := x'.committed), x');
  }

  lemma OutboxFacts(s: Session, x: Sender)
    requires OutboxOk(s, x)
    ensures SpoolOk(x.spool) && x.spool.issued == |x.committed| && Retirements(x.spool) >= 0
    ensures |x.spool.pending| > 0 ==> x.spool.pending[0].id == Retirements(x.spool) + 1
    ensures |x.spool.pending| > 0 ==> x.spool.pending[0].payload == x.committed[Retirements(x.spool)]
  {
    hide SpoolOk;
  }

  lemma OutboxSame(s: Session, x: Sender, y: Sender)
    requires OutboxOk(s, x) && y.spool == x.spool && y.committed == x.committed
    ensures OutboxOk(s, y)
  {
    hide SpoolOk;
  }

  lemma FrameStays(w: World, w': World, f: Frame)
    requires FrameOk(w, f) && f.session in w'.senders
    requires w.senders[f.session].committed <= w'.senders[f.session].committed
    requires Retirements(w.senders[f.session].spool) <= Retirements(w'.senders[f.session].spool)
    ensures FrameOk(w', f)
  {}

  lemma SenderNetwork(w: World, s: Session, a: Action)
    requires NetworkOk(w) && s in w.senders && OfSender(a) && SessionOk(w, s)
    ensures NetworkOk(SenderStep(w, s, a))
  {
    hide SpoolOk, Payloads, Retired, Moved, OutboxOk, IngressOk;
    var x := w.senders[s];
    OutboxFacts(s, x);
    var w' := SenderStep(w, s, a);
    MovedOk(s, x, High(w.inbox.spool, s), w.acks, a);
    forall f | FrameOk(w, f) ensures FrameOk(w', f) {
      FrameStays(w, w', f);
    }
    if a.TxSend? && x.tx.Holding? {
      SendsFirst(w, s);
      FrameStays(w, w', Frame(s, x.tx.row.id, x.tx.row.payload));
    }
  }

  lemma SendsFirst(w: World, s: Session)
    requires s in w.senders && SessionOk(w, s) && !w.senders[s].tx.Resting?
    ensures var row := w.senders[s].tx.row; FrameOk(w, Frame(s, row.id, row.payload))
  {
    hide SpoolOk, Payloads, OutboxOk, IngressOk;
    OutboxFacts(s, w.senders[s]);
  }

  lemma SenderStepKeeps(w: World, s: Session, a: Action)
    requires Inv(w) && s in w.senders && OfSender(a)
    ensures Inv(SenderStep(w, s, a))
  {
    hide SpoolOk, Payloads, InboxOk, DeliveryOk, Moved, NetworkOk, SenderOk;
    var x := w.senders[s];
    SessionFacts(w, s);
    AcksBound(w, s);
    var w' := SenderStep(w, s, a);
    MovedOk(s, x, High(w.inbox.spool, s), w.acks, a);
    SenderNetwork(w, s, a);
    assert forall t | t in w'.senders && t != s :: SessionOk(w, t);
    PrefixTake(x.committed, w'.senders[s].committed, High(w.inbox.spool, s));
  }

  lemma SessionFacts(w: World, s: Session)
    requires s in w.senders && SessionOk(w, s)
    ensures SpoolOk(w.senders[s].spool) && High(w.inbox.spool, s) <= |w.senders[s].committed|
  {
    hide SpoolOk, Payloads;
  }

  lemma AcksBound(w: World, s: Session)
    requires NetworkOk(w)
    ensures forall id | (s, id) in w.acks :: id <= High(w.inbox.spool, s)
  {
    hide FrameOk;
    forall id | (s, id) in w.acks ensures id <= High(w.inbox.spool, s) {
      var p := (s, id);
      assert p in w.acks;
    }
  }

  lemma PrefixTake<T>(a: seq<T>, b: seq<T>, n: nat)
    requires a <= b && n <= |a|
    ensures a[..n] == b[..n]
  {}

  // ---- inbox steps ----

  lemma PayloadsSnoc(rows: seq<Row>, row: Row, s: Session)
    ensures Payloads(rows + [row], s) == Payloads(rows, s) + (if row.session == s then [row.payload] else [])
  {
    assert (rows + [row])[..|rows|] == rows;
  }

  // Between honest peers a frame is at most one past the mark, and at the mark plus one it is the next payload.
  lemma FrameMeetsMark(w: World, f: Frame)
    requires FrameOk(w, f) && SessionOk(w, f.session)
    ensures var x, high := w.senders[f.session], High(w.inbox.spool, f.session);
            && f.id <= high + 1
            && (f.id == high + 1 ==> high == Retirements(x.spool) < |x.committed| && |x.spool.pending| > 0 && f.payload == x.committed[high])
  {
    hide SpoolOk, Payloads, OutboxOk;
    OutboxFacts(f.session, w.senders[f.session]);
  }

  lemma AcceptRows(x: Inbox, f: Frame)
    requires InboxOk(x) && Accepted(x.spool, f.session, f.id, f.payload).1.Done?
    ensures var (spool, reply) := Accepted(x.spool, f.session, f.id, f.payload);
            InboxOk(x.(spool := spool, rows := x.rows + [Row(reply.id, f.session, f.id, f.payload)]))
  {
    hide SpoolOk;
    AcceptOk(x.spool, f.session, f.id, f.payload);
  }

  // Accepting the next payload moves the mark to the first unretired id.
  lemma AcceptSession(w: World, w': World, f: Frame, row: Row, s: Session)
    requires FrameOk(w, f) && s in w.senders && SessionOk(w, s) && w'.senders == w.senders
    requires row.session == f.session && row.payload == f.payload && w'.inbox.rows == w.inbox.rows + [row]
    requires f.id == High(w.inbox.spool, f.session) + 1
    requires High(w'.inbox.spool, s) == if s == f.session then f.id else High(w.inbox.spool, s)
    ensures SessionOk(w', s)
  {
    hide SpoolOk, Payloads, OutboxOk, FrameOk;
    PayloadsSnoc(w.inbox.rows, row, s);
    if s == f.session {
      FrameMeetsMark(w, f);
    }
  }

  lemma AcceptDelivery(x: Inbox, y: Inbox, row: Row)
    requires DeliveryOk(x) && y.rows == x.rows + [row] && y.spool.pending == x.spool.pending + [row]
    requires Retirements(y.spool) == Retirements(x.spool)
    requires y == x.(spool := y.spool, rows := y.rows, rx := y.rx)
    ensures DeliveryOk(y)
  {}

  lemma AcceptSessions(w: World, w': World, f: Frame, row: Row)
    requires SessionsOk(w) && FrameOk(w, f) && w'.senders == w.senders && f.id == High(w.inbox.spool, f.session) + 1
    requires row.session == f.session && row.payload == f.payload && w'.inbox.rows == w.inbox.rows + [row]
    requires w'.inbox.spool.received == w.inbox.spool.received[f.session := f.id]
    ensures SessionsOk(w')
  {
    hide SessionOk, FrameOk;
    FrameSession(w, f);
    forall s | s in w'.senders ensures SessionOk(w', s) {
      AcceptSession(w, w', f, row, s);
    }
  }

  // Marks only rise, so what was acknowledged and what was kept stays below them.
  lemma MarksRise(w: World, w': World)
    requires NetworkOk(w) && w'.senders == w.senders && w'.frames == w.frames && w'.acks == w.acks && w'.inbox.gaps == 0
    requires forall s: Session :: High(w.inbox.spool, s) <= High(w'.inbox.spool, s)
    requires w'.inbox.rx.Listening? || (w'.inbox.rx.Kept? && w'.inbox.rx.frame.id <= High(w'.inbox.spool, w'.inbox.rx.frame.session))
    ensures NetworkOk(w')
  {
    hide FrameOk, High;
    SameSenders(w, w');
  }

  lemma AcceptedMarks(sp: Spool, f: Frame)
    ensures var (spool, reply) := Accepted(sp, f.session, f.id, f.payload);
            && (reply.Done? ==> f.id == High(sp, f.session) + 1 && spool.received == sp.received[f.session := f.id])
            && (forall s: Session :: High(sp, s) <= High(spool, s))
            && (reply.Done? || reply.Repeat? ==> f.id <= High(spool, f.session))
            && (!reply.Done? ==> spool == sp)
            && (reply.Gap? ==> f.id > High(sp, f.session) + 1)
  {}

  lemma AcceptDone(w: World)
    requires Inv(w) && w.inbox.rx.Got? && SpoolOk(w.inbox.spool)
    requires var f := w.inbox.rx.frame; Accepted(w.inbox.spool, f.session, f.id, f.payload).1.Done?
    ensures Inv(InboxStep(w, RxAccept))
  {
    hide SpoolOk, InboxOk, DeliveryOk, SessionsOk, FrameOk, Accepted, High;
    var x, f := w.inbox, w.inbox.rx.frame;
    var (spool, reply) := Accepted(x.spool, f.session, f.id, f.payload);
    var w', row := InboxStep(w, RxAccept), Row(reply.id, f.session, f.id, f.payload);
    AcceptRows(x, f);
    AcceptedRow(x.spool, f);
    AcceptDelivery(x, w'.inbox, row);
    InboxSame(x.(spool := spool, rows := x.rows + [row]), w'.inbox);
    AcceptedMarks(x.spool, f);
    AcceptSessions(w, w', f, row);
    MarksRise(w, w');
  }

  lemma AcceptedRow(sp: Spool, f: Frame)
    requires Accepted(sp, f.session, f.id, f.payload).1.Done?
    ensures var (spool, reply) := Accepted(sp, f.session, f.id, f.payload);
            && spool.pending == sp.pending + [Row(reply.id, f.session, f.id, f.payload)] && Retirements(spool) == Retirements(sp)
  {}

  lemma AcceptKeeps(w: World)
    requires Inv(w) && w.inbox.rx.Got?
    ensures SpoolOk(w.inbox.spool) && Inv(InboxStep(w, RxAccept))
  {
    hide SpoolOk, InboxOk, DeliveryOk, SessionOk, FrameOk, Accepted, High;
    InboxFacts(w.inbox);
    var x, f := w.inbox, w.inbox.rx.frame;
    FrameSession(w, f);
    FrameMeetsMark(w, f);
    AcceptedMarks(x.spool, f);
    if Accepted(x.spool, f.session, f.id, f.payload).1.Done? {
      AcceptDone(w);
    } else {
      var w' := InboxStep(w, RxAccept);
      InboxSame(x, w'.inbox);
      DeliverySame(x, w'.inbox);
      SessionsSame(w, w');
      MarksRise(w, w');
    }
  }

  lemma SessionsSame(w: World, w': World)
    requires SessionsOk(w) && w'.senders == w.senders && w'.inbox.rows == w.inbox.rows
    requires w'.inbox.spool.received == w.inbox.spool.received
    ensures SessionsOk(w')
  {
    hide SenderOk, Payloads;
    assert forall s | s in w.senders :: SessionOk(w, s);
  }

  lemma SameSenders(w: World, w': World)
    requires w'.senders == w.senders
    ensures forall f | FrameOk(w, f) :: FrameOk(w', f)
  {}

  lemma FrameSession(w: World, f: Frame)
    requires FrameOk(w, f)
    ensures f.session in w.senders
  {}

  lemma InboxFacts(x: Inbox)
    requires InboxOk(x)
    ensures SpoolOk(x.spool) && x.spool.issued == |x.rows|
  {
    hide SpoolOk;
  }

  lemma InboxSame(x: Inbox, y: Inbox)
    requires InboxOk(x) && y.spool == x.spool && y.rows == x.rows
    ensures InboxOk(y)
  {
    hide SpoolOk;
  }

  lemma DeliverySame(x: Inbox, y: Inbox)
    requires DeliveryOk(x) && y == x.(rx := y.rx, gaps := y.gaps)
    ensures DeliveryOk(y)
  {}

  // ---- delivery steps ----

  lemma OrderedSnoc(rows: seq<Row>, published: seq<Row>, row: Row)
    requires Ordered(rows, published) && row in rows
    requires LastPublished(published) <= row.id <= LastPublished(published) + 1 && row.id >= 1
    ensures Ordered(rows, published + [row])
  {}

  lemma InboxFirst(x: Inbox)
    requires InboxOk(x) && |x.spool.pending| > 0
    ensures x.spool.pending[0].id == Retirements(x.spool) + 1 >= 1 && x.spool.pending[0] in x.rows
  {
    hide SpoolOk;
    assert x.spool.pending[0] == x.rows[Retirements(x.spool)];
  }

  lemma PublishDelivery(x: Inbox, ok: bool)
    requires InboxOk(x) && DeliveryOk(x) && |x.link| > 0 && SpoolOk(x.spool)
    ensures DeliveryOk(DeliveryStep(x, Publish(ok)))
  {
    hide SpoolOk, Ordered, InboxOk;
    InboxFirst(x);
    OrderedSnoc(x.rows, x.published, x.link[0].row);
  }

  lemma LossDelivery(x: Inbox, i: nat)
    requires DeliveryOk(x) && i < |x.link| && SpoolOk(x.spool)
    ensures DeliveryOk(DeliveryStep(x, LinkLoss(i)))
  {
    hide SpoolOk, Ordered;
  }

  // Retiring the confirmed row: it was published, and nothing of it is left in flight.
  lemma RetireDelivery(x: Inbox)
    requires InboxOk(x) && DeliveryOk(x) && x.dx.Confirmed? && SpoolOk(x.spool)
    ensures InboxOk(DeliveryStep(x, DxRetire)) && DeliveryOk(DeliveryStep(x, DxRetire))
    ensures DeliveryStep(x, DxRetire).spool.received == x.spool.received
  {
    hide SpoolOk, Ordered, Retired;
    InboxFirst(x);
    RetireFirst(x.spool);
  }

  lemma OtherDelivery(x: Inbox, a: Action)
    requires InboxOk(x) && DeliveryOk(x) && SpoolOk(x.spool)
    requires a.DxFirst? || a.DxSend? || a.DxConfirm? || a.DxError?
    ensures DeliveryOk(DeliveryStep(x, a))
  {
    hide SpoolOk, Ordered, InboxOk;
    if |x.spool.pending| > 0 { InboxFirst(x); }
  }

  lemma DeliveryKeeps(x: Inbox, a: Action)
    requires InboxOk(x) && DeliveryOk(x)
    ensures SpoolOk(x.spool)
    ensures var y := DeliveryStep(x, a);
            && InboxOk(y) && DeliveryOk(y) && y.rows == x.rows && y.rx == x.rx && y.gaps == x.gaps
            && y.spool.received == x.spool.received
  {
    hide SpoolOk, Ordered, InboxOk, DeliveryOk, Retired;
    InboxFacts(x);
    if a.DxRetire? && x.dx.Confirmed? {
      RetireDelivery(x);
    } else {
      InboxSame(x, DeliveryStep(x, a));
      match a {
        case Publish(ok) => if |x.link| > 0 { PublishDelivery(x, ok); }
        case LinkLoss(i) => if i < |x.link| { LossDelivery(x, i); }
        case DxFirst => OtherDelivery(x, a);
        case DxSend => OtherDelivery(x, a);
        case DxConfirm => OtherDelivery(x, a);
        case DxError => OtherDelivery(x, a);
        case _ =>
      }
    }
  }

  lemma CrashDelivery(x: Inbox)
    requires DeliveryOk(x)
    ensures DeliveryOk(Reconnect(x).(rx := Listening))
  {
    hide Ordered;
  }

  lemma InboxNetwork(w: World, a: Action)
    requires NetworkOk(w) && SpoolOk(w.inbox.spool) && (a.RxTake? || a.RxAck? || a.RxError? || a.InboxCrash?)
    ensures NetworkOk(InboxStep(w, a))
  {
    hide SpoolOk, FrameOk, High;
    SameSenders(w, InboxStep(w, a));
  }

  lemma InboxStepKeeps(w: World, a: Action)
    requires Inv(w) && !OfSender(a)
    ensures SpoolOk(w.inbox.spool) && Inv(InboxStep(w, a))
  {
    hide SpoolOk, InboxOk, DeliveryOk, SessionsOk, FrameOk, Accepted, DeliveryStep, High;
    var x := w.inbox;
    InboxFacts(x);
    var w' := InboxStep(w, a);
    if a.RxAccept? {
      if x.rx.Got? { AcceptKeeps(w); }
    } else if a.RxTake? || a.RxAck? || a.RxError? {
      InboxSame(x, w'.inbox);
      DeliverySame(x, w'.inbox);
      SessionsSame(w, w');
      InboxNetwork(w, a);
    } else if a.InboxCrash? {
      InboxSame(x, w'.inbox);
      CrashDelivery(x);
      SessionsSame(w, w');
      InboxNetwork(w, a);
    } else {
      DeliveryKeeps(x, a);
      SessionsSame(w, w');
      SameSenders(w, w');
      DeliveryNetwork(w, w');
    }
  }

  lemma DeliveryNetwork(w: World, w': World)
    requires NetworkOk(w) && w' == w.(inbox := w'.inbox) && w'.inbox.rx == w.inbox.rx && w'.inbox.gaps == w.inbox.gaps
    requires w'.inbox.spool.received == w.inbox.spool.received
    ensures NetworkOk(w')
  {
    hide FrameOk;
    SameSenders(w, w');
  }

  lemma StepKeeps(w: World, a: Action)
    requires Inv(w)
    ensures Inv(Step(w, a))
  {
    hide Inv, SenderStep, InboxStep;
    if OfSender(a) {
      if a.s in w.senders { SenderStepKeeps(w, a.s, a); }
    } else {
      InboxStepKeeps(w, a);
    }
  }

  // ---- runs ----

  ghost function Run(limits: map<Session, nat>, inboxLimit: nat, actions: seq<Action>): (w: World)
    ensures Inv(w)
  {
    if |actions| == 0 then StartInv(limits, inboxLimit); Start(limits, inboxLimit)
    else
      var n := |actions| - 1;
      StepKeeps(Run(limits, inboxLimit, actions[..n]), actions[n]);
      Step(Run(limits, inboxLimit, actions[..n]), actions[n])
  }

  lemma {:induction false} SameSessions(limits: map<Session, nat>, inboxLimit: nat, actions: seq<Action>)
    ensures Run(limits, inboxLimit, actions).senders.Keys == limits.Keys
  {
    hide Inv, Moved, DeliveryStep, Accepted;
    if |actions| > 0 {
      SameSessions(limits, inboxLimit, actions[..|actions| - 1]);
    }
  }

  // Over every run the payloads accepted for a session are a prefix of those committed to its outbox,
  // in order and each once, and the mark counts them.
  lemma AcceptedIsPrefix(limits: map<Session, nat>, inboxLimit: nat, actions: seq<Action>, s: Session)
    requires s in limits
    ensures var w := Run(limits, inboxLimit, actions);
            && s in w.senders && Payloads(w.inbox.rows, s) <= w.senders[s].committed
            && |Payloads(w.inbox.rows, s)| == High(w.inbox.spool, s)
  {
    hide Run, SenderOk, Payloads, InboxOk, DeliveryOk, NetworkOk;
    SameSessions(limits, inboxLimit, actions);
    var w := Run(limits, inboxLimit, actions);
    assert SessionOk(w, s);
    SessionFacts(w, s);
  }

  // Payload `id` is still in the outbox under its id, or accepted at its place.
  ghost predicate Safe(w: World, s: Session, id: nat)
    requires s in w.senders
  {
    var x, accepted := w.senders[s], Payloads(w.inbox.rows, s);
    && 1 <= id <= |x.committed|
    && (Row(id, s, 0, x.committed[id - 1]) in x.spool.pending || (id <= |accepted| && accepted[id - 1] == x.committed[id - 1]))
  }

  // Over every run every payload acknowledged to the local producer is safe.
  lemma AcknowledgedIsSafe(limits: map<Session, nat>, inboxLimit: nat, actions: seq<Action>, s: Session)
    requires s in limits
    ensures var w := Run(limits, inboxLimit, actions);
            s in w.senders && forall id | id in w.senders[s].acknowledged :: Safe(w, s, id)
  {
    hide Run, Safe, SessionOk, InboxOk, DeliveryOk, NetworkOk, SpoolOk;
    SameSessions(limits, inboxLimit, actions);
    var w := Run(limits, inboxLimit, actions);
    assert SessionOk(w, s);
    forall id | id in w.senders[s].acknowledged ensures Safe(w, s, id) {
      SessionSafe(w, s, id);
    }
  }

  lemma SessionSafe(w: World, s: Session, id: nat)
    requires s in w.senders && SessionOk(w, s) && id in w.senders[s].acknowledged
    ensures Safe(w, s, id)
  {
    hide Payloads, SpoolOk;
    var x := w.senders[s];
    var i := id - Retirements(x.spool) - 1;
    if i >= 0 {
      assert x.spool.pending[i] == Row(id, s, 0, x.committed[id - 1]);
    }
  }

  // In every reachable state the mark is the first unretired id or that id minus one, the last id
  // issued when the outbox is empty; so the gap error has never fired, and cannot.
  lemma MarkFollowsOutbox(limits: map<Session, nat>, inboxLimit: nat, actions: seq<Action>, s: Session)
    requires s in limits
    ensures var w := Run(limits, inboxLimit, actions);
            && s in w.senders
            && var (spool, high) := (w.senders[s].spool, High(w.inbox.spool, s));
               if |spool.pending| == 0 then high == spool.issued
               else high == spool.pending[0].id || high == spool.pending[0].id - 1
  {
    hide Run, Payloads, InboxOk, DeliveryOk, NetworkOk, OutboxOk;
    SameSessions(limits, inboxLimit, actions);
    var w := Run(limits, inboxLimit, actions);
    assert SessionOk(w, s);
    OutboxFacts(s, w.senders[s]);
  }

  lemma NoGap(limits: map<Session, nat>, inboxLimit: nat, actions: seq<Action>)
    ensures var w := Run(limits, inboxLimit, actions);
            w.inbox.gaps == 0 && forall f | f in w.frames :: Welcome(w.inbox.spool, f)
  {
    hide Run, InboxOk, DeliveryOk, SessionOk, FrameOk, Welcome;
    var w := Run(limits, inboxLimit, actions);
    forall f | f in w.frames ensures Welcome(w.inbox.spool, f) {
      assert FrameOk(w, f);
      FrameSession(w, f);
      FrameWelcome(w, f);
    }
  }

  // The inbox answers this frame neither as a gap nor as malformed.
  ghost predicate Welcome(spool: Spool, f: Frame) {
    var reply := Accepted(spool, f.session, f.id, f.payload).1;
    !reply.Gap? && !reply.Invalid?
  }

  lemma FrameWelcome(w: World, f: Frame)
    requires FrameOk(w, f) && SessionOk(w, f.session)
    ensures Welcome(w.inbox.spool, f)
  {
    hide SessionOk, FrameOk;
    FrameMeetsMark(w, f);
    FrameIsLegal(w, f);
  }

  lemma FrameIsLegal(w: World, f: Frame)
    requires FrameOk(w, f) && SessionOk(w, f.session)
    ensures Legal(f.payload) && 1 <= f.id <= MAX_ID
  {
    hide Payloads, Size, MarkOk;
    assert OutboxOk(f.session, w.senders[f.session]);
  }

  // ---- delivery to the local receiver ----

  lemma {:induction false} OrderedCovers(rows: seq<Row>, published: seq<Row>, id: nat)
    requires Ordered(rows, published) && 1 <= id <= LastPublished(published)
    ensures exists i :: 0 <= i < |published| && published[i].id == id
  {
    var n := |published| - 1;
    if published[n].id > id {
      assert Ordered(rows, published[..n]);
      OrderedCovers(rows, published[..n], id);
      var i :| 0 <= i < n && published[..n][i].id == id;
      assert published[i].id == id;
    }
  }

  // Over every run rows are published in id order from the first on: an id never decreases and never
  // skips, so repeats are adjacent, and a published row is the accepted one.
  lemma PublishedInOrder(limits: map<Session, nat>, inboxLimit: nat, actions: seq<Action>)
    ensures var x := Run(limits, inboxLimit, actions).inbox;
            && (|x.published| > 0 ==> x.published[0].id == 1)
            && (forall i | 0 < i < |x.published| :: x.published[i - 1].id <= x.published[i].id <= x.published[i - 1].id + 1)
            && (forall i | 0 <= i < |x.published| ::
                  1 <= x.published[i].id <= |x.rows| && x.published[i] == x.rows[x.published[i].id - 1])
  {
    hide Run, SessionsOk, NetworkOk;
    var w := Run(limits, inboxLimit, actions);
    assert InboxOk(w.inbox) && DeliveryOk(w.inbox);
  }

  // Over every run a row missing from the inbox was published, and its publication was acknowledged.
  lemma RetiredWasPublished(limits: map<Session, nat>, inboxLimit: nat, actions: seq<Action>)
    ensures var x := Run(limits, inboxLimit, actions).inbox;
            forall i | 0 <= i < |x.rows| && x.rows[i] !in x.spool.pending :: x.rows[i].id in x.confirmed && x.rows[i] in x.published
  {
    hide Run, SessionsOk, NetworkOk, SpoolOk, InboxOk, Ordered;
    PublishedInOrder(limits, inboxLimit, actions);
    var x := Run(limits, inboxLimit, actions).inbox;
    forall i | 0 <= i < |x.rows| && x.rows[i] !in x.spool.pending ensures x.rows[i].id in x.confirmed && x.rows[i] in x.published {
      RetiredIsOld(x, i);
      OrderedCovers(x.rows, x.published, x.rows[i].id);
    }
  }

  lemma RetiredIsOld(x: Inbox, i: nat)
    requires InboxOk(x) && i < |x.rows|
    ensures x.rows[i].id == i + 1 && (i < Retirements(x.spool) || x.rows[i] in x.spool.pending)
  {
    hide SpoolOk;
    var k := Retirements(x.spool);
    if i >= k {
      assert x.spool.pending[i - k] == x.rows[i];
    }
  }

  // ---- end to end ----

  // The published rows with adjacent repeats removed.
  ghost function Squeezed(rows: seq<Row>): (r: seq<Row>) {
    if |rows| == 0 then [] else
      var n := |rows| - 1;
      if n > 0 && rows[n - 1].id == rows[n].id then Squeezed(rows[..n]) else Squeezed(rows[..n]) + [rows[n]]
  }

  lemma {:induction false} SqueezedIsPrefix(rows: seq<Row>, published: seq<Row>)
    requires Ordered(rows, published)
    requires forall i | 0 <= i < |published| :: 1 <= published[i].id <= |rows| && published[i] == rows[published[i].id - 1]
    ensures Squeezed(published) == rows[..LastPublished(published)]
  {
    hide Ordered;
    if |published| > 0 {
      var n := |published| - 1;
      OrderedInit(rows, published);
      SqueezedIsPrefix(rows, published[..n]);
      var last := LastPublished(published[..n]);
      if published[n].id != last {
        assert rows[..last] + [rows[last]] == rows[..last + 1];
      }
    }
  }

  lemma OrderedInit(rows: seq<Row>, published: seq<Row>)
    requires Ordered(rows, published) && |published| > 0
    ensures var n := |published| - 1;
            var last := LastPublished(published[..n]);
            Ordered(rows, published[..n]) && last <= published[n].id <= last + 1 && (n == 0 ==> published[n].id == 1)
  {
    var n := |published| - 1;
    assert forall i | 0 <= i < n :: published[..n][i] == published[i];
  }

  lemma {:induction false} PayloadsOfPrefix(rows: seq<Row>, n: nat, s: Session)
    requires n <= |rows|
    ensures Payloads(rows[..n], s) <= Payloads(rows, s)
  {
    if n < |rows| {
      assert rows[..|rows| - 1][..n] == rows[..n];
      PayloadsOfPrefix(rows[..|rows| - 1], n, s);
    } else {
      assert rows[..n] == rows;
    }
  }

  // What the local receiver took, repeats removed, is for each session a prefix of what its sender committed.
  lemma EndToEnd(limits: map<Session, nat>, inboxLimit: nat, actions: seq<Action>, s: Session)
    requires s in limits
    ensures var w := Run(limits, inboxLimit, actions);
            s in w.senders && Payloads(Squeezed(w.inbox.published), s) <= w.senders[s].committed
  {
    hide Run, Inv, Payloads, Squeezed;
    var w := Run(limits, inboxLimit, actions);
    var x := w.inbox;
    PublishedInOrder(limits, inboxLimit, actions);
    SqueezedIsPrefix(x.rows, x.published);
    PayloadsOfPrefix(x.rows, LastPublished(x.published), s);
    AcceptedIsPrefix(limits, inboxLimit, actions, s);
  }

  // ---- nothing is refused without a reason ----

  lemma MarkCounts(w: World, s: Session)
    requires Inv(w) && s in w.senders
    ensures |Payloads(w.inbox.rows, s)| == High(w.inbox.spool, s)
  {
    hide InboxOk, DeliveryOk, NetworkOk, SenderOk, Payloads;
    assert SessionOk(w, s);
    SessionFacts(w, s);
  }

  lemma GotFrame(w: World)
    requires Inv(w) && w.inbox.rx.Got?
    ensures var f := w.inbox.rx.frame;
            && FrameOk(w, f) && f.session in w.senders && SessionOk(w, f.session) && Legal(f.payload) && 1 <= f.id <= MAX_ID
            && SpoolOk(w.inbox.spool) && w.inbox.spool.issued == |w.inbox.rows| && w.inbox.spool.usage == Size(w.inbox.spool.pending)
  {
    hide DeliveryOk, SessionOk, FrameOk;
    var f := w.inbox.rx.frame;
    FrameSession(w, f);
    assert SessionOk(w, f.session);
    FrameIsLegal(w, f);
    InboxFacts(w.inbox);
  }

  // A frame whose payload was accepted before changes nothing in the inbox and is acknowledged again.
  lemma RepeatIsAcknowledged(w: World)
    requires Inv(w) && w.inbox.rx.Got? && |Payloads(w.inbox.rows, w.inbox.rx.frame.session)| >= w.inbox.rx.frame.id
    ensures var f, w1 := w.inbox.rx.frame, Step(w, RxAccept);
            && w1 == w.(inbox := w.inbox.(rx := Kept(f))) && Inv(w1)
            && Step(w1, RxAck) == w.(inbox := w.inbox.(rx := Listening), acks := w.acks + {(f.session, f.id)})
  {
    hide Inv, FrameOk, SessionOk, SpoolOk;
    GotFrame(w);
    MarkCounts(w, w.inbox.rx.frame.session);
    StepKeeps(w, RxAccept);
    var w1 := Step(w, RxAccept);
    InvSpool(w1);
  }

  lemma InvSpool(w: World)
    requires Inv(w)
    ensures SpoolOk(w.inbox.spool) && InboxOk(w.inbox) && forall s | s in w.senders :: SpoolOk(w.senders[s].spool)
  {
    hide DeliveryOk, NetworkOk, SpoolOk, InboxOk;
    InboxFacts(w.inbox);
    forall s | s in w.senders ensures SpoolOk(w.senders[s].spool) {
      assert SessionOk(w, s);
      SessionFacts(w, s);
    }
  }

  // There is a place for the payload: a known session or fewer than 64, an id left, and bytes left.
  predicate HasRoom(x: Inbox, s: Session, payload: Payload) {
    && (s in x.spool.received || |x.spool.received| < MAX_SESSIONS) && |x.rows| < MAX_ID
    && Size(x.spool.pending) + |payload| <= x.spool.limit
  }

  // The next payload of a session is accepted if there is room, and otherwise nothing changes.
  lemma NextIsAccepted(w: World)
    requires Inv(w) && w.inbox.rx.Got? && |Payloads(w.inbox.rows, w.inbox.rx.frame.session)| == w.inbox.rx.frame.id - 1
    ensures var f, w1 := w.inbox.rx.frame, Step(w, RxAccept);
            if HasRoom(w.inbox, f.session, f.payload) then
              && w1.inbox.rx == Kept(f) && w1.senders == w.senders && w1.frames == w.frames && w1.acks == w.acks
              && w1.inbox.rows == w.inbox.rows + [Row(|w.inbox.rows| + 1, f.session, f.id, f.payload)]
              && Payloads(w1.inbox.rows, f.session) == Payloads(w.inbox.rows, f.session) + [f.payload]
            else w1 == w.(inbox := w.inbox.(rx := Listening))
  {
    hide Inv, FrameOk, SessionOk, SpoolOk, Size, Payloads;
    var f := w.inbox.rx.frame;
    GotFrame(w);
    MarkCounts(w, f.session);
    PayloadsSnoc(w.inbox.rows, Row(|w.inbox.rows| + 1, f.session, f.id, f.payload), f.session);
  }

  // A payload offered to a sender is committed under the next id if the ingress is idle, the payload is
  // legal and fits and ids are left; otherwise nothing changes.
  ghost predicate CommitsIfFits(s: Session, x: Sender, payload: Payload, after: Sender) {
    if x.ingress.None? && 1 <= |payload| <= 1100 && Size(x.spool.pending) + |payload| <= x.spool.limit && |x.committed| < MAX_ID then
      && after.committed == x.committed + [payload] && after.ingress == Some(|after.committed|)
      && after.spool.pending == x.spool.pending + [Row(|after.committed|, s, 0, payload)]
      && after.acknowledged == x.acknowledged && after.tx == x.tx
    else after == x
  }

  lemma IngressCommits(w: World, s: Session, payload: Payload)
    requires Inv(w) && s in w.senders
    ensures s in Step(w, Ingress(s, payload)).senders
    ensures CommitsIfFits(s, w.senders[s], payload, Step(w, Ingress(s, payload)).senders[s])
  {
    hide Inv, Size;
    InvSender(w, s);
  }

  // What was committed is then acknowledged to the producer.
  lemma LocalAckAcknowledges(w: World, s: Session)
    requires Inv(w) && s in w.senders && w.senders[s].ingress.Some?
    ensures s in Step(w, LocalAck(s)).senders
    ensures var x, after := w.senders[s], Step(w, LocalAck(s)).senders[s];
            after.acknowledged == x.acknowledged + {x.ingress.value} && after.ingress.None?
  {
    hide Inv, Size;
    InvSender(w, s);
  }

  lemma InvSender(w: World, s: Session)
    requires Inv(w)
    ensures s in w.senders ==>
      var x := w.senders[s];
      SpoolOk(x.spool) && x.spool.session == s && x.spool.issued == |x.committed| && x.spool.usage == Size(x.spool.pending)
  {
    hide InboxOk, DeliveryOk, NetworkOk, Payloads, Size;
    if s in w.senders { assert SessionOk(w, s); }
  }

  // ---- a payload gets through when nothing goes wrong ----

  ghost function Steps(w: World, actions: seq<Action>): (r: World)
    requires Inv(w)
    ensures Inv(r)
  {
    if |actions| == 0 then w
    else
      var n := |actions| - 1;
      StepKeeps(Steps(w, actions[..n]), actions[n]);
      Step(Steps(w, actions[..n]), actions[n])
  }

  lemma StepsSnoc(w: World, actions: seq<Action>, a: Action)
    requires Inv(w)
    ensures Steps(w, actions + [a]) == Step(Steps(w, actions), a)
  {
    hide Step, Inv;
    assert (actions + [a])[..|actions|] == actions;
  }

  lemma NoSteps(w: World)
    requires Inv(w)
    ensures Steps(w, []) == w
  {}

  lemma TwoSteps(w: World, a: Action, b: Action)
    requires Inv(w)
    ensures Inv(Step(w, a)) && Steps(w, [a, b]) == Step(Step(w, a), b)
  {
    hide Step, Inv, Steps;
    NoSteps(w);
    StepsSnoc(w, [], a);
    StepsSnoc(w, [a], b);
    assert [] + [a] == [a] && [a] + [b] == [a, b];
  }

  lemma ErrorRests(w: World, s: Session)
    requires Inv(w) && s in w.senders
    ensures Step(w, TxError(s)) == w.(senders := w.senders[s := w.senders[s].(tx := Resting)])
  {
    hide Inv;
    InvSender(w, s);
  }

  lemma FirstIsHeld(w: World, s: Session)
    requires Inv(w) && s in w.senders && w.senders[s].tx.Resting? && |w.senders[s].spool.pending| > 0
    ensures var x := w.senders[s]; Step(w, TxFirst(s)) == w.(senders := w.senders[s := x.(tx := Holding(x.spool.pending[0]))])
  {
    hide Inv;
    InvSender(w, s);
  }

  lemma HeldIsSent(w: World, s: Session)
    requires Inv(w) && s in w.senders && w.senders[s].tx.Holding?
    ensures var x, row := w.senders[s], w.senders[s].tx.row;
            Step(w, TxSend(s)) == w.(senders := w.senders[s := x.(tx := Awaiting(row))], frames := w.frames + {Frame(s, row.id, row.payload)})
  {
    hide Inv;
    InvSender(w, s);
  }

  // Whatever the sender was doing, it sends the first row of its outbox after a reconnect.
  lemma SendsFirstRow(w: World, s: Session)
    requires Inv(w) && s in w.senders && |w.senders[s].spool.pending| > 0
    ensures var row, x, w1 := w.senders[s].spool.pending[0], w.senders[s], Steps(w, [TxError(s), TxFirst(s), TxSend(s)]);
            && w1.senders == w.senders[s := x.(tx := Awaiting(row))] && w1.acks == w.acks && w1.inbox == w.inbox
            && w1.frames == w.frames + {Frame(s, row.id, row.payload)}
  {
    hide Inv, Steps, Step;
    TwoSteps(w, TxError(s), TxFirst(s));
    StepsSnoc(w, [TxError(s), TxFirst(s)], TxSend(s));
    assert [TxError(s), TxFirst(s)] + [TxSend(s)] == [TxError(s), TxFirst(s), TxSend(s)];
    ErrorRests(w, s);
    FirstIsHeld(Step(w, TxError(s)), s);
    HeldIsSent(Steps(w, [TxError(s), TxFirst(s)]), s);
  }

  // A frame on the network reaches the inbox thread after a reconnect.
  lemma TakesFrame(w: World, f: Frame)
    requires Inv(w) && f in w.frames
    ensures Steps(w, [RxError, RxTake(f)]) == w.(inbox := w.inbox.(rx := Got(f)))
  {
    hide Inv, Steps;
    TwoSteps(w, RxError, RxTake(f));
    InvSpool(w);
    InvSpool(Step(w, RxError));
  }

  // A frame in hand that was accepted before or has room is acknowledged, and then counts as accepted.
  lemma AcknowledgesFrame(w: World)
    requires Inv(w) && w.inbox.rx.Got?
    requires var f := w.inbox.rx.frame;
             |Payloads(w.inbox.rows, f.session)| >= f.id || HasRoom(w.inbox, f.session, f.payload)
    ensures var f, w1 := w.inbox.rx.frame, Steps(w, [RxAccept, RxAck]);
            && w1.senders == w.senders && w1.frames == w.frames && w1.acks == w.acks + {(f.session, f.id)}
            && |Payloads(w1.inbox.rows, f.session)| >= f.id
  {
    hide Inv, Steps, Payloads, FrameOk, HasRoom, Step;
    var f := w.inbox.rx.frame;
    TwoSteps(w, RxAccept, RxAck);
    AtMostNext(w);
    var w1 := Step(w, RxAccept);
    if |Payloads(w.inbox.rows, f.session)| >= f.id {
      RepeatIsAcknowledged(w);
    } else {
      NextIsAccepted(w);
      AcksKept(w1);
    }
  }

  lemma AtMostNext(w: World)
    requires Inv(w) && w.inbox.rx.Got?
    ensures w.inbox.rx.frame.session in w.senders && w.inbox.rx.frame.id <= |Payloads(w.inbox.rows, w.inbox.rx.frame.session)| + 1
  {
    hide Inv, Payloads, FrameOk, SessionOk;
    GotFrame(w);
    MarkCounts(w, w.inbox.rx.frame.session);
    FrameMeetsMark(w, w.inbox.rx.frame);
  }

  lemma AcksKept(w: World)
    requires Inv(w) && w.inbox.rx.Kept?
    ensures var f := w.inbox.rx.frame;
            Step(w, RxAck) == w.(inbox := w.inbox.(rx := Listening), acks := w.acks + {(f.session, f.id)})
  {
    hide Inv;
    InvSpool(w);
  }

  lemma AckMatches(w: World, s: Session)
    requires Inv(w) && s in w.senders && w.senders[s].tx.Awaiting? && (s, w.senders[s].tx.row.id) in w.acks
    ensures var x := w.senders[s]; Step(w, TxAck(s, x.tx.row.id)) == w.(senders := w.senders[s := x.(tx := Matched(x.tx.row))])
  {
    hide Inv;
    InvSender(w, s);
  }

  lemma MatchedRetires(w: World, s: Session)
    requires Inv(w) && s in w.senders && w.senders[s].tx.Matched?
    ensures SpoolOk(w.senders[s].spool)
    ensures var x := w.senders[s];
            Step(w, TxRetire(s)) == w.(senders := w.senders[s := x.(spool := Retired(x.spool, x.tx.row.id), tx := Resting)])
  {
    hide Inv, Retired;
    InvSender(w, s);
  }

  // An acknowledged row is retired, and the next one is first.
  lemma RetiresFirstRow(w: World, s: Session)
    requires Inv(w) && s in w.senders && w.senders[s].tx.Awaiting? && (s, w.senders[s].tx.row.id) in w.acks
    ensures var x, w1 := w.senders[s], Steps(w, [TxAck(s, w.senders[s].tx.row.id), TxRetire(s)]);
            && s in w1.senders && w1.inbox == w.inbox && |x.spool.pending| > 0
            && w1.senders[s].spool.pending == x.spool.pending[1..] && w1.senders[s].tx.Resting? && w1.senders[s].committed == x.committed
  {
    hide Inv, Steps, Retired, Step;
    var x := w.senders[s];
    var ack := TxAck(s, x.tx.row.id);
    TwoSteps(w, ack, TxRetire(s));
    AckMatches(w, s);
    MatchedRetires(Step(w, ack), s);
    FirstInHand(w, s);
    InvSender(w, s);
    RetireFirst(x.spool);
  }

  lemma FirstInHand(w: World, s: Session)
    requires Inv(w) && s in w.senders && !w.senders[s].tx.Resting?
    ensures var x := w.senders[s]; |x.spool.pending| > 0 && x.tx.row == x.spool.pending[0]
  {
    hide InboxOk, DeliveryOk, NetworkOk, Payloads, OutboxOk;
    assert SessionOk(w, s);
  }

  // The undisturbed exchange: reconnect, send, accept, acknowledge, retire.
  ghost function Exchanged(w: World, s: Session): (r: World)
    requires Inv(w) && s in w.senders && |w.senders[s].spool.pending| > 0
    ensures Inv(r)
  {
    var row := w.senders[s].spool.pending[0];
    var sent := Steps(w, [TxError(s), TxFirst(s), TxSend(s)]);
    var taken := Steps(sent, [RxError, RxTake(Frame(s, row.id, row.payload))]);
    var acked := Steps(taken, [RxAccept, RxAck]);
    Steps(acked, [TxAck(s, row.id), TxRetire(s)])
  }

  // From every reachable state, an undisturbed exchange moves the first row of an outbox to the inbox
  // and retires it, if the inbox had it already or has room for it.
  lemma ExchangeCompletes(w: World, s: Session)
    requires Inv(w) && s in w.senders && |w.senders[s].spool.pending| > 0
    requires var row := w.senders[s].spool.pending[0];
             |Payloads(w.inbox.rows, s)| >= row.id || HasRoom(w.inbox, s, row.payload)
    ensures var x, row, w' := w.senders[s], w.senders[s].spool.pending[0], Exchanged(w, s);
            && s in w'.senders && w'.senders[s].spool.pending == x.spool.pending[1..] && w'.senders[s].committed == x.committed
            && |Payloads(w'.inbox.rows, s)| >= row.id
  {
    hide Inv, Steps, Payloads, FrameOk, Size;
    var x, row := w.senders[s], w.senders[s].spool.pending[0];
    var f := Frame(s, row.id, row.payload);
    SendsFirstRow(w, s);
    var sent := Steps(w, [TxError(s), TxFirst(s), TxSend(s)]);
    TakesFrame(sent, f);
    var taken := Steps(sent, [RxError, RxTake(f)]);
    GotFrame(taken);
    AcknowledgesFrame(taken);
    var acked := Steps(taken, [RxAccept, RxAck]);
    RetiresFirstRow(acked, s);
  }

  // The undisturbed delivery over a drained link: reconnect, send, publish, confirm, retire.
  lemma DeliveryCompletes(x: Inbox)
    requires InboxOk(x) && DeliveryOk(x) && |x.spool.pending| > 0 && x.link == []
    ensures SpoolOk(x.spool)
    ensures var row := x.spool.pending[0];
            var x1 := DeliveryStep(DeliveryStep(DeliveryStep(DeliveryStep(x, DxError), DxFirst), DxSend), Publish(true));
            && x1.spool == x.spool && x1.published == x.published + [row] && x1.dx == Sent(row) && x1.connection in x1.confirms
            && var x2 := DeliveryStep(x1, DxConfirm);
               && x2.dx == Confirmed(row) && x2.spool == x.spool
               && DeliveryStep(x2, DxRetire).spool.pending == x.spool.pending[1..]
               && DeliveryStep(x2, DxRetire).confirmed == x.confirmed + {row.id}
  {
    hide InboxOk, DeliveryOk, SpoolOk, Retired;
    InboxFacts(x);
    RetireFirst(x.spool);
  }

  // ---- crashes and losses ----

  // A crash of a sender leaves what its store committed and nothing else: the exchange in progress and the
  // local acknowledgement still owed are forgotten.
  lemma SenderCrashKeepsCommitted(w: World, s: Session)
    requires Inv(w) && s in w.senders
    ensures var x, w' := w.senders[s], Step(w, SenderCrash(s));
            && w' == w.(senders := w.senders[s := x.(tx := Resting, ingress := None)])
            && Inv(w') && w'.senders[s].spool == x.spool && w'.senders[s].committed == x.committed
  {
    hide Inv;
    InvSender(w, s);
    InvSpool(w);
    StepKeeps(w, SenderCrash(s));
  }

  // A crash of the inbox host keeps every accepted row; what its connections still owed is never confirmed.
  lemma InboxCrashKeepsRows(w: World)
    requires Inv(w)
    ensures var x, w' := w.inbox, Step(w, InboxCrash);
            && w'.senders == w.senders && w'.frames == w.frames && w'.acks == w.acks
            && w'.inbox.spool == x.spool && w'.inbox.rows == x.rows && w'.inbox.published == x.published
            && w'.inbox.rx == Listening && w'.inbox.dx == Waiting && w'.inbox.connection !in w'.inbox.confirms
  {
    hide Inv;
    InvSpool(w);
    InvConfirms(w);
  }

  lemma InvConfirms(w: World)
    requires Inv(w)
    ensures forall c | c in w.inbox.confirms :: c <= w.inbox.connection
  {
    hide InboxOk, NetworkOk, SessionsOk;
  }

  // An acknowledgement for another row ends the exchange: the row stays and is sent again.
  lemma OtherAckRestarts(w: World, s: Session, id: nat)
    requires Inv(w) && s in w.senders && w.senders[s].tx.Awaiting? && (s, id) in w.acks && id != w.senders[s].tx.row.id
    ensures Step(w, TxAck(s, id)) == w.(senders := w.senders[s := w.senders[s].(tx := Resting)])
  {
    hide Inv;
    InvSender(w, s);
  }

  // A frame that the local receiver does not take, or that the link loses, leaves the link and stays in the inbox.
  lemma LossLeavesRow(w: World, i: nat)
    requires Inv(w) && i < |w.inbox.link|
    ensures var x, lost, refused := w.inbox, Step(w, LinkLoss(i)).inbox, Step(w, Publish(false)).inbox;
            && lost == x.(link := x.link[..i] + x.link[i + 1..]) && |lost.link| == |x.link| - 1 && lost.spool == x.spool
            && refused == x.(link := x.link[1..]) && refused.published == x.published && refused.spool == x.spool
  {
    hide Inv;
    InvSpool(w);
  }
}
