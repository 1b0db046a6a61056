/** The durable spool: each operation is one committed transaction on its tables. */
module Durable {
  import opened Bytes
  import opened Options

  type Payload = seq<byte>
  type Session = nat

  const MAX_PAYLOAD: nat := 1100
  const MAX_SESSIONS: nat := 64
  const MAX_ID: nat := 0x7fff_ffff_ffff_ffff

  datatype Row = Row(id: nat, session: Session, remoteId: nat, payload: Payload)

  // Pending rows in id order, the last id issued, the high-water marks and the byte count.
  datatype Spool = Spool(session: Session, limit: nat, issued: nat, pending: seq<Row>, received: map<Session, nat>, usage: nat)

  datatype Reply = Done(id: nat) | Repeat | Invalid | Gap | SessionLimit | Full

  function Fresh(session: Session, limit: nat): Spool { Spool(session, limit, 0, [], map[], 0) }

  function Size(rows: seq<Row>): nat {
    if |rows| == 0 then 0 else Size(rows[..|rows| - 1]) + |rows[|rows| - 1].payload|
  }

  predicate Legal(payload: Payload) { 1 <= |payload| <= MAX_PAYLOAD }

  function High(sp: Spool, session: Session): nat { if session in sp.received then sp.received[session] else 0 }

  function Inserted(sp: Spool, session: Session, remoteId: nat, payload: Payload): Spool {
    sp.(issued := sp.issued + 1, pending := sp.pending + [Row(sp.issued + 1, session, remoteId, payload)],
        usage := sp.usage + |payload|)
  }

  function Enqueued(sp: Spool, payload: Payload): (r: (Spool, Reply)) {
    if !Legal(payload) then (sp, Invalid)
    else if sp.usage + |payload| > sp.limit || sp.issued >= MAX_ID then (sp, Full)
    else (Inserted(sp, sp.session, 0, payload), Done(sp.issued + 1))
  }

  function Accepted(sp: Spool, session: Session, sequence: nat, payload: Payload): (r: (Spool, Reply)) {
    var high := High(sp, session);
    if !(1 <= sequence <= MAX_ID) || !Legal(payload) then (sp, Invalid)
    else if sequence <= high then (sp, Repeat)
    else if sequence != high + 1 then (sp, Gap)
    else if session !in sp.received && |sp.received| >= MAX_SESSIONS then (sp, SessionLimit)
    else if sp.usage + |payload| > sp.limit || sp.issued >= MAX_ID then (sp, Full)
    else (Inserted(sp, session, sequence, payload).(received := sp.received[session := sequence]), Done(sp.issued + 1))
  }

  function FirstOf(sp: Spool): (r: Option<Row>) { if |sp.pending| == 0 then None else Some(sp.pending[0]) }

  // Deletes the row with this id, if there is one.
  function Retired(sp: Spool, id: nat): (r: Spool)
    requires SpoolOk(sp)
  {
    match Find(sp.pending, id)
    case None => sp
    case Some(i) =>
      SizeAt(sp.pending, i);
      sp.(pending := sp.pending[..i] + sp.pending[i + 1..], usage := sp.usage - |sp.pending[i].payload|)
  }

  function Find(rows: seq<Row>, id: nat): (r: Option<nat>)
    ensures r.None? ==> forall i | 0 <= i < |rows| :: rows[i].id != id
    ensures r.Some? ==> r.value < |rows| && rows[r.value].id == id
  {
    if |rows| == 0 then None
    else if rows[|rows| - 1].id == id then Some(|rows| - 1)
    else Find(rows[..|rows| - 1], id)
  }

  // What every transaction keeps: ids rise, the byte count is exact and within the limit.
  ghost predicate SpoolOk(sp: Spool) {
    && RowsOk(sp.pending, sp.issued) && sp.usage == Size(sp.pending) <= sp.limit
    && |sp.received| <= MAX_SESSIONS && sp.issued <= MAX_ID
    && forall s | s in sp.received :: 1 <= sp.received[s] <= MAX_ID
  }

  lemma SizeSnoc(rows: seq<Row>, row: Row)
    ensures Size(rows + [row]) == Size(rows) + |row.payload|
  {
    assert (rows + [row])[..|rows|] == rows;
  }

  // Deleting a row takes its bytes off the sum.
  lemma {:induction false} SizeAt(rows: seq<Row>, i: nat)
    requires i < |rows|
    ensures Size(rows) == Size(rows[..i] + rows[i + 1..]) + |rows[i].payload|
  {
    var n := |rows| - 1;
    if i == n {
      assert rows[..i] + rows[i + 1..] == rows[..n];
    } else {
      SizeAt(rows[..n], i);
      assert rows[..i] + rows[i + 1..] == (rows[..n][..i] + rows[..n][i + 1..]) + [rows[n]];
      SizeSnoc(rows[..n][..i] + rows[..n][i + 1..], rows[n]);
    }
  }

  // Ids rise and stay within those issued; payloads are legal.
  ghost predicate RowsOk(rows: seq<Row>, issued: nat) {
    && (forall i | 0 <= i < |rows| :: 1 <= rows[i].id <= issued && Legal(rows[i].payload))
    && (forall i, j | 0 <= i < j < |rows| :: rows[i].id < rows[j].id)
  }

  lemma RowsSnoc(rows: seq<Row>, issued: nat, row: Row)
    requires RowsOk(rows, issued) && row.id == issued + 1 && Legal(row.payload)
    ensures RowsOk(rows + [row], issued + 1)
  {
    hide Legal;
  }

  lemma RowsWithout(rows: seq<Row>, issued: nat, i: nat)
    requires RowsOk(rows, issued) && i < |rows|
    ensures var rest := rows[..i] + rows[i + 1..];
            RowsOk(rest, issued) && forall j | 0 <= j < |rest| :: rest[j].id != rows[i].id
  {
    hide Legal;
    var rest := rows[..i] + rows[i + 1..];
    assert forall j | 0 <= j < |rest| :: rest[j] == rows[if j < i then j else j + 1];
  }

  lemma InsertedOk(sp: Spool, session: Session, remoteId: nat, payload: Payload)
    requires SpoolOk(sp) && Legal(payload) && sp.usage + |payload| <= sp.limit && sp.issued < MAX_ID
    ensures SpoolOk(Inserted(sp, session, remoteId, payload))
  {
    hide Size, RowsOk;
    var row := Row(sp.issued + 1, session, remoteId, payload);
    RowsSnoc(sp.pending, sp.issued, row);
    SizeSnoc(sp.pending, row);
  }

  lemma EnqueueOk(sp: Spool, payload: Payload)
    requires SpoolOk(sp)
    ensures SpoolOk(Enqueued(sp, payload).0)
  {
    hide SpoolOk;
    if Enqueued(sp, payload).1.Done? {
      InsertedOk(sp, sp.session, 0, payload);
    }
  }

  lemma AcceptOk(sp: Spool, session: Session, sequence: nat, payload: Payload)
    requires SpoolOk(sp)
    ensures SpoolOk(Accepted(sp, session, sequence, payload).0)
  {
    hide Size, RowsOk;
    if Accepted(sp, session, sequence, payload).1.Done? {
      InsertedOk(sp, session, sequence, payload);
      MarkSize(sp.received, session, sequence);
    }
  }

  lemma MarkSize(received: map<Session, nat>, session: Session, sequence: nat)
    ensures |received[session := sequence]| == if session in received then |received| else |received| + 1
  {
    var after := received[session := sequence];
    assert after.Keys == received.Keys + {session};
    assert |after| == |after.Keys| && |received| == |received.Keys|;
  }

  lemma RetireOk(sp: Spool, id: nat)
    requires SpoolOk(sp)
    ensures SpoolOk(Retired(sp, id)) && forall i | 0 <= i < |Retired(sp, id).pending| :: Retired(sp, id).pending[i].id != id
  {
    hide Size, RowsOk, Find;
    var found := Find(sp.pending, id);
    if found.Some? {
      SizeAt(sp.pending, found.value);
      RowsWithout(sp.pending, sp.issued, found.value);
    }
  }

  lemma RetireFirst(sp: Spool)
    requires SpoolOk(sp) && |sp.pending| > 0
    ensures var r := Retired(sp, sp.pending[0].id);
            && r.pending == sp.pending[1..] && r.issued == sp.issued && r.session == sp.session
            && r.received == sp.received && SpoolOk(r)
  {
    RetireOk(sp, sp.pending[0].id);
    var i := Find(sp.pending, sp.pending[0].id).value;
    assert i == 0;
  }

  // ---- what each reply means ----

  // A payload is stored exactly when it is legal, ids are left and it fits; otherwise nothing changes.
  lemma EnqueueReplies(sp: Spool, payload: Payload)
    requires SpoolOk(sp)
    ensures var (after, reply) := Enqueued(sp, payload);
            && (reply == Invalid <==> |payload| == 0 || |payload| > 1100)
            && (reply.Done? <==> 1 <= |payload| <= 1100 && sp.issued < 0x7fff_ffff_ffff_ffff && Size(sp.pending) + |payload| <= sp.limit)
            && (reply.Done? || reply == Invalid || reply == Full)
            && (if reply.Done? then reply.id == sp.issued + 1 && after.pending == sp.pending + [Row(reply.id, sp.session, 0, payload)] else after == sp)
  {
    hide Size, RowsOk;
  }

  // A remote payload is stored exactly when it is the next of its session, legal, and there is room for the
  // session, the id and the bytes; a repeat is told apart from a gap and from a spool that is full.
  lemma AcceptReplies(sp: Spool, session: Session, sequence: nat, payload: Payload)
    requires SpoolOk(sp)
    ensures var (after, reply), high := Accepted(sp, session, sequence, payload), High(sp, session);
            && (reply == Invalid <==> sequence == 0 || sequence > 0x7fff_ffff_ffff_ffff || |payload| == 0 || |payload| > 1100)
            && (reply == Repeat ==> sequence <= high) && (reply == Gap ==> sequence > high + 1)
            && (reply == SessionLimit || reply == Full || reply.Done? ==> sequence == high + 1)
            && (reply == SessionLimit ==> high == 0 && |sp.received| == 64)
            && (reply == Full ==> Size(sp.pending) + |payload| > sp.limit || sp.issued == 0x7fff_ffff_ffff_ffff)
            && (reply.Done? ==> (high > 0 || |sp.received| < 64) && Size(sp.pending) + |payload| <= sp.limit)
            && (if reply.Done? then
                  && reply.id == sp.issued + 1 && after.pending == sp.pending + [Row(reply.id, session, sequence, payload)]
                  && High(after, session) == sequence && forall s | s != session :: High(after, s) == High(sp, s)
                else after == sp)
  {
    hide Size, RowsOk;
  }

  // ---- the store ----

  class Store {
    const session: Session
    const limit: nat
    var issued: nat
    var pending: seq<Row>
    var received: map<Session, nat>
    var usage: nat

    ghost function Contents(): Spool
      reads this
    {
      Spool(session, limit, issued, pending, received, usage)
    }

    ghost predicate Valid()
      reads this
    {
      SpoolOk(Contents())
    }

    constructor (session: Session, limit: nat)
      ensures Valid() && Contents() == Fresh(session, limit)
    {
      this.session, this.limit := session, limit;
      issued, pending, received, usage := 0, [], map[], 0;
    }

    // One insertion with its trigger on the byte count.
    method Insert(from: Session, remoteId: nat, payload: Payload)
      modifies this
      ensures Contents() == Inserted(old(Contents()), from, remoteId, payload)
    {
      issued := issued + 1;
      pending := pending + [Row(issued, from, remoteId, payload)];
      usage := usage + |payload|;
    }

    method Enqueue(payload: Payload) returns (reply: Reply)
      requires Valid()
      modifies this
      ensures Valid()
      ensures (Contents(), reply) == Enqueued(old(Contents()), payload)
    {
      hide SpoolOk;
      EnqueueOk(Contents(), payload);
      if !Legal(payload) {
        return Invalid;
      }
      if usage + |payload| > limit || issued >= MAX_ID {
        return Full;
      }
      Insert(session, 0, payload);
      return Done(issued);
    }

    method Accept(from: Session, sequence: nat, payload: Payload) returns (reply: Reply)
      requires Valid()
      modifies this
      ensures Valid()
      ensures (Contents(), reply) == Accepted(old(Contents()), from, sequence, payload)
    {
      hide SpoolOk;
      AcceptOk(Contents(), from, sequence, payload);
      if sequence < 1 || sequence > MAX_ID || !Legal(payload) {
        return Invalid;
      }
      var high := if from in received then received[from] else 0;
      if sequence <= high {
        return Repeat;
      }
      if sequence != high + 1 {
        return Gap;
      }
      if from !in received && |received| >= MAX_SESSIONS {
        return SessionLimit;
      }
      if usage + |payload| > limit || issued >= MAX_ID {
        return Full;
      }
      Insert(from, sequence, payload);
      received := received[from := sequence];
      return Done(issued);
    }

    method First() returns (row: Option<Row>)
      requires Valid()
      ensures row == FirstOf(Contents())
      ensures row.Some? ==> row.value in pending && forall i | 0 <= i < |pending| :: row.value.id <= pending[i].id
      ensures row.None? <==> pending == []
    {
      if |pending| == 0 {
        return None;
      }
      return Some(pending[0]);
    }

    // Deletes one row with its trigger on the byte count.
    method Retire(id: nat)
      requires Valid()
      modifies this
      ensures Valid() && Contents() == Retired(old(Contents()), id)
    {
      hide Size, RowsOk, Find;
      RetireOk(Contents(), id);
      var found := Find(pending, id);
      if found.Some? {
        SizeAt(pending, found.value);
        usage := usage - |pending[found.value].payload|;
        pending := pending[..found.value] + pending[found.value + 1..];
      }
    }
  }
}
