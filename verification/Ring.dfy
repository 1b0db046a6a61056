/** The shared-memory ring: one writer and many readers, interleaved step by step under slot locks. */
module Ring {
  import opened Bytes

  type Frame = seq<byte>

  const FRAME_CAP: nat := 576
  const MAX_READERS: nat := 64

  // Slot count (a power of two, so that masking an index is taking its remainder) and policy.
  datatype Config = Config(count: nat, backpressure: bool)

  datatype Owner = Free | TheWriter | TheReader(id: nat)

  datatype Slot = Slot(owner: Owner, number: nat, len: nat, frame: Frame)

  // Where the writer stands inside `publish`.
  datatype WriterAt =
    | Idle
    | Scanning(next: nat, any: bool, blocked: bool)
    | LoadingCursor(next: nat, any: bool, blocked: bool)
    | Locking
    | ClearingSeq | ClearingLength | Copying(done: nat) | SettingLength | SettingSeq | StoringIndex | Unlocking
    | Dead(cleared: bool)

  // The index and frame being published are locals of `publish`.
  datatype Writer = Writer(at: WriterAt, idx: nat, payload: Frame)

  datatype ReaderAt =
    | Detached | Attaching | Ready
    | Comparing | Lapping | CopyingOut | StoringCursor | Releasing
    | Killed

  // What a read answered, with what was true of the ring when it did.
  datatype Answer =
    | Ok(index: nat, frame: Frame)
    | Busy(index: nat)
    | Empty(index: nat, published: nat, torn: bool)
    | Lapped(index: nat, edge: nat, broken: bool)
    | Corrupt(index: nat)

  // A registry entry with the process that uses it: the index being read, the bytes copied so far,
  // and the history of this registration.
  datatype Reader = Reader(
    at: ReaderAt, registered: bool, cursor: nat, index: nat, out: Frame,
    early: bool, inOrder: bool, oks: nat, answers: seq<Answer>)

  datatype State = State(slots: seq<Slot>, writeIndex: nat, writer: Writer, readers: seq<Reader>, log: seq<Frame>)

  datatype Action =
    | Publish(payload: Frame) | WriterSteps | GiveUp | WriterDies
    | Attach(id: nat) | Read(id: nat, index: nat) | ReaderSteps(id: nat) | Detach(id: nat) | ReaderDies(id: nat)

  const NEW_READER: Reader := Reader(Detached, false, 0, 0, [], false, true, 0, [])

  function Start(c: Config): State {
    State(seq(c.count, _ => Slot(Free, 0, 0, seq(FRAME_CAP, _ => 0))), 0, Writer(Idle, 0, []),
          seq(MAX_READERS, _ => NEW_READER), [])
  }

  // The slot an index is kept in.
  function Pos(c: Config, i: nat): (j: nat)
    requires c.count > 0
    ensures j < c.count
  {
    i % c.count
  }

  predicate Shaped(c: Config, s: State) {
    && c.count > 0 && |s.slots| == c.count && |s.readers| == MAX_READERS
    && forall j | 0 <= j < c.count :: |s.slots[j].frame| == FRAME_CAP
  }

  // ---- the writer ----

  function At(s: State, at: WriterAt): State { s.(writer := s.writer.(at := at)) }

  function SetSlot(s: State, j: nat, slot: Slot): State
    requires j < |s.slots|
  {
    s.(slots := s.slots[j := slot])
  }

  function StartPublish(c: Config, s: State, payload: Frame): State {
    if s.writer.at != Idle || |payload| == 0 || |payload| > FRAME_CAP then s
    else
      var idx := s.writeIndex;
      s.(writer := Writer(if c.backpressure && idx >= c.count then Scanning(0, false, false) else Locking, idx, payload))
  }

  function WriterStep(c: Config, s: State): State
    requires Shaped(c, s)
  {
    var idx, payload := s.writer.idx, s.writer.payload;
    var j := Pos(c, idx);
    var slot := s.slots[j];
    match s.writer.at
    case Idle => s
    case Dead(_) => s
    case Scanning(next, any, blocked) =>
      if next >= MAX_READERS then At(s, if any && !blocked then Locking else Scanning(0, false, false))
      else if s.readers[next].registered then At(s, LoadingCursor(next, true, blocked))
      else At(s, Scanning(next + 1, any, blocked))
    case LoadingCursor(next, any, blocked) =>
      if next >= MAX_READERS then s
      else At(s, Scanning(next + 1, any, blocked || s.readers[next].cursor + c.count <= idx))
    case Locking =>
      if slot.owner != Free then s else At(SetSlot(s, j, slot.(owner := TheWriter)), ClearingSeq)
    case ClearingSeq => At(SetSlot(s, j, slot.(number := 0)), ClearingLength)
    case ClearingLength => At(SetSlot(s, j, slot.(len := 0)), Copying(0))
    case Copying(done) =>
      if done < |payload| && done < FRAME_CAP then
        At(SetSlot(s, j, slot.(frame := slot.frame[done := payload[done]])), Copying(done + 1))
      else At(s, SettingLength)
    case SettingLength => At(SetSlot(s, j, slot.(len := |payload|)), SettingSeq)
    case SettingSeq => At(SetSlot(s, j, slot.(number := idx + 1)), StoringIndex).(log := s.log + [payload])
    case StoringIndex => At(s, Unlocking).(writeIndex := idx + 1)
    case Unlocking => At(SetSlot(s, j, slot.(owner := Free)), Idle)
  }

  predicate WriterHolds(at: WriterAt) {
    at.ClearingSeq? || at.ClearingLength? || at.Copying? || at.SettingLength? || at.SettingSeq? || at.StoringIndex? || at.Unlocking?
  }

  // The slot's number is zero and its contents are not yet complete.
  predicate Cleared(at: WriterAt) {
    at.ClearingLength? || at.Copying? || at.SettingLength? || at.SettingSeq? || (at.Dead? && at.cleared)
  }

  // A robust lock passes from a dead owner to the next one that asks.
  function KillWriter(c: Config, s: State): State
    requires Shaped(c, s)
  {
    var j := Pos(c, s.writer.idx);
    var s' := At(s, Dead(Cleared(s.writer.at)));
    if WriterHolds(s.writer.at) then SetSlot(s', j, s.slots[j].(owner := Free)) else s'
  }

  // ---- readers ----

  function SetReader(s: State, r: nat, reader: Reader): State
    requires r < |s.readers|
  {
    s.(readers := s.readers[r := reader])
  }

  function Answered(reader: Reader, at: ReaderAt, a: Answer): Reader {
    reader.(at := at, answers := reader.answers + [a])
  }

  function StartRead(c: Config, s: State, r: nat, index: nat): State
    requires Shaped(c, s) && r < MAX_READERS
  {
    var reader, j := s.readers[r], Pos(c, index);
    if reader.at != Ready then s
    else
      var reader' := reader.(index := index, out := [], inOrder := reader.inOrder && index == reader.oks);
      if s.slots[j].owner != Free then SetReader(s, r, Answered(reader', Ready, Busy(index)))
      else SetReader(SetSlot(s, j, s.slots[j].(owner := TheReader(r))), r, reader'.(at := Comparing))
  }

  function ReaderStep(c: Config, s: State, r: nat): State
    requires Shaped(c, s) && r < MAX_READERS
  {
    var reader := s.readers[r];
    var j := Pos(c, reader.index);
    var slot := s.slots[j];
    match reader.at
    case Detached => s
    case Ready => s
    case Killed => s
    case Attaching => SetReader(s, r, reader.(at := Ready, registered := true, early := s.writeIndex < c.count))
    case Comparing =>
      if slot.number < reader.index + 1 then
        SetReader(s, r, Answered(reader, Releasing, Empty(reader.index, |s.log|, Torn(c, s, j))))
      else if slot.number > reader.index + 1 then SetReader(s, r, reader.(at := Lapping))
      else if slot.len == 0 || slot.len > FRAME_CAP then SetReader(s, r, Answered(reader, Releasing, Corrupt(reader.index)))
      else SetReader(s, r, reader.(at := CopyingOut))
    case Lapping =>
      SetReader(s, r, Answered(reader, Releasing, Lapped(reader.index, s.writeIndex, Broken(s))))
    case CopyingOut =>
      if |reader.out| < slot.len && |reader.out| < FRAME_CAP then
        SetReader(s, r, reader.(out := reader.out + [slot.frame[|reader.out|]]))
      else SetReader(s, r, reader.(at := StoringCursor))
    case StoringCursor =>
      SetReader(s, r, Answered(reader, Releasing, Ok(reader.index, reader.out)).(cursor := reader.index + 1, oks := reader.oks + 1))
    case Releasing => SetReader(SetSlot(s, j, slot.(owner := Free)), r, reader.(at := Ready))
  }

  // The writer died with slot `j` cleared.
  predicate Torn(c: Config, s: State, j: nat)
    requires c.count > 0
  {
    s.writer.at.Dead? && s.writer.at.cleared && Pos(c, s.writer.idx) == j
  }

  // The writer died after storing a slot's number and before storing the index.
  predicate Broken(s: State) { s.writer.at.Dead? && |s.log| > s.writeIndex }

  predicate ReaderHolds(at: ReaderAt) {
    at == Comparing || at == Lapping || at == CopyingOut || at == StoringCursor || at == Releasing
  }

  function KillReader(c: Config, s: State, r: nat): State
    requires Shaped(c, s) && r < MAX_READERS
  {
    var reader := s.readers[r];
    var j := Pos(c, reader.index);
    if reader.at == Detached then s
    else if reader.at == Attaching then SetReader(s, r, NEW_READER)
    else
      var s' := SetReader(s, r, reader.(at := Killed));
      if ReaderHolds(reader.at) then SetSlot(s', j, s.slots[j].(owner := Free)) else s'
  }

  // A blocked scan and a held lock have deadlines.
  predicate Waiting(at: WriterAt) {
    (at.Scanning? && at.next >= MAX_READERS && !(at.any && !at.blocked)) || at.Locking?
  }

  // ---- actions ----

  function Act(c: Config, s: State, a: Action): State
    requires Shaped(c, s)
  {
    match a
    case Publish(payload) => StartPublish(c, s, payload)
    case WriterSteps => WriterStep(c, s)
    case GiveUp => if Waiting(s.writer.at) then At(s, Idle) else s
    case WriterDies => if s.writer.at.Dead? then s else KillWriter(c, s)
    case Attach(r) =>
      if r < MAX_READERS && s.readers[r].at == Detached then SetReader(s, r, NEW_READER.(at := Attaching, cursor := 0)) else s
    case Read(r, index) => if r < MAX_READERS then StartRead(c, s, r, index) else s
    case ReaderSteps(r) => if r < MAX_READERS then ReaderStep(c, s, r) else s
    case Detach(r) =>
      if r < MAX_READERS && s.readers[r].at == Ready then SetReader(s, r, NEW_READER.(cursor := s.readers[r].cursor)) else s
    case ReaderDies(r) => if r < MAX_READERS then KillReader(c, s, r) else s
  }

  // ---- what every step keeps ----

  // A slot with a number holds the frame published under it, complete.
  ghost predicate SlotOk(c: Config, log: seq<Frame>, slot: Slot, j: nat)
    requires c.count > 0
  {
    && |slot.frame| == FRAME_CAP
    && (slot.number > 0 ==>
          && slot.number <= |log| && Pos(c, slot.number - 1) == j
          && slot.len == |log[slot.number - 1]| <= FRAME_CAP && slot.frame[..slot.len] == log[slot.number - 1])
  }

  // Unless the writer has cleared it, a slot carries the latest index kept in it.
  ghost predicate Fresh(c: Config, log: seq<Frame>, number: nat, j: nat)
    requires c.count > 0
  {
    forall i | 0 <= i < |log| && Pos(c, i) == j :: i < number
  }

  ghost predicate SlotsOk(c: Config, s: State)
    requires Shaped(c, s)
  {
    && (forall i | 0 <= i < |s.log| :: 1 <= |s.log[i]| <= FRAME_CAP)
    && forall j | 0 <= j < c.count ::
      && SlotOk(c, s.log, s.slots[j], j)
      && if Cleared(s.writer.at) && Pos(c, s.writer.idx) == j then s.slots[j].number == 0 else Fresh(c, s.log, s.slots[j].number, j)
  }

  ghost predicate LocksOk(c: Config, s: State)
    requires Shaped(c, s)
  {
    && (forall j | 0 <= j < c.count ::
      s.slots[j].owner == TheWriter <==> WriterHolds(s.writer.at) && Pos(c, s.writer.idx) == j)
    && (forall j, r | 0 <= j < c.count && 0 <= r < MAX_READERS ::
      s.slots[j].owner == TheReader(r) <==> ReaderHolds(s.readers[r].at) && Pos(c, s.readers[r].index) == j)
  }

  // What the writer's locals and the slot it fills say at each point of `publish`.
  ghost predicate WriterOk(c: Config, s: State)
    requires Shaped(c, s)
  {
    var w, slot := s.writer, s.slots[Pos(c, s.writer.idx)];
    && |s.log| == (if w.at.StoringIndex? || Broken(s) then s.writeIndex + 1 else s.writeIndex)
    && (!w.at.Idle? && !w.at.Dead? ==>
          1 <= |w.payload| <= FRAME_CAP && s.writeIndex == (if w.at.Unlocking? then w.idx + 1 else w.idx))
    && (w.at.Scanning? || w.at.LoadingCursor? ==> w.idx >= c.count)
    && (w.at.LoadingCursor? ==> w.at.next < MAX_READERS)
    && (w.at.Copying? ==> w.at.done <= |w.payload| && slot.frame[..w.at.done] == w.payload[..w.at.done])
    && (w.at.SettingLength? || w.at.SettingSeq? ==> slot.frame[..|w.payload|] == w.payload)
    && (w.at.SettingSeq? ==> slot.len == |w.payload|)
    && (w.at.Dead? && w.at.cleared ==> |s.log| == s.writeIndex)
  }

  // What one answer of `read` says about the published frames.
  ghost predicate AnswerOk(c: Config, log: seq<Frame>, a: Answer) {
    match a
    case Ok(index, frame) => index < |log| && frame == log[index]
    case Busy(_) => true
    case Empty(index, published, torn) => published <= index || torn
    case Lapped(index, edge, broken) =>
      index + c.count <= edge <= |log| && index + c.count < |log| && (edge == index + c.count ==> broken)
    case Corrupt(_) => false
  }

  ghost predicate ReaderOk(c: Config, log: seq<Frame>, slot: Slot, reader: Reader) {
    && (reader.at == Comparing ==> reader.out == [])
    && (reader.at == Lapping ==> slot.number > reader.index + 1)
    && (reader.at == CopyingOut || reader.at == StoringCursor ==>
          slot.number == reader.index + 1 && |reader.out| <= slot.len <= |slot.frame| && reader.out == slot.frame[..|reader.out|])
    && (reader.at == StoringCursor ==> |reader.out| == slot.len)
    && forall i | 0 <= i < |reader.answers| :: AnswerOk(c, log, reader.answers[i])
  }

  ghost predicate ReadersOk(c: Config, s: State)
    requires Shaped(c, s)
  {
    forall r | 0 <= r < MAX_READERS :: ReaderOk(c, s.log, s.slots[Pos(c, s.readers[r].index)], s.readers[r])
  }

  // ---- backpressure ----

  // The frames of the successful reads, in order.
  ghost function Delivered(answers: seq<Answer>): (fs: seq<Frame>) {
    if |answers| == 0 then [] else
      var n := |answers| - 1;
      Delivered(answers[..n]) + (if answers[n].Ok? then [answers[n].frame] else [])
  }

  // A reader registered before the ring first filled that reads 0, 1, 2, ...
  predicate Follower(reader: Reader) { reader.registered && reader.early && reader.inOrder }

  predicate Reading(at: ReaderAt) { at == Comparing || at == Lapping || at == CopyingOut || at == StoringCursor }

  // The writer has been cleared to overwrite past this cursor.
  predicate Passed(at: WriterAt, r: nat) {
    match at
    case Scanning(next, _, blocked) => r < next && !blocked
    case LoadingCursor(next, _, blocked) => r < next && !blocked
    case Locking => true
    case _ => WriterHolds(at) && !at.StoringIndex? && !at.Unlocking?
  }

  ghost predicate FollowerOk(c: Config, w: Writer, log: seq<Frame>, reader: Reader, r: nat) {
    && reader.cursor == reader.oks
    && |log| <= reader.cursor + c.count
    && reader.at != Lapping && (Reading(reader.at) ==> reader.index == reader.cursor)
    && (Passed(w.at, r) ==> w.idx < reader.cursor + c.count)
    && reader.oks <= |log| && Delivered(reader.answers) == log[..reader.oks]
    && forall i | 0 <= i < |reader.answers| :: !reader.answers[i].Lapped?
  }

  ghost predicate FollowersOk(c: Config, s: State)
    requires Shaped(c, s)
  {
    forall r | 0 <= r < MAX_READERS && Follower(s.readers[r]) :: FollowerOk(c, s.writer, s.log, s.readers[r], r)
  }

  // A registration that has not stored its process id yet has no history.
  ghost predicate NewcomerOk(reader: Reader) {
    reader.at == Attaching || reader.at == Detached ==>
      && !reader.registered && reader.oks == 0 && reader.answers == []
      && (reader.at == Attaching ==> reader.cursor == 0)
  }

  ghost predicate NewcomersOk(c: Config, s: State)
    requires Shaped(c, s)
  {
    forall r | 0 <= r < MAX_READERS :: NewcomerOk(s.readers[r])
  }

  ghost predicate Inv(c: Config, s: State) {
    && Shaped(c, s) && SlotsOk(c, s) && LocksOk(c, s) && WriterOk(c, s) && ReadersOk(c, s) && NewcomersOk(c, s)
    && (c.backpressure ==> FollowersOk(c, s))
  }

  lemma StartInv(c: Config)
    requires c.count > 0
    ensures Inv(c, Start(c))
  {}

  // ---- the writer's steps ----

  lemma WriterStepSlots(c: Config, s: State)
    requires Shaped(c, s) && SlotsOk(c, s) && WriterOk(c, s)
    ensures Shaped(c, WriterStep(c, s)) && SlotsOk(c, WriterStep(c, s))
  {
    hide SlotsOk;
    if s.writer.at.SettingSeq? {
      AppendSlots(c, s);
    } else {
      ContentSlots(c, s);
    }
  }

  lemma AppendSlots(c: Config, s: State)
    requires Shaped(c, s) && SlotsOk(c, s) && WriterOk(c, s) && s.writer.at.SettingSeq?
    ensures Shaped(c, WriterStep(c, s)) && SlotsOk(c, WriterStep(c, s))
  {
    hide Pos;
  }

  lemma ContentSlots(c: Config, s: State)
    requires Shaped(c, s) && SlotsOk(c, s) && !s.writer.at.SettingSeq?
    ensures Shaped(c, WriterStep(c, s)) && SlotsOk(c, WriterStep(c, s))
  {
    hide SlotsOk;
    if Cleared(s.writer.at) || s.writer.at.ClearingSeq? {
      ClearedSlots(c, s);
    } else {
      KeptSlots(c, s);
    }
  }

  // Steps on a cleared slot, which may hold anything.
  lemma ClearedSlots(c: Config, s: State)
    requires Shaped(c, s) && SlotsOk(c, s) && !s.writer.at.SettingSeq? && (Cleared(s.writer.at) || s.writer.at.ClearingSeq?)
    ensures Shaped(c, WriterStep(c, s)) && SlotsOk(c, WriterStep(c, s))
  {
    hide Pos, Fresh;
  }

  // Steps that change no slot but for its owner.
  lemma KeptSlots(c: Config, s: State)
    requires Shaped(c, s) && SlotsOk(c, s) && !Cleared(s.writer.at) && !s.writer.at.ClearingSeq?
    ensures Shaped(c, WriterStep(c, s)) && SlotsOk(c, WriterStep(c, s))
  {
    hide Pos, Fresh, SlotOk, WriterStep, Cleared;
    KeptContents(c, s);
    var s' := WriterStep(c, s);
    forall j | 0 <= j < c.count ensures SlotOk(c, s'.log, s'.slots[j], j) {
      SameSlotOk(c, s.log, s.slots[j], s'.slots[j], j);
    }
  }

  lemma KeptContents(c: Config, s: State)
    requires Shaped(c, s) && !Cleared(s.writer.at) && !s.writer.at.ClearingSeq?
    ensures var s' := WriterStep(c, s);
            && Shaped(c, s') && !Cleared(s'.writer.at) && s'.log == s.log
            && forall j | 0 <= j < c.count :: s'.slots[j] == s.slots[j].(owner := s'.slots[j].owner)
  {
    hide Pos;
  }

  lemma SameSlotOk(c: Config, log: seq<Frame>, slot: Slot, other: Slot, j: nat)
    requires c.count > 0 && SlotOk(c, log, slot, j) && other == slot.(owner := other.owner)
    ensures SlotOk(c, log, other, j)
  {
    hide Pos;
  }

  lemma WriterStepLocks(c: Config, s: State)
    requires Shaped(c, s) && LocksOk(c, s)
    ensures Shaped(c, WriterStep(c, s)) && LocksOk(c, WriterStep(c, s)) && WriterStep(c, s).readers == s.readers
  {
    hide LocksOk;
    if s.writer.at.Locking? || s.writer.at.Unlocking? {
      LockingLocks(c, s);
    } else {
      SameLocks(c, s);
    }
  }

  lemma LockingLocks(c: Config, s: State)
    requires Shaped(c, s) && LocksOk(c, s) && (s.writer.at.Locking? || s.writer.at.Unlocking?)
    ensures Shaped(c, WriterStep(c, s)) && LocksOk(c, WriterStep(c, s)) && WriterStep(c, s).readers == s.readers
  {
    hide Pos;
  }

  // All other steps leave every owner and the writer's hold as they are.
  lemma SameOwners(c: Config, s: State)
    requires Shaped(c, s) && !s.writer.at.Locking? && !s.writer.at.Unlocking?
    ensures var s' := WriterStep(c, s);
            && Shaped(c, s') && s'.readers == s.readers && s'.writer.idx == s.writer.idx
            && WriterHolds(s'.writer.at) == WriterHolds(s.writer.at)
            && forall j | 0 <= j < c.count :: s'.slots[j].owner == s.slots[j].owner
  {
    hide Pos;
  }

  lemma SameLocks(c: Config, s: State)
    requires Shaped(c, s) && LocksOk(c, s) && !s.writer.at.Locking? && !s.writer.at.Unlocking?
    ensures Shaped(c, WriterStep(c, s)) && LocksOk(c, WriterStep(c, s)) && WriterStep(c, s).readers == s.readers
  {
    hide Pos, WriterStep, WriterHolds, ReaderHolds;
    SameOwners(c, s);
  }

  lemma WriterStepOwn(c: Config, s: State)
    requires Shaped(c, s) && WriterOk(c, s)
    ensures Shaped(c, WriterStep(c, s)) && WriterOk(c, WriterStep(c, s))
  {
    hide WriterOk;
    if WriterHolds(s.writer.at) {
      HeldOwn(c, s);
    } else {
      FreeOwn(c, s);
    }
  }

  lemma HeldOwn(c: Config, s: State)
    requires Shaped(c, s) && WriterOk(c, s) && WriterHolds(s.writer.at)
    ensures Shaped(c, WriterStep(c, s)) && WriterOk(c, WriterStep(c, s))
  {
    hide Pos;
  }

  lemma FreeOwn(c: Config, s: State)
    requires Shaped(c, s) && WriterOk(c, s) && !WriterHolds(s.writer.at)
    ensures Shaped(c, WriterStep(c, s)) && WriterOk(c, WriterStep(c, s))
  {
    hide Pos;
  }

  // The slot a reader is copying from is locked, so the writer leaves it alone.
  lemma WriterStepReaders(c: Config, s: State)
    requires Shaped(c, s) && LocksOk(c, s) && ReadersOk(c, s)
    ensures Shaped(c, WriterStep(c, s)) && ReadersOk(c, WriterStep(c, s))
  {
    hide Pos;
  }

  // A scan that finds no blocking cursor has seen every early reader past the slot to be reused.
  lemma WriterStepFollowers(c: Config, s: State)
    requires Shaped(c, s) && WriterOk(c, s) && FollowersOk(c, s)
    ensures Shaped(c, WriterStep(c, s)) && FollowersOk(c, WriterStep(c, s))
  {
    hide WriterOk, FollowersOk;
    if WriterHolds(s.writer.at) {
      HeldFollowers(c, s);
    } else {
      FreeFollowers(c, s);
    }
  }

  lemma HeldFollowers(c: Config, s: State)
    requires Shaped(c, s) && WriterOk(c, s) && FollowersOk(c, s) && WriterHolds(s.writer.at)
    ensures Shaped(c, WriterStep(c, s)) && FollowersOk(c, WriterStep(c, s))
  {
    hide Pos, Delivered, Follower;
  }

  lemma FreeFollowers(c: Config, s: State)
    requires Shaped(c, s) && WriterOk(c, s) && FollowersOk(c, s) && !WriterHolds(s.writer.at)
    ensures Shaped(c, WriterStep(c, s)) && FollowersOk(c, WriterStep(c, s))
  {
    hide Pos, Delivered;
  }

  lemma WriterStepKeeps(c: Config, s: State)
    requires Inv(c, s)
    ensures Inv(c, WriterStep(c, s))
  {
    hide Shaped, SlotsOk, LocksOk, WriterOk, ReadersOk, FollowersOk, WriterStep;
    WriterStepSlots(c, s);
    WriterStepLocks(c, s);
    WriterStepOwn(c, s);
    WriterStepReaders(c, s);
    SameNewcomers(c, s, WriterStep(c, s));
    if c.backpressure { WriterStepFollowers(c, s); }
  }

  lemma SameNewcomers(c: Config, s: State, s': State)
    requires Shaped(c, s) && NewcomersOk(c, s) && Shaped(c, s') && s'.readers == s.readers
    ensures NewcomersOk(c, s')
  {}

  lemma KillWriterKeeps(c: Config, s: State)
    requires Inv(c, s) && !s.writer.at.Dead?
    ensures Inv(c, KillWriter(c, s))
  {
    hide Pos, Delivered, AnswerOk, Fresh;
  }

  lemma PublishKeeps(c: Config, s: State, payload: Frame)
    requires Inv(c, s)
    ensures Inv(c, StartPublish(c, s, payload))
  {
    hide Pos, Delivered, AnswerOk, Fresh;
  }

  lemma GiveUpKeeps(c: Config, s: State)
    requires Inv(c, s) && Waiting(s.writer.at)
    ensures Inv(c, At(s, Idle))
  {
    hide Pos, Delivered, AnswerOk, Fresh;
  }

  // ---- the readers' steps ----

  // A reader changes its own entry and who owns a slot, nothing else.
  ghost predicate OnlyReader(s: State, s': State, r: nat) {
    && s'.writeIndex == s.writeIndex && s'.writer == s.writer && s'.log == s.log
    && |s'.slots| == |s.slots| && |s'.readers| == |s.readers|
    && (forall j | 0 <= j < |s.slots| :: s'.slots[j] == s.slots[j].(owner := s'.slots[j].owner))
    && (forall q | 0 <= q < |s.readers| && q != r :: s'.readers[q] == s.readers[q])
  }

  // What has to be shown of the one reader that moved.
  ghost predicate SelfOk(c: Config, s: State, r: nat)
    requires Shaped(c, s) && r < MAX_READERS
  {
    var reader := s.readers[r];
    && ReaderOk(c, s.log, s.slots[Pos(c, reader.index)], reader) && NewcomerOk(reader)
    && (c.backpressure && Follower(reader) ==> FollowerOk(c, s.writer, s.log, reader, r))
  }

  lemma OnlyReaderContents(c: Config, s: State, s': State, r: nat)
    requires Shaped(c, s) && SlotsOk(c, s) && WriterOk(c, s) && OnlyReader(s, s', r)
    ensures Shaped(c, s') && SlotsOk(c, s') && WriterOk(c, s')
  {
    hide Pos, Fresh;
  }

  lemma OnlyReaderKeeps(c: Config, s: State, s': State, r: nat)
    requires Inv(c, s) && OnlyReader(s, s', r) && r < MAX_READERS
    requires Shaped(c, s') && LocksOk(c, s') && SelfOk(c, s', r)
    ensures Inv(c, s')
  {
    hide Pos, LocksOk, SlotsOk, WriterOk, AnswerOk, FollowerOk, NewcomerOk;
    OnlyReaderContents(c, s, s', r);
  }

  lemma SelfHolds(c: Config, s: State, r: nat)
    requires Inv(c, s) && r < MAX_READERS
    ensures SelfOk(c, s, r)
  {
    hide Pos, LocksOk, SlotsOk, WriterOk, AnswerOk, FollowerOk, NewcomerOk;
  }

  lemma StartReadLocks(c: Config, s: State, r: nat, index: nat)
    requires Shaped(c, s) && LocksOk(c, s) && r < MAX_READERS
    ensures var s' := StartRead(c, s, r, index); Shaped(c, s') && LocksOk(c, s') && OnlyReader(s, s', r)
  {
    hide Pos;
  }

  lemma ReaderStepLocks(c: Config, s: State, r: nat)
    requires Shaped(c, s) && LocksOk(c, s) && r < MAX_READERS
    ensures var s' := ReaderStep(c, s, r); Shaped(c, s') && LocksOk(c, s') && OnlyReader(s, s', r)
  {
    hide Pos, Torn, Broken, LocksOk;
    if s.readers[r].at == Releasing {
      ReleaseLocks(c, s, r);
    } else {
      SameHoldLocks(c, s, r, ReaderStep(c, s, r).readers[r]);
    }
  }

  lemma ReleaseLocks(c: Config, s: State, r: nat)
    requires Shaped(c, s) && LocksOk(c, s) && r < MAX_READERS && s.readers[r].at == Releasing
    ensures var s' := ReaderStep(c, s, r); Shaped(c, s') && LocksOk(c, s')
  {
    hide Pos;
  }

  lemma SameHoldLocks(c: Config, s: State, r: nat, reader: Reader)
    requires Shaped(c, s) && LocksOk(c, s) && r < MAX_READERS
    requires ReaderHolds(reader.at) == ReaderHolds(s.readers[r].at) && reader.index == s.readers[r].index
    ensures Shaped(c, SetReader(s, r, reader)) && LocksOk(c, SetReader(s, r, reader))
  {
    hide Pos;
  }

  lemma KillReaderLocks(c: Config, s: State, r: nat)
    requires Shaped(c, s) && LocksOk(c, s) && r < MAX_READERS
    ensures var s' := KillReader(c, s, r); Shaped(c, s') && LocksOk(c, s') && OnlyReader(s, s', r)
  {
    hide Pos;
  }

  lemma DeliveredSnoc(answers: seq<Answer>, a: Answer)
    ensures Delivered(answers + [a]) == Delivered(answers) + (if a.Ok? then [a.frame] else [])
  {
    assert (answers + [a])[..|answers|] == answers;
  }

  lemma StartReadSelf(c: Config, s: State, r: nat, index: nat)
    requires Shaped(c, s) && r < MAX_READERS && SelfOk(c, s, r)
    ensures var s' := StartRead(c, s, r, index); Shaped(c, s') && SelfOk(c, s', r)
  {
    hide Pos, Delivered;
    DeliveredSnoc(s.readers[r].answers, Busy(index));
  }

  lemma KillReaderSelf(c: Config, s: State, r: nat)
    requires Shaped(c, s) && r < MAX_READERS && SelfOk(c, s, r)
    ensures var s' := KillReader(c, s, r); Shaped(c, s') && SelfOk(c, s', r)
  {
    hide Pos, Delivered, AnswerOk;
  }

  // Two indices kept in one slot are a whole number of laps apart.
  lemma LapApart(c: Config, i: nat, k: nat)
    requires c.count > 0 && Pos(c, i) == Pos(c, k) && i < k
    ensures k >= i + c.count
  {
    var n, a, b := c.count, i / c.count, k / c.count;
    assert k == n * b + Pos(c, k) && i == n * a + Pos(c, i);
    assert n * b > n * a;
    MoreLaps(n, a, b);
  }

  lemma MoreLaps(n: nat, a: nat, b: nat)
    requires n * b > n * a
    ensures n * b >= n * a + n
  {
    assert b >= a + 1 ==> n * b >= n * (a + 1);
    assert b <= a ==> n * b <= n * a;
  }

  // ---- one read, step by step ----

  // A read that finds too small a number: the index is unpublished, or the writer died in the slot.
  lemma EmptyIsRight(c: Config, s: State, r: nat)
    requires Shaped(c, s) && SlotsOk(c, s) && LocksOk(c, s) && r < MAX_READERS && s.readers[r].at == Comparing
    requires s.slots[Pos(c, s.readers[r].index)].number < s.readers[r].index + 1
    ensures |s.log| <= s.readers[r].index || Torn(c, s, Pos(c, s.readers[r].index))
  {
    hide Pos, SlotOk;
    var j := Pos(c, s.readers[r].index);
    assert s.slots[j].owner == TheReader(r);
  }

  // A read that finds too large a number: its index has been overwritten, and the edge is ahead
  // unless the writer died between its two stores.
  lemma LappedIsRight(c: Config, s: State, r: nat)
    requires Shaped(c, s) && SlotsOk(c, s) && LocksOk(c, s) && WriterOk(c, s) && r < MAX_READERS && s.readers[r].at == Lapping
    requires s.slots[Pos(c, s.readers[r].index)].number > s.readers[r].index + 1
    ensures AnswerOk(c, s.log, Lapped(s.readers[r].index, s.writeIndex, Broken(s)))
  {
    hide Pos, Fresh;
    var index := s.readers[r].index;
    var j := Pos(c, index);
    assert s.slots[j].owner == TheReader(r);
    LapApart(c, index, s.slots[j].number - 1);
  }

  lemma FoundIsPublished(c: Config, s: State, index: nat)
    requires Shaped(c, s) && SlotsOk(c, s) && s.slots[Pos(c, index)].number == index + 1
    ensures index < |s.log| && 1 <= |s.log[index]| <= FRAME_CAP
    ensures s.slots[Pos(c, index)].len == |s.log[index]| && s.slots[Pos(c, index)].frame[..|s.log[index]|] == s.log[index]
  {
    hide Pos, Fresh;
  }

  lemma FollowerNotLapped(c: Config, s: State, r: nat)
    requires Shaped(c, s) && SlotsOk(c, s) && r < MAX_READERS && s.readers[r].at == Comparing
    requires FollowerOk(c, s.writer, s.log, s.readers[r], r)
    ensures s.slots[Pos(c, s.readers[r].index)].number <= s.readers[r].index + 1
  {
    hide Pos, Fresh, Delivered;
    var index := s.readers[r].index;
    var j := Pos(c, index);
    if s.slots[j].number > index + 1 {
      LapApart(c, index, s.slots[j].number - 1);
    }
  }

  lemma CompareSelf(c: Config, s: State, r: nat)
    requires Shaped(c, s) && SlotsOk(c, s) && LocksOk(c, s) && r < MAX_READERS && SelfOk(c, s, r) && s.readers[r].at == Comparing
    ensures var s' := ReaderStep(c, s, r); Shaped(c, s') && SelfOk(c, s', r)
  {
    hide Pos, Delivered, Torn, SlotsOk, LocksOk, Passed;
    var reader := s.readers[r];
    var slot := s.slots[Pos(c, reader.index)];
    var empty := Empty(reader.index, |s.log|, Torn(c, s, Pos(c, reader.index)));
    DeliveredSnoc(reader.answers, empty);
    if slot.number < reader.index + 1 {
      EmptyIsRight(c, s, r);
    } else if slot.number == reader.index + 1 {
      FoundIsPublished(c, s, reader.index);
    }
    if c.backpressure && Follower(reader) {
      FollowerNotLapped(c, s, r);
    }
  }

  lemma LapSelf(c: Config, s: State, r: nat)
    requires Shaped(c, s) && SlotsOk(c, s) && LocksOk(c, s) && WriterOk(c, s) && r < MAX_READERS && SelfOk(c, s, r) && s.readers[r].at == Lapping
    ensures var s' := ReaderStep(c, s, r); Shaped(c, s') && SelfOk(c, s', r)
  {
    hide Pos, Delivered, Broken, SlotsOk, LocksOk, WriterOk, Passed;
    LappedIsRight(c, s, r);
  }

  lemma StoreSelf(c: Config, s: State, r: nat)
    requires Shaped(c, s) && SlotsOk(c, s) && r < MAX_READERS && SelfOk(c, s, r) && s.readers[r].at == StoringCursor
    ensures var s' := ReaderStep(c, s, r); Shaped(c, s') && SelfOk(c, s', r)
  {
    hide Pos, Delivered, SlotsOk, Passed;
    var reader := s.readers[r];
    FoundIsPublished(c, s, reader.index);
    DeliveredSnoc(reader.answers, Ok(reader.index, reader.out));
    assert c.backpressure && Follower(reader) ==> s.log[..reader.oks] + [s.log[reader.oks]] == s.log[..reader.oks + 1];
  }

  // A cursor that enters the registry at 0 before the ring fills holds the writer to the first lap.
  lemma AttachSelf(c: Config, s: State, r: nat)
    requires Shaped(c, s) && WriterOk(c, s) && r < MAX_READERS && SelfOk(c, s, r) && s.readers[r].at == Attaching
    ensures var s' := ReaderStep(c, s, r); Shaped(c, s') && SelfOk(c, s', r)
  {
    hide Pos, AnswerOk;
  }

  lemma OtherSelf(c: Config, s: State, r: nat)
    requires Shaped(c, s) && r < MAX_READERS && SelfOk(c, s, r) && s.readers[r].at != Attaching
    requires s.readers[r].at != Comparing && s.readers[r].at != Lapping && s.readers[r].at != StoringCursor
    ensures var s' := ReaderStep(c, s, r); Shaped(c, s') && SelfOk(c, s', r)
  {
    hide Pos, AnswerOk, Delivered, Passed;
  }

  lemma ReaderStepKeeps(c: Config, s: State, r: nat)
    requires Inv(c, s) && r < MAX_READERS
    ensures Inv(c, ReaderStep(c, s, r))
  {
    hide SlotsOk, LocksOk, WriterOk, ReadersOk, FollowersOk, NewcomersOk, ReaderStep, SelfOk;
    SelfHolds(c, s, r);
    ReaderStepLocks(c, s, r);
    match s.readers[r].at {
      case Comparing => CompareSelf(c, s, r);
      case Lapping => LapSelf(c, s, r);
      case StoringCursor => StoreSelf(c, s, r);
      case Attaching => AttachSelf(c, s, r);
      case _ => OtherSelf(c, s, r);
    }
    OnlyReaderKeeps(c, s, ReaderStep(c, s, r), r);
  }

  lemma StartReadKeeps(c: Config, s: State, r: nat, index: nat)
    requires Inv(c, s) && r < MAX_READERS
    ensures Inv(c, StartRead(c, s, r, index))
  {
    hide Shaped, SlotsOk, LocksOk, WriterOk, ReadersOk, FollowersOk, NewcomersOk, StartRead, SelfOk;
    SelfHolds(c, s, r);
    StartReadLocks(c, s, r, index);
    StartReadSelf(c, s, r, index);
    OnlyReaderKeeps(c, s, StartRead(c, s, r, index), r);
  }

  lemma KillReaderKeeps(c: Config, s: State, r: nat)
    requires Inv(c, s) && r < MAX_READERS
    ensures Inv(c, KillReader(c, s, r))
  {
    hide Shaped, SlotsOk, LocksOk, WriterOk, ReadersOk, FollowersOk, NewcomersOk, KillReader, SelfOk;
    SelfHolds(c, s, r);
    KillReaderLocks(c, s, r);
    KillReaderSelf(c, s, r);
    OnlyReaderKeeps(c, s, KillReader(c, s, r), r);
  }

  // Attaching and detaching hold no slot lock.
  lemma RegistryKeeps(c: Config, s: State, r: nat, reader: Reader)
    requires Inv(c, s) && r < MAX_READERS && !ReaderHolds(s.readers[r].at) && !reader.registered
    requires reader.at == Attaching || reader.at == Detached
    requires reader.oks == 0 && reader.answers == [] && (reader.at == Attaching ==> reader.cursor == 0)
    ensures Inv(c, SetReader(s, r, reader))
  {
    var s' := SetReader(s, r, reader);
    RegistryLocks(c, s, r, reader);
    hide Pos, SlotsOk, LocksOk, WriterOk, ReadersOk, FollowersOk, NewcomersOk, AnswerOk;
    OnlyReaderKeeps(c, s, s', r);
  }

  lemma RegistryLocks(c: Config, s: State, r: nat, reader: Reader)
    requires Shaped(c, s) && LocksOk(c, s) && r < MAX_READERS && !ReaderHolds(s.readers[r].at) && !ReaderHolds(reader.at)
    ensures Shaped(c, SetReader(s, r, reader)) && LocksOk(c, SetReader(s, r, reader))
  {
    hide Pos;
  }

  lemma ActKeeps(c: Config, s: State, a: Action)
    requires Inv(c, s)
    ensures Inv(c, Act(c, s, a))
  {
    hide Inv, StartPublish, WriterStep, KillWriter, StartRead, ReaderStep, KillReader;
    InvShaped(c, s);
    match a
    case Publish(payload) => PublishKeeps(c, s, payload);
    case WriterSteps => WriterStepKeeps(c, s);
    case GiveUp => if Waiting(s.writer.at) { GiveUpKeeps(c, s); }
    case WriterDies => if !s.writer.at.Dead? { KillWriterKeeps(c, s); }
    case Attach(r) =>
      if r < MAX_READERS && s.readers[r].at == Detached {
        RegistryKeeps(c, s, r, NEW_READER.(at := Attaching, cursor := 0));
      }
    case Read(r, index) => if r < MAX_READERS { StartReadKeeps(c, s, r, index); }
    case ReaderSteps(r) => if r < MAX_READERS { ReaderStepKeeps(c, s, r); }
    case Detach(r) =>
      if r < MAX_READERS && s.readers[r].at == Ready {
        RegistryKeeps(c, s, r, NEW_READER.(cursor := s.readers[r].cursor));
      }
    case ReaderDies(r) => if r < MAX_READERS { KillReaderKeeps(c, s, r); }
  }

  lemma InvShaped(c: Config, s: State)
    requires Inv(c, s)
    ensures Shaped(c, s)
  {}

  // A writer that waits for a reader or a lock may give up: it is at rest again and has published nothing.
  lemma GiveUpLeaves(c: Config, s: State)
    requires Inv(c, s)
    ensures var at, t := s.writer.at, Act(c, s, GiveUp);
            && t.slots == s.slots && t.log == s.log && t.writeIndex == s.writeIndex && t.readers == s.readers
            && t.writer.at == if at.Locking? || (at.Scanning? && at.next >= 64 && (!at.any || at.blocked)) then Idle else at
  {
    hide SlotsOk, LocksOk, WriterOk, ReadersOk, NewcomersOk, FollowersOk;
  }

  // A reader that detaches between reads no longer holds the writer back; no other reader notices.
  lemma DetachLeaves(c: Config, s: State, r: nat)
    requires Inv(c, s) && r < 64 && s.readers[r].at == Ready
    ensures var t := Act(c, s, Detach(r));
            && !t.readers[r].registered && t.readers[r].at == Detached && t.slots == s.slots && t.log == s.log
            && forall q | 0 <= q < 64 && q != r :: t.readers[q] == s.readers[q]
  {
    hide SlotsOk, LocksOk, WriterOk, ReadersOk, NewcomersOk, FollowersOk;
  }

  // A reader that dies frees the lock it held and leaves every slot's contents; its registration and cursor
  // stay, so the writer goes on waiting for it.
  lemma ReaderDeathLeaves(c: Config, s: State, r: nat)
    requires Inv(c, s) && r < 64 && s.readers[r].at != Detached && s.readers[r].at != Attaching
    ensures var x, t := s.readers[r], Act(c, s, ReaderDies(r));
            && t.readers == s.readers[r := x.(at := Killed)] && t.log == s.log && t.writeIndex == s.writeIndex
            && |t.slots| == |s.slots|
            && forall j | 0 <= j < |s.slots| :: t.slots[j] == s.slots[j].(owner := if s.slots[j].owner == TheReader(r) then Free else s.slots[j].owner)
  {
    hide SlotsOk, WriterOk, ReadersOk, NewcomersOk, FollowersOk;
  }

  // ---- what every run guarantees ----

  ghost function Run(c: Config, actions: seq<Action>): (s: State)
    requires c.count > 0
    ensures Inv(c, s)
  {
    if |actions| == 0 then StartInv(c); Start(c)
    else
      var n := |actions| - 1;
      ActKeeps(c, Run(c, actions[..n]), actions[n]);
      Act(c, Run(c, actions[..n]), actions[n])
  }

  ghost function AnswersOf(c: Config, actions: seq<Action>, r: nat): seq<Answer>
    requires c.count > 0 && r < MAX_READERS
  {
    Run(c, actions).readers[r].answers
  }

  // Whatever the interleaving and whoever dies, every answer of every read is right: a frame is
  // exactly the one published under its index, never torn, stale or from another lap.
  lemma AnswersAreRight(c: Config, actions: seq<Action>, r: nat)
    requires c.count > 0 && r < MAX_READERS
    ensures var answers := AnswersOf(c, actions, r);
            forall i | 0 <= i < |answers| :: AnswerOk(c, Run(c, actions).log, answers[i])
  {
    hide Pos, SlotsOk, LocksOk, WriterOk, AnswerOk, Act;
    var s := Run(c, actions);
    assert ReaderOk(c, s.log, s.slots[Pos(c, s.readers[r].index)], s.readers[r]);
  }

  // Published frames never change: the log only grows, one frame at a time.
  lemma LogGrows(c: Config, s: State, a: Action)
    requires Shaped(c, s)
    ensures s.log <= Act(c, s, a).log && |Act(c, s, a).log| <= |s.log| + 1
  {
    hide Pos, Torn, Broken, Cleared;
  }

  // Under backpressure a reader registered before the ring first filled, reading 0, 1, 2, ..., is
  // never lapped and reads a prefix of the log, and the writer stays within a lap of its cursor.
  lemma FollowerReadsPrefix(c: Config, actions: seq<Action>, r: nat)
    requires c.count > 0 && c.backpressure && r < MAX_READERS
    ensures var s := Run(c, actions);
            var reader := s.readers[r];
            Follower(reader) ==>
              && Delivered(reader.answers) == s.log[..|Delivered(reader.answers)|]
              && reader.cursor == |Delivered(reader.answers)|
              && s.writeIndex <= |s.log| <= reader.cursor + c.count
              && forall i | 0 <= i < |reader.answers| :: !reader.answers[i].Lapped?
  {
    hide Pos, SlotsOk, LocksOk, ReadersOk, Act, Delivered;
    var s := Run(c, actions);
    if Follower(s.readers[r]) {
      assert FollowerOk(c, s.writer, s.log, s.readers[r], r);
    }
  }

  // ---- resuming after a lap ----

  // A later frame was published into the slot of `k`.
  predicate Overwritten(c: Config, log: seq<Frame>, k: nat) { k + c.count < |log| }

  function Resume(c: Config, edge: nat): nat { if edge > c.count then edge - c.count else 0 }

  // A lapped read never resumes behind, resumes where it was only if the writer was dead between its
  // two stores of the frame one lap ahead, and every index it skips was overwritten.
  ghost predicate ResumesRight(c: Config, log: seq<Frame>, a: Answer)
    requires a.Lapped?
  {
    && Resume(c, a.edge) >= a.index
    && (Resume(c, a.edge) > a.index <==> !(a.broken && a.edge == a.index + c.count))
    && forall k | a.index <= k < Resume(c, a.edge) :: Overwritten(c, log, k)
  }

  lemma LappedResumes(c: Config, actions: seq<Action>, r: nat)
    requires c.count > 0 && r < MAX_READERS
    ensures var answers := AnswersOf(c, actions, r);
            forall i | 0 <= i < |answers| && answers[i].Lapped? :: ResumesRight(c, Run(c, actions).log, answers[i])
  {
    hide Run, AnswerOk, ResumesRight;
    AnswersAreRight(c, actions, r);
    var answers := AnswersOf(c, actions, r);
    forall i | 0 <= i < |answers| && answers[i].Lapped? ensures ResumesRight(c, Run(c, actions).log, answers[i]) {
      LappedResumesRight(c, Run(c, actions).log, answers[i]);
    }
  }

  lemma LappedResumesRight(c: Config, log: seq<Frame>, a: Answer)
    requires c.count > 0 && a.Lapped? && AnswerOk(c, log, a)
    ensures ResumesRight(c, log, a)
  {}

  // ---- when a lapped read makes progress ----

  // The writer died between its two stores of the frame one lap after `index`.
  predicate Stalled(c: Config, s: State, index: nat) { Broken(s) && s.writeIndex == index + c.count }

  // A read of `index` holds its slot and the slot has been reused.
  ghost predicate BeingLapped(c: Config, s: State, r: nat, index: nat)
    requires Shaped(c, s) && r < MAX_READERS
  {
    && s.readers[r].index == index && (s.readers[r].at == Comparing || s.readers[r].at == Lapping)
    && s.slots[Pos(c, index)].number > index + 1
  }

  // While the slot is held, the edge is ahead of the index by more than a lap unless the index is stalled.
  lemma EdgeAhead(c: Config, s: State, r: nat, index: nat)
    requires Inv(c, s) && r < MAX_READERS && BeingLapped(c, s, r, index)
    ensures s.writeIndex >= index + c.count && (s.writeIndex == index + c.count <==> Stalled(c, s, index))
  {
    hide Pos, Fresh, ReadersOk, FollowersOk, NewcomersOk;
    var j := Pos(c, index);
    assert s.slots[j].owner == TheReader(r);
    LapApart(c, index, s.slots[j].number - 1);
  }

  lemma EdgeGrows(c: Config, s: State, a: Action)
    requires Shaped(c, s) && WriterOk(c, s)
    ensures s.writeIndex <= Act(c, s, a).writeIndex
    ensures Broken(s) ==> Broken(Act(c, s, a)) && Act(c, s, a).writeIndex == s.writeIndex && Act(c, s, a).log == s.log
  {
    hide Pos, Torn, Cleared;
  }

  // A stall is for ever, there is at most one, and every read that gets the slot of the stalled index is lapped.
  lemma StallsForever(c: Config, s: State, a: Action, index: nat, other: nat)
    requires Inv(c, s) && Stalled(c, s, index)
    ensures Stalled(c, Act(c, s, a), index) && s.slots[Pos(c, index)].number == index + c.count + 1
    ensures Stalled(c, s, other) ==> other == index
  {
    hide ReadersOk, FollowersOk, NewcomersOk, LocksOk, Act, Pos;
    EdgeGrows(c, s, a);
    PosWraps(c, index);
    assert index + c.count < |s.log|;
  }

  lemma PosWraps(c: Config, i: nat)
    requires c.count > 0
    ensures Pos(c, i + c.count) == Pos(c, i)
  {
    var n, a := c.count, i / c.count;
    assert i == n * a + Pos(c, i) && i + n == n * (a + 1) + Pos(c, i);
    QuotientUnique(i + n, n, a + 1, Pos(c, i));
  }

  lemma QuotientUnique(v: nat, n: nat, q: nat, rest: nat)
    requires n > 0 && rest < n && v == n * q + rest
    ensures v % n == rest
  {
    var p := v / n;
    assert v == n * p + v % n;
    assert p <= q - 1 ==> n * p <= n * (q - 1);
    assert p >= q + 1 ==> n * p >= n * (q + 1);
  }

  predicate ByReader(a: Action, r: nat) {
    match a
    case Attach(q) => q == r
    case Read(q, _) => q == r
    case ReaderSteps(q) => q == r
    case Detach(q) => q == r
    case ReaderDies(q) => q == r
    case _ => false
  }

  // Nobody else touches a reader or the number of the slot it holds.
  lemma OthersKeep(c: Config, s: State, a: Action, r: nat)
    requires Shaped(c, s) && LocksOk(c, s) && r < MAX_READERS && !ByReader(a, r)
    ensures Shaped(c, Act(c, s, a)) && Act(c, s, a).readers[r] == s.readers[r]
    ensures var j := Pos(c, s.readers[r].index);
            ReaderHolds(s.readers[r].at) ==> Act(c, s, a).slots[j].number == s.slots[j].number
  {
    hide LocksOk, Act, Pos;
    OthersReader(c, s, a, r);
    if a.WriterSteps? {
      WriterKeepsHeld(c, s, r);
    } else {
      NumbersKept(c, s, a);
    }
  }

  lemma OthersReader(c: Config, s: State, a: Action, r: nat)
    requires Shaped(c, s) && r < MAX_READERS && !ByReader(a, r)
    ensures Shaped(c, Act(c, s, a)) && Act(c, s, a).readers[r] == s.readers[r]
  {
    hide Pos, Torn, Broken, Cleared;
  }

  lemma NumbersKept(c: Config, s: State, a: Action)
    requires Shaped(c, s) && !a.WriterSteps?
    ensures Shaped(c, Act(c, s, a)) && forall j | 0 <= j < c.count :: Act(c, s, a).slots[j].number == s.slots[j].number
  {
    hide Pos, Torn, Broken, Cleared;
  }

  lemma WriterKeepsHeld(c: Config, s: State, r: nat)
    requires Shaped(c, s) && LocksOk(c, s) && r < MAX_READERS && Shaped(c, Act(c, s, WriterSteps))
    ensures var j := Pos(c, s.readers[r].index);
            ReaderHolds(s.readers[r].at) ==> Act(c, s, WriterSteps).slots[j].number == s.slots[j].number
  {
    hide Pos;
  }

  // What is known between the start of a read of `index` and its answer.
  ghost predicate Answering(c: Config, s0: State, s: State, r: nat, index: nat)
    requires Shaped(c, s0) && Shaped(c, s) && r < MAX_READERS
  {
    var reader, before, j := s.readers[r], s0.readers[r].answers, Pos(c, index);
    if reader.answers == before then
      reader.at == Killed ||
      (reader.index == index && Reading(reader.at) && s.slots[j].number == s0.slots[j].number &&
       (reader.at == Lapping ==> s0.slots[j].number > index + 1) &&
       (reader.at == CopyingOut || reader.at == StoringCursor ==> s0.slots[j].number == index + 1) &&
       (s0.slots[j].number > index + 1 ==> (Stalled(c, s, index) <==> Stalled(c, s0, index))))
    else |reader.answers| > |before| && before <= reader.answers && Fated(c, s0, reader.answers[|before|], index)
  }

  // The answer is decided by the state in which the read started.
  ghost predicate Fated(c: Config, s0: State, a: Answer, index: nat)
    requires Shaped(c, s0)
  {
    && a.index == index && !a.Busy? && (a.Lapped? <==> s0.slots[Pos(c, index)].number > index + 1)
    && (a.Lapped? ==> Resume(c, a.edge) >= index && (Resume(c, a.edge) > index <==> !Stalled(c, s0, index)))
  }

  lemma StallKept(c: Config, s: State, a: Action, r: nat, index: nat)
    requires Inv(c, s) && r < MAX_READERS && Shaped(c, Act(c, s, a)) && Inv(c, Act(c, s, a))
    requires BeingLapped(c, s, r, index) && BeingLapped(c, Act(c, s, a), r, index)
    ensures Stalled(c, Act(c, s, a), index) <==> Stalled(c, s, index)
  {
    hide Inv, Act, Pos, BeingLapped;
    InvParts(c, s);
    EdgeAhead(c, s, r, index);
    EdgeAhead(c, Act(c, s, a), r, index);
    EdgeGrows(c, s, a);
  }

  lemma InvParts(c: Config, s: State)
    requires Inv(c, s)
    ensures Shaped(c, s) && WriterOk(c, s) && LocksOk(c, s) && ReadersOk(c, s) && SlotsOk(c, s)
  {
    hide SlotsOk, LocksOk, WriterOk, ReadersOk, FollowersOk, NewcomersOk, Shaped;
  }

  lemma ReadBegins(c: Config, s: State, r: nat, index: nat)
    requires Inv(c, s) && r < MAX_READERS && s.readers[r].at == Ready && s.slots[Pos(c, index)].owner == Free
    ensures Shaped(c, StartRead(c, s, r, index)) && Answering(c, s, StartRead(c, s, r, index), r, index)
  {
    hide Pos, SlotsOk, LocksOk, WriterOk, ReadersOk, FollowersOk, NewcomersOk, Fated;
  }

  lemma AnsweringOther(c: Config, s0: State, s: State, a: Action, r: nat, index: nat)
    requires Shaped(c, s0) && Inv(c, s) && Inv(c, Act(c, s, a)) && r < MAX_READERS && !ByReader(a, r)
    requires Answering(c, s0, s, r, index)
    ensures Answering(c, s0, Act(c, s, a), r, index)
  {
    hide Inv, Act, Pos, Fated, Stalled, Shaped, ByReader;
    InvParts(c, s);
    InvParts(c, Act(c, s, a));
    hide LocksOk, WriterOk, ReadersOk, SlotsOk;
    OthersKeep(c, s, a, r);
    if BeingLapped(c, s, r, index) {
      StallKept(c, s, a, r, index);
    }
  }

  // A reader that has answered keeps its answers and adds to them, until it detaches.
  lemma AnswersGrow(c: Config, s: State, a: Action, r: nat)
    requires Shaped(c, s) && NewcomersOk(c, s) && r < MAX_READERS && a != Detach(r) && s.readers[r].answers != []
    ensures |Act(c, s, a).readers| == MAX_READERS && s.readers[r].answers <= Act(c, s, a).readers[r].answers
  {
    hide Pos, Torn, Broken, Act;
    assert NewcomerOk(s.readers[r]);
    if ByReader(a, r) {
      OwnAnswersGrow(c, s, a, r);
    } else {
      OthersReader(c, s, a, r);
    }
  }

  lemma OwnAnswersGrow(c: Config, s: State, a: Action, r: nat)
    requires Shaped(c, s) && r < MAX_READERS && ByReader(a, r) && a != Detach(r)
    requires s.readers[r].at != Attaching && s.readers[r].at != Detached
    ensures |Act(c, s, a).readers| == MAX_READERS && s.readers[r].answers <= Act(c, s, a).readers[r].answers
  {
    hide Pos, Torn, Broken;
  }

  lemma KilledStays(c: Config, s: State, a: Action, r: nat)
    requires Shaped(c, s) && r < MAX_READERS && s.readers[r].at == Killed
    ensures |Act(c, s, a).readers| == MAX_READERS && Act(c, s, a).readers[r] == s.readers[r]
  {
    hide Pos, Torn, Broken, Cleared;
    if !ByReader(a, r) {
      OthersReader(c, s, a, r);
    }
  }

  lemma ComparingSteps(c: Config, s0: State, s: State, r: nat, index: nat)
    requires Shaped(c, s0) && Shaped(c, s) && r < MAX_READERS && Answering(c, s0, s, r, index)
    requires s.readers[r].answers == s0.readers[r].answers && s.readers[r].at == Comparing
    ensures Shaped(c, ReaderStep(c, s, r)) && Answering(c, s0, ReaderStep(c, s, r), r, index)
  {
    hide Pos, Torn, Resume;
    var s', before := ReaderStep(c, s, r), s0.readers[r].answers;
    assert s'.readers[r].answers == before || |s'.readers[r].answers| == |before| + 1;
    assert Stalled(c, s', index) <==> Stalled(c, s, index);
  }

  lemma LappingSteps(c: Config, s0: State, s: State, r: nat, index: nat)
    requires Shaped(c, s0) && Inv(c, s) && r < MAX_READERS && Answering(c, s0, s, r, index)
    requires s.readers[r].answers == s0.readers[r].answers && s.readers[r].at == Lapping
    ensures Shaped(c, ReaderStep(c, s, r)) && Answering(c, s0, ReaderStep(c, s, r), r, index)
  {
    hide Inv, Pos, Broken;
    InvShaped(c, s);
    var s', before := ReaderStep(c, s, r), s0.readers[r].answers;
    assert |s'.readers[r].answers| == |before| + 1;
    EdgeAhead(c, s, r, index);
  }

  lemma CopyingSteps(c: Config, s0: State, s: State, r: nat, index: nat)
    requires Shaped(c, s0) && Shaped(c, s) && r < MAX_READERS && Answering(c, s0, s, r, index)
    requires s.readers[r].answers == s0.readers[r].answers
    requires s.readers[r].at != Killed && s.readers[r].at != Comparing && s.readers[r].at != Lapping
    ensures Shaped(c, ReaderStep(c, s, r)) && Answering(c, s0, ReaderStep(c, s, r), r, index)
  {
    hide Pos, Stalled, Resume;
    var s', before := ReaderStep(c, s, r), s0.readers[r].answers;
    assert s'.readers[r].answers == before || |s'.readers[r].answers| == |before| + 1;
  }

  // One step of the read itself: it goes on, or it answers as the state at its start decided.
  lemma ReadingSteps(c: Config, s0: State, s: State, r: nat, index: nat)
    requires Shaped(c, s0) && Inv(c, s) && r < MAX_READERS && Answering(c, s0, s, r, index)
    requires s.readers[r].answers == s0.readers[r].answers && s.readers[r].at != Killed
    ensures Shaped(c, ReaderStep(c, s, r)) && Answering(c, s0, ReaderStep(c, s, r), r, index)
  {
    hide Pos, SlotsOk, LocksOk, WriterOk, ReadersOk, FollowersOk, NewcomersOk, Torn, Answering, ReaderStep;
    InvShaped(c, s);
    match s.readers[r].at {
      case Comparing => ComparingSteps(c, s0, s, r, index);
      case Lapping => LappingSteps(c, s0, s, r, index);
      case _ => CopyingSteps(c, s0, s, r, index);
    }
  }

  lemma AnsweringSelf(c: Config, s0: State, s: State, a: Action, r: nat, index: nat)
    requires Shaped(c, s0) && Inv(c, s) && Inv(c, Act(c, s, a)) && r < MAX_READERS && ByReader(a, r) && a != Detach(r)
    requires Answering(c, s0, s, r, index)
    ensures Answering(c, s0, Act(c, s, a), r, index)
  {
    hide Pos, SlotsOk, LocksOk, WriterOk, ReadersOk, FollowersOk, NewcomersOk, ReaderStep, Fated, Stalled;
    if s.readers[r].answers != s0.readers[r].answers {
      AnswersGrow(c, s, a, r);
    } else if s.readers[r].at == Killed {
      KilledStays(c, s, a, r);
    } else if a.ReaderSteps? {
      ReadingSteps(c, s0, s, r, index);
    }
  }

  ghost function Acts(c: Config, s: State, actions: seq<Action>): (t: State)
    requires Inv(c, s)
    ensures Inv(c, t)
  {
    if |actions| == 0 then s
    else
      var n := |actions| - 1;
      ActKeeps(c, Acts(c, s, actions[..n]), actions[n]);
      InvShaped(c, Acts(c, s, actions[..n]));
      Act(c, Acts(c, s, actions[..n]), actions[n])
  }

  lemma {:induction false} AnsweringRuns(c: Config, s0: State, s: State, actions: seq<Action>, r: nat, index: nat)
    requires Shaped(c, s0) && Inv(c, s) && r < MAX_READERS && Answering(c, s0, s, r, index)
    requires forall i | 0 <= i < |actions| :: actions[i] != Detach(r)
    ensures Shaped(c, Acts(c, s, actions)) && Answering(c, s0, Acts(c, s, actions), r, index)
  {
    hide Inv, Act, Answering;
    InvShaped(c, Acts(c, s, actions));
    if |actions| > 0 {
      var n := |actions| - 1;
      AnsweringRuns(c, s0, s, actions[..n], r, index);
      var t := Acts(c, s, actions[..n]);
      if ByReader(actions[n], r) {
        AnsweringSelf(c, s0, t, actions[n], r, index);
      } else {
        AnsweringOther(c, s0, t, actions[n], r, index);
      }
    }
  }

  // The state in which a read gets its slot decides its answer, whatever happens until then: it is lapped
  // if and only if the slot was reused, and then it resumes strictly ahead if and only if the writer had
  // not died between its two stores of the frame one lap ahead.
  lemma ReadIsDecided(c: Config, s: State, r: nat, index: nat, actions: seq<Action>)
    requires Inv(c, s) && r < MAX_READERS && s.readers[r].at == Ready && s.slots[Pos(c, index)].owner == Free
    requires forall i | 0 <= i < |actions| :: actions[i] != Detach(r)
    ensures Inv(c, Act(c, s, Read(r, index)))
    ensures var t := Acts(c, Act(c, s, Read(r, index)), actions);
            var n := |s.readers[r].answers|;
            && Shaped(c, t) && n <= |t.readers[r].answers|
            && (n < |t.readers[r].answers| ==> Fated(c, s, t.readers[r].answers[n], index))
  {
    hide Inv, Acts, StartRead, Fated;
    InvShaped(c, s);
    ActKeeps(c, s, Read(r, index));
    ReadBegins(c, s, r, index);
    AnsweringRuns(c, s, Act(c, s, Read(r, index)), actions, r, index);
  }

  // The position of a sender that reads from 0, with what it sent and skipped.
  datatype Tally = Tally(readIndex: nat, sent: nat, skipped: nat)

  function Count(c: Config, t: Tally, a: Answer): Tally {
    match a
    case Ok(_, _) => Tally(t.readIndex + 1, t.sent + 1, t.skipped)
    case Lapped(_, edge, _) =>
      var resume := Resume(c, edge);
      Tally(resume, t.sent, if resume > t.readIndex then t.skipped + (resume - t.readIndex) else t.skipped)
    case _ => t
  }

  function Counted(c: Config, answers: seq<Answer>): Tally {
    if |answers| == 0 then Tally(0, 0, 0) else Count(c, Counted(c, answers[..|answers| - 1]), answers[|answers| - 1])
  }

  // Every read asked for the position the sender had reached.
  ghost predicate ReadsInTurn(c: Config, answers: seq<Answer>) {
    forall n | 0 <= n < |answers| :: answers[n].index == Counted(c, answers[..n]).readIndex
  }

  // Index `k` was sent as published, or overwritten.
  ghost predicate Covered(c: Config, log: seq<Frame>, answers: seq<Answer>, k: nat) {
    (k < |log| && Ok(k, log[k]) in answers) || Overwritten(c, log, k)
  }

  ghost predicate Balanced(c: Config, log: seq<Frame>, answers: seq<Answer>, t: Tally) {
    && t.readIndex == t.sent + t.skipped <= |log| && t.sent == |Delivered(answers)|
    && forall k | 0 <= k < t.readIndex :: Covered(c, log, answers, k)
  }

  lemma CountKeeps(c: Config, log: seq<Frame>, answers: seq<Answer>, t: Tally, a: Answer)
    requires Balanced(c, log, answers, t) && AnswerOk(c, log, a) && a.index == t.readIndex
    ensures Balanced(c, log, answers + [a], Count(c, t, a))
  {
    hide Delivered, Covered;
    DeliveredSnoc(answers, a);
    forall k | 0 <= k < Count(c, t, a).readIndex ensures Covered(c, log, answers + [a], k) {
      CoveredMore(c, log, answers, a, k);
    }
  }

  lemma CoveredMore(c: Config, log: seq<Frame>, answers: seq<Answer>, a: Answer, k: nat)
    requires AnswerOk(c, log, a)
    requires Covered(c, log, answers, k) || (a.Ok? && k == a.index) || (a.Lapped? && k < Resume(c, a.edge))
    ensures Covered(c, log, answers + [a], k)
  {}

  lemma NoTally(c: Config, log: seq<Frame>)
    ensures Balanced(c, log, [], Counted(c, []))
  {}

  lemma TurnInit(c: Config, answers: seq<Answer>)
    requires ReadsInTurn(c, answers) && |answers| > 0
    ensures var n := |answers| - 1;
            ReadsInTurn(c, answers[..n]) && answers[n].index == Counted(c, answers[..n]).readIndex
  {
    hide Counted;
    var n := |answers| - 1;
    forall i | 0 <= i < n ensures answers[..n][i].index == Counted(c, answers[..n][..i]).readIndex {
      assert answers[..n][..i] == answers[..i];
    }
  }

  lemma {:induction false} TallyOf(c: Config, log: seq<Frame>, answers: seq<Answer>)
    requires ReadsInTurn(c, answers) && forall i | 0 <= i < |answers| :: AnswerOk(c, log, answers[i])
    ensures Balanced(c, log, answers, Counted(c, answers))
  {
    hide AnswerOk, Count, Covered, ReadsInTurn, Balanced;
    if |answers| == 0 {
      NoTally(c, log);
    } else {
      var n := |answers| - 1;
      var before := answers[..n];
      TurnInit(c, answers);
      TallyOf(c, log, before);
      CountKeeps(c, log, before, Counted(c, before), answers[n]);
      assert answers == before + [answers[n]];
    }
  }

  // The sender's books balance in every run, and every position it passed was sent or overwritten.
  lemma SenderAccounting(c: Config, actions: seq<Action>, r: nat)
    requires c.count > 0 && r < MAX_READERS
    ensures var answers := AnswersOf(c, actions, r);
            var t := Counted(c, answers);
            ReadsInTurn(c, answers) ==>
              && t.readIndex == t.sent + t.skipped && t.sent == |Delivered(answers)|
              && forall k | 0 <= k < t.readIndex :: Covered(c, Run(c, actions).log, answers, k)
  {
    hide Run, Counted, Delivered, AnswerOk, Covered, ReadsInTurn;
    var answers := AnswersOf(c, actions, r);
    AnswersAreRight(c, actions, r);
    if ReadsInTurn(c, answers) {
      TallyOf(c, Run(c, actions).log, answers);
    }
  }

  // The loop that keeps the books.
  method KeepTally(c: Config, answers: seq<Answer>) returns (readIndex: nat, sent: nat, skipped: nat)
    ensures Tally(readIndex, sent, skipped) == Counted(c, answers)
  {
    readIndex, sent, skipped := 0, 0, 0;
    for n := 0 to |answers|
      invariant Tally(readIndex, sent, skipped) == Counted(c, answers[..n])
    {
      assert answers[..n + 1][..n] == answers[..n];
      match answers[n] {
        case Ok(_, _) =>
          sent := sent + 1;
          readIndex := readIndex + 1;
        case Lapped(_, edge, _) =>
          var resume := Resume(c, edge);
          if resume > readIndex {
            skipped := skipped + (resume - readIndex);
          }
          readIndex := resume;
        case _ =>
      }
    }
    assert answers[..|answers|] == answers;
  }

  // ---- the case left open by a dying writer ----

  ghost predicate Reachable(c: Config, s: State)
    requires c.count > 0
  {
    exists actions :: Run(c, actions) == s
  }

  lemma ReachableStep(c: Config, s: State, a: Action)
    requires c.count > 0 && Reachable(c, s) && Shaped(c, s)
    ensures Inv(c, s) && Reachable(c, Act(c, s, a)) && Shaped(c, Act(c, s, a))
  {
    hide Act, Inv;
    var actions :| Run(c, actions) == s;
    assert (actions + [a])[..|actions|] == actions;
    assert Run(c, actions + [a]) == Act(c, s, a);
    InvShaped(c, Act(c, s, a));
  }

  // A one-slot ring whose writer publishes a frame of one byte, up to storing the index.
  lemma OneFrame(c: Config, s: State) returns (t: State)
    requires c.count == 1 && !c.backpressure && Reachable(c, s) && s.writer.at == Idle && s.slots[0].owner == Free && Shaped(c, s)
    ensures Reachable(c, t) && Shaped(c, t) && t.writer.at == StoringIndex && t.slots[0].number == s.writeIndex + 1
    ensures t.writer.idx == t.writeIndex == s.writeIndex && t.readers == s.readers && t.log == s.log + [[0]]
    ensures t.slots[0].owner == TheWriter
  {
    hide Inv, Reachable;
    t := OneByte(c, s);
    t := Advance(c, t);
    t := Advance(c, t);
    t := Advance(c, t);
  }

  lemma OneByte(c: Config, s: State) returns (t: State)
    requires c.count == 1 && !c.backpressure && Reachable(c, s) && s.writer.at == Idle && s.slots[0].owner == Free && Shaped(c, s)
    ensures Reachable(c, t) && Shaped(c, t) && t.writer == Writer(Copying(1), s.writeIndex, [0])
    ensures t.slots[0].owner == TheWriter && t.writeIndex == s.writeIndex && t.readers == s.readers && t.log == s.log
  {
    hide Inv, Reachable;
    t := Act(c, s, Publish([0]));
    ReachableStep(c, s, Publish([0]));
    t := Advance(c, t);
    t := Advance(c, t);
    t := Advance(c, t);
    t := Advance(c, t);
  }

  lemma Advance(c: Config, s: State) returns (t: State)
    requires c.count == 1 && Shaped(c, s) && Reachable(c, s)
    ensures t == WriterStep(c, s) && Shaped(c, t) && Reachable(c, t)
  {
    hide Reachable, WriterStep;
    ReachableStep(c, s, WriterSteps);
    t := WriterStep(c, s);
  }

  lemma Begins(c: Config)
    requires c.count > 0
    ensures Reachable(c, Start(c))
  {
    assert Run(c, []) == Start(c);
  }

  // One reader attached, one frame published, the writer dead between the stores of the second.
  lemma DiesBetween(c: Config) returns (s: State)
    requires c == Config(1, false)
    ensures Reachable(c, s) && Shaped(c, s) && s.readers[0] == NEW_READER.(at := Ready, registered := true, early := true)
    ensures s.slots[0].owner == Free && s.slots[0].number == 2 && s.writeIndex == 1 && |s.log| == 2 && s.writer.at.Dead?
  {
    hide Reachable, Inv, WriterStep;
    Begins(c);
    var s0 := Start(c);
    ReachableStep(c, s0, Attach(0));
    var s1 := Act(c, s0, Attach(0));
    ReachableStep(c, s1, ReaderSteps(0));
    var s2 := Act(c, s1, ReaderSteps(0));
    var s3 := OneFrame(c, s2);
    var s4 := Finish(c, s3);
    var s5 := OneFrame(c, s4);
    ReachableStep(c, s5, WriterDies);
    s := Act(c, s5, WriterDies);
  }

  lemma Finish(c: Config, s: State) returns (t: State)
    requires c.count == 1 && Shaped(c, s) && Reachable(c, s) && s.writer.at == StoringIndex
    ensures Shaped(c, t) && Reachable(c, t) && t.writer.at == Idle && t.slots[0].owner == Free
    ensures t.writeIndex == s.writer.idx + 1 && t.readers == s.readers && t.log == s.log
  {
    hide Reachable, Inv;
    t := Advance(c, s);
    t := Advance(c, t);
  }

  // A writer that dies between its two stores can leave a lapped reader where it was.
  lemma DeadWriterStalls(c: Config)
    requires c == Config(1, false)
    ensures exists s :: Reachable(c, s) && |s.readers| == MAX_READERS &&
              s.readers[0].answers == [Lapped(0, 1, true)] && Resume(c, 1) == 0
  {
    hide Reachable, Inv;
    var s := DiesBetween(c);
    ReachableStep(c, s, Read(0, 0));
    var s1 := Act(c, s, Read(0, 0));
    ReachableStep(c, s1, ReaderSteps(0));
    var s2 := Act(c, s1, ReaderSteps(0));
    ReachableStep(c, s2, ReaderSteps(0));
    var s3 := Act(c, s2, ReaderSteps(0));
    assert s3.readers[0].answers == [Lapped(0, 1, true)];
  }
}
