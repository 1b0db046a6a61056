/** The ring's two operations as they run alone, tied to the steps of the interleaved machine. */
module SharedRing {
  import opened Ring

  // ---- publish without interference ----

  ghost function WriterRuns(c: Config, s: State, n: nat): (t: State)
    requires Inv(c, s)
    ensures Inv(c, t)
  {
    if n == 0 then s
    else
      WriterStepKeeps(c, WriterRuns(c, s, n - 1));
      InvShaped(c, WriterRuns(c, s, n - 1));
      WriterStep(c, WriterRuns(c, s, n - 1))
  }

  lemma {:induction false} RunsAdd(c: Config, s: State, a: nat, b: nat)
    requires Inv(c, s)
    ensures WriterRuns(c, s, a + b) == WriterRuns(c, WriterRuns(c, s, a), b)
  {
    hide Inv, WriterStep;
    if b > 0 {
      RunsAdd(c, s, a, b - 1);
    }
  }

  // The registry as a full scan sees it.
  function AnyBelow(readers: seq<Reader>, k: nat): bool
    requires k <= |readers|
  {
    k > 0 && (readers[k - 1].registered || AnyBelow(readers, k - 1))
  }

  function BlockedBelow(c: Config, readers: seq<Reader>, idx: nat, k: nat): bool
    requires k <= |readers|
  {
    k > 0 && ((readers[k - 1].registered && readers[k - 1].cursor + c.count <= idx) || BlockedBelow(c, readers, idx, k - 1))
  }

  // One registry entry of the scan.
  lemma ScanStep(c: Config, t: State, k: nat, any: bool, blocked: bool)
    requires Shaped(c, t) && k < MAX_READERS && t.writer.at == Scanning(k, any, blocked)
    ensures var r := t.readers[k];
            var seen := At(t, Scanning(k + 1, any || r.registered, (r.registered && r.cursor + c.count <= t.writer.idx) || blocked));
            if r.registered then Shaped(c, WriterStep(c, t)) && WriterStep(c, WriterStep(c, t)) == seen else WriterStep(c, t) == seen
  {
    hide Pos;
  }

  ghost function Scanned(c: Config, s: State, k: nat): State
    requires k <= |s.readers|
  {
    At(s, Scanning(k, AnyBelow(s.readers, k), BlockedBelow(c, s.readers, s.writer.idx, k)))
  }

  lemma ScanOne(c: Config, s: State, k: nat, n: nat) returns (m: nat)
    requires Inv(c, s) && |s.readers| == MAX_READERS && k < MAX_READERS && WriterRuns(c, s, n) == Scanned(c, s, k)
    ensures WriterRuns(c, s, m) == Scanned(c, s, k + 1)
  {
    hide Inv, WriterStep, WriterRuns, Shaped;
    var t := WriterRuns(c, s, n);
    OneStep(c, t);
    ScanStep(c, t, k, AnyBelow(s.readers, k), BlockedBelow(c, s.readers, s.writer.idx, k));
    m := if s.readers[k].registered then n + 2 else n + 1;
    RunsAdd(c, s, n, m - n);
  }

  lemma {:induction false} ScanRuns(c: Config, s: State, k: nat) returns (n: nat)
    requires Inv(c, s) && |s.readers| == MAX_READERS && s.writer.at == Scanning(0, false, false) && k <= MAX_READERS
    ensures WriterRuns(c, s, n) == Scanned(c, s, k)
  {
    hide Inv, WriterStep, WriterRuns, Shaped;
    if k == 0 {
      NoStep(c, s);
      n := 0;
    } else {
      n := ScanRuns(c, s, k - 1);
      n := ScanOne(c, s, k - 1, n);
    }
  }

  lemma NoStep(c: Config, s: State)
    requires Inv(c, s)
    ensures WriterRuns(c, s, 0) == s
  {}

  lemma OneStep(c: Config, s: State)
    requires Inv(c, s)
    ensures Shaped(c, s) && WriterRuns(c, s, 1) == WriterStep(c, s)
    ensures Shaped(c, WriterStep(c, s)) && WriterRuns(c, s, 2) == WriterStep(c, WriterStep(c, s))
  {
    hide Inv, WriterStep;
    InvShaped(c, s);
    InvShaped(c, WriterRuns(c, s, 1));
    assert WriterRuns(c, s, 1) == WriterStep(c, WriterRuns(c, s, 0));
  }

  // The state with the slot being filled replaced.
  ghost function Filling(c: Config, s: State, slot: Slot, at: WriterAt): State
    requires Shaped(c, s)
  {
    At(SetSlot(s, Pos(c, s.writer.idx), slot), at)
  }

  ghost function Target(c: Config, s: State): Slot
    requires Shaped(c, s)
  {
    s.slots[Pos(c, s.writer.idx)]
  }

  // Each step inside the lock rewrites the slot being filled.
  lemma FillStep(c: Config, s: State, slot: Slot, d: nat)
    requires Shaped(c, s) && |slot.frame| == FRAME_CAP
    ensures Shaped(c, Filling(c, s, slot, Copying(d)))
    ensures WriterStep(c, Filling(c, s, slot, Copying(d))) ==
            if d < |s.writer.payload| && d < FRAME_CAP
            then Filling(c, s, slot.(frame := slot.frame[d := s.writer.payload[d]]), Copying(d + 1))
            else Filling(c, s, slot, SettingLength)
  {
    hide Pos;
    var j := Pos(c, s.writer.idx);
    if d < |s.writer.payload| && d < FRAME_CAP {
      var slot' := slot.(frame := slot.frame[d := s.writer.payload[d]]);
      assert s.slots[j := slot][j := slot'] == s.slots[j := slot'];
    }
  }

  // A buffer whose first bytes have been overwritten.
  ghost function Overlaid(p: Frame, f: Frame, d: nat): (r: Frame)
    requires d <= |p| && d <= |f|
    ensures |r| == |f|
  {
    p[..d] + f[d..]
  }

  lemma OverlaidNext(p: Frame, f: Frame, d: nat)
    requires d < |p| && d < |f|
    ensures Overlaid(p, f, d)[d := p[d]] == Overlaid(p, f, d + 1)
  {}

  lemma OverlaidEnds(p: Frame, f: Frame)
    requires |p| <= |f|
    ensures Overlaid(p, f, 0) == f && Overlaid(p, f, |p|) == p + f[|p|..]
  {
    assert p[..|p|] == p;
  }

  lemma {:induction false} CopyRuns(c: Config, s: State, slot: Slot, d: nat)
    requires Shaped(c, s) && |slot.frame| == FRAME_CAP && Inv(c, Filling(c, s, slot, Copying(0)))
    requires d <= |s.writer.payload| <= FRAME_CAP
    ensures WriterRuns(c, Filling(c, s, slot, Copying(0)), d) ==
            Filling(c, s, slot.(frame := Overlaid(s.writer.payload, slot.frame, d)), Copying(d))
  {
    hide Inv, Pos, WriterStep, WriterRuns, Overlaid, Shaped, Filling;
    var p, f, s0 := s.writer.payload, slot.frame, Filling(c, s, slot, Copying(0));
    if d > 0 {
      CopyRuns(c, s, slot, d - 1);
      OverlaidNext(p, f, d - 1);
      FillStep(c, s, slot.(frame := Overlaid(p, f, d - 1)), d - 1);
      OneStep(c, WriterRuns(c, s0, d - 1));
      RunsAdd(c, s0, d - 1, 1);
    } else {
      OverlaidEnds(p, f);
      NoStep(c, s0);
    }
  }

  lemma InvPayload(c: Config, s: State)
    requires Inv(c, s) && !s.writer.at.Idle? && !s.writer.at.Dead?
    ensures 1 <= |s.writer.payload| <= FRAME_CAP
  {}

  lemma Rewrite<T>(xs: seq<T>, j: nat, a: T, b: T)
    requires j < |xs|
    ensures xs[j := a][j := b] == xs[j := b]
  {}

  // Taking the lock and clearing the slot.
  lemma LockRuns(c: Config, s: State)
    requires Inv(c, s) && s.writer.at == Locking && Shaped(c, s) && Target(c, s).owner == Free
    ensures WriterRuns(c, s, 3) == Filling(c, s, Target(c, s).(owner := TheWriter, number := 0, len := 0), Copying(0))
  {
    hide Inv, Pos, WriterRuns;
    var j, slot := Pos(c, s.writer.idx), Target(c, s);
    OneStep(c, s);
    var s1 := Filling(c, s, slot.(owner := TheWriter), ClearingSeq);
    var s2 := Filling(c, s, slot.(owner := TheWriter, number := 0), ClearingLength);
    assert WriterStep(c, s) == s1;
    Rewrite(s.slots, j, slot.(owner := TheWriter), slot.(owner := TheWriter, number := 0));
    assert WriterStep(c, s1) == s2;
    Rewrite(s.slots, j, slot.(owner := TheWriter, number := 0), slot.(owner := TheWriter, number := 0, len := 0));
    RunsAdd(c, s, 2, 1);
    OneStep(c, s2);
  }

  ghost function Published(c: Config, s: State): State
    requires Shaped(c, s) && |s.writer.payload| <= FRAME_CAP
  {
    var j, p := Pos(c, s.writer.idx), s.writer.payload;
    State(s.slots[j := Slot(Free, s.writer.idx + 1, |p|, p + s.slots[j].frame[|p|..])], s.writer.idx + 1,
          s.writer.(at := Idle), s.readers, s.log + [p])
  }

  // Length, number, index, unlock.
  lemma StoreRuns(c: Config, s: State, slot: Slot)
    requires Shaped(c, s) && |slot.frame| == FRAME_CAP
    requires Inv(c, Filling(c, s, slot, SettingLength))
    ensures var j, p := Pos(c, s.writer.idx), s.writer.payload;
            WriterRuns(c, Filling(c, s, slot, SettingLength), 4) ==
            State(s.slots[j := Slot(Free, s.writer.idx + 1, |p|, slot.frame)], s.writer.idx + 1, s.writer.(at := Idle), s.readers, s.log + [p])
  {
    hide Inv, Pos, WriterRuns;
    var j, p, idx := Pos(c, s.writer.idx), s.writer.payload, s.writer.idx;
    var s0 := Filling(c, s, slot, SettingLength);
    var s1 := Filling(c, s, slot.(len := |p|), SettingSeq);
    var s2 := Filling(c, s, slot.(len := |p|, number := idx + 1), StoringIndex).(log := s.log + [p]);
    var s3 := Filling(c, s, slot.(len := |p|, number := idx + 1), Unlocking).(log := s.log + [p], writeIndex := idx + 1);
    OneStep(c, s0);
    Rewrite(s.slots, j, slot, slot.(len := |p|));
    assert WriterStep(c, s0) == s1;
    Rewrite(s.slots, j, slot.(len := |p|), slot.(len := |p|, number := idx + 1));
    assert WriterStep(c, s1) == s2;
    RunsAdd(c, s0, 2, 2);
    OneStep(c, s2);
    assert WriterStep(c, s2) == s3;
    Rewrite(s.slots, j, slot.(len := |p|, number := idx + 1), Slot(Free, idx + 1, |p|, slot.frame));
  }

  // Run alone with its slot free, a publish past the scan ends with the whole frame in place.
  lemma PublishRuns(c: Config, s: State)
    requires Inv(c, s) && s.writer.at == Locking && Shaped(c, s) && Target(c, s).owner == Free
    ensures |s.writer.payload| <= FRAME_CAP && WriterRuns(c, s, |s.writer.payload| + 8) == Published(c, s)
  {
    hide Inv, Pos, WriterRuns, WriterStep, Shaped, Filling, Overlaid;
    InvPayload(c, s);
    ShapedFrame(c, s);
    var p, slot := s.writer.payload, Target(c, s).(owner := TheWriter, number := 0, len := 0);
    var done := slot.(frame := Overlaid(p, slot.frame, |p|));
    FillRuns(c, s, slot, done);
    StoreRuns(c, s, done);
    RunsAdd(c, s, 4 + |p|, 4);
    OverlaidEnds(p, slot.frame);
  }

  lemma FillRuns(c: Config, s: State, slot: Slot, done: Slot)
    requires Inv(c, s) && s.writer.at == Locking && Shaped(c, s) && Target(c, s).owner == Free
    requires slot == Target(c, s).(owner := TheWriter, number := 0, len := 0) && |slot.frame| == FRAME_CAP
    requires |s.writer.payload| <= FRAME_CAP && done == slot.(frame := Overlaid(s.writer.payload, slot.frame, |s.writer.payload|))
    ensures WriterRuns(c, s, 4 + |s.writer.payload|) == Filling(c, s, done, SettingLength)
  {
    hide Inv, Pos, WriterRuns, WriterStep, Shaped, Filling, Overlaid, Target;
    var p := s.writer.payload;
    LockRuns(c, s);
    CopyRuns(c, s, slot, |p|);
    RunsAdd(c, s, 3, |p|);
    FillStep(c, s, done, |p|);
    OneStep(c, WriterRuns(c, s, 3 + |p|));
    RunsAdd(c, s, 3 + |p|, 1);
  }

  lemma ShapedFrame(c: Config, s: State)
    requires Shaped(c, s)
    ensures |Target(c, s).frame| == FRAME_CAP
  {}

  // ---- read without interference ----

  ghost function ReaderRuns(c: Config, s: State, r: nat, n: nat): (t: State)
    requires Inv(c, s) && r < MAX_READERS
    ensures Inv(c, t)
  {
    if n == 0 then s
    else
      ReaderStepKeeps(c, ReaderRuns(c, s, r, n - 1), r);
      InvShaped(c, ReaderRuns(c, s, r, n - 1));
      ReaderStep(c, ReaderRuns(c, s, r, n - 1), r)
  }

  lemma ReaderNext(c: Config, s: State, r: nat, n: nat)
    requires Inv(c, s) && r < MAX_READERS
    ensures Shaped(c, ReaderRuns(c, s, r, n)) && ReaderRuns(c, s, r, n + 1) == ReaderStep(c, ReaderRuns(c, s, r, n), r)
  {
    hide Inv, ReaderStep;
    InvShaped(c, ReaderRuns(c, s, r, n));
  }

  // Reader `r` stands at `x` with the slot of its index locked.
  ghost function Holding(c: Config, s: State, r: nat, x: Reader): State
    requires Shaped(c, s) && r < MAX_READERS
  {
    var j := Pos(c, x.index);
    SetReader(SetSlot(s, j, s.slots[j].(owner := TheReader(r))), r, x)
  }

  // What one read does to its reader when nothing else moves.
  ghost function ReadAlone(c: Config, s: State, r: nat, index: nat): Reader
    requires Shaped(c, s) && r < MAX_READERS
  {
    var reader, j := s.readers[r], Pos(c, index);
    var x := reader.(index := index, out := [], inOrder := reader.inOrder && index == reader.oks);
    var slot := s.slots[j];
    if slot.number < index + 1 then Answered(x, Ready, Empty(index, |s.log|, Torn(c, s, j)))
    else if slot.number > index + 1 then Answered(x, Ready, Lapped(index, s.writeIndex, Broken(s)))
    else if slot.len == 0 || slot.len > FRAME_CAP then Answered(x, Ready, Corrupt(index))
    else Answered(x.(out := slot.frame[..slot.len], cursor := index + 1, oks := x.oks + 1), Ready, Ok(index, slot.frame[..slot.len]))
  }

  lemma HoldStep(c: Config, s: State, r: nat, x: Reader)
    requires Shaped(c, s) && r < MAX_READERS && s.slots[Pos(c, x.index)].owner == Free
    ensures Shaped(c, Holding(c, s, r, x))
    ensures var t, slot := ReaderStep(c, Holding(c, s, r, x), r), s.slots[Pos(c, x.index)];
            && (x.at == Lapping ==> t == Holding(c, s, r, Answered(x, Releasing, Lapped(x.index, s.writeIndex, Broken(s)))))
            && (x.at == CopyingOut ==> t == Holding(c, s, r,
                  if |x.out| < slot.len && |x.out| < FRAME_CAP then x.(out := x.out + [slot.frame[|x.out|]]) else x.(at := StoringCursor)))
            && (x.at == StoringCursor ==> t == Holding(c, s, r,
                  Answered(x, Releasing, Ok(x.index, x.out)).(cursor := x.index + 1, oks := x.oks + 1)))
  {
    hide Pos;
  }

  lemma HoldCompare(c: Config, s: State, r: nat, x: Reader)
    requires Shaped(c, s) && r < MAX_READERS && s.slots[Pos(c, x.index)].owner == Free && x.at == Comparing
    ensures Shaped(c, Holding(c, s, r, x))
    ensures var t, j := ReaderStep(c, Holding(c, s, r, x), r), Pos(c, x.index);
            var slot := s.slots[j];
            t == Holding(c, s, r,
                   if slot.number < x.index + 1 then Answered(x, Releasing, Empty(x.index, |s.log|, Torn(c, s, j)))
                   else if slot.number > x.index + 1 then x.(at := Lapping)
                   else if slot.len == 0 || slot.len > FRAME_CAP then Answered(x, Releasing, Corrupt(x.index))
                   else x.(at := CopyingOut))
  {
    hide Pos;
  }

  lemma HoldRelease(c: Config, s: State, r: nat, x: Reader)
    requires Shaped(c, s) && r < MAX_READERS && s.slots[Pos(c, x.index)].owner == Free && x.at == Releasing
    ensures Shaped(c, Holding(c, s, r, x))
    ensures ReaderStep(c, Holding(c, s, r, x), r) == SetReader(s, r, x.(at := Ready))
  {
    hide Pos;
    var j := Pos(c, x.index);
    Rewrite(s.slots, j, s.slots[j].(owner := TheReader(r)), s.slots[j]);
    Rewrite(s.readers, r, x, x.(at := Ready));
  }

  lemma {:induction false} CopyOutRuns(c: Config, s: State, s1: State, r: nat, x: Reader, n: nat, d: nat)
    requires Shaped(c, s) && r < MAX_READERS && s.slots[Pos(c, x.index)].owner == Free
    requires x.at == CopyingOut && x.out == [] && d <= s.slots[Pos(c, x.index)].len <= FRAME_CAP
    requires Inv(c, s1) && ReaderRuns(c, s1, r, n) == Holding(c, s, r, x)
    ensures ReaderRuns(c, s1, r, n + d) == Holding(c, s, r, x.(out := s.slots[Pos(c, x.index)].frame[..d]))
  {
    hide Inv, Pos, ReaderStep, ReaderRuns, Holding;
    var f := s.slots[Pos(c, x.index)].frame;
    if d > 0 {
      CopyOutRuns(c, s, s1, r, x, n, d - 1);
      HoldStep(c, s, r, x.(out := f[..d - 1]));
      ReaderNext(c, s1, r, n + d - 1);
      assert f[..d - 1] + [f[d - 1]] == f[..d];
    } else {
      assert f[..0] == x.out;
    }
  }

  lemma ReleaseRuns(c: Config, s: State, s1: State, r: nat, x: Reader, n: nat)
    requires Shaped(c, s) && r < MAX_READERS && s.slots[Pos(c, x.index)].owner == Free && x.at == Releasing
    requires Inv(c, s1) && ReaderRuns(c, s1, r, n) == Holding(c, s, r, x)
    ensures ReaderRuns(c, s1, r, n + 1) == SetReader(s, r, x.(at := Ready))
  {
    hide Inv, Pos, ReaderStep, ReaderRuns, Holding;
    HoldRelease(c, s, r, x);
    ReaderNext(c, s1, r, n);
  }

  lemma LapRuns(c: Config, s: State, s1: State, r: nat, x: Reader)
    requires Shaped(c, s) && r < MAX_READERS && s.slots[Pos(c, x.index)].owner == Free && x.at == Lapping
    requires Inv(c, s1) && ReaderRuns(c, s1, r, 1) == Holding(c, s, r, x)
    ensures ReaderRuns(c, s1, r, 3) == SetReader(s, r, Answered(x, Ready, Lapped(x.index, s.writeIndex, Broken(s))))
  {
    hide Inv, Pos, ReaderStep, ReaderRuns, Holding, Broken;
    HoldStep(c, s, r, x);
    ReaderNext(c, s1, r, 1);
    ReleaseRuns(c, s, s1, r, Answered(x, Releasing, Lapped(x.index, s.writeIndex, Broken(s))), 2);
  }

  lemma OkRuns(c: Config, s: State, s1: State, r: nat, x: Reader)
    requires Shaped(c, s) && r < MAX_READERS && s.slots[Pos(c, x.index)].owner == Free
    requires x.at == CopyingOut && x.out == [] && s.slots[Pos(c, x.index)].len <= FRAME_CAP
    requires Inv(c, s1) && ReaderRuns(c, s1, r, 1) == Holding(c, s, r, x)
    ensures var slot := s.slots[Pos(c, x.index)];
            var f := slot.frame[..slot.len];
            ReaderRuns(c, s1, r, slot.len + 4) ==
            SetReader(s, r, Answered(x.(out := f, cursor := x.index + 1, oks := x.oks + 1), Ready, Ok(x.index, f)))
  {
    hide Inv, Pos, ReaderStep, ReaderRuns, Holding;
    var slot := s.slots[Pos(c, x.index)];
    var f, d := slot.frame[..slot.len], slot.len;
    CopyOutRuns(c, s, s1, r, x, 1, d);
    HoldStep(c, s, r, x.(out := f));
    ReaderNext(c, s1, r, 1 + d);
    HoldStep(c, s, r, x.(out := f, at := StoringCursor));
    ReaderNext(c, s1, r, 2 + d);
    ReleaseRuns(c, s, s1, r, Answered(x.(out := f), Releasing, Ok(x.index, f)).(cursor := x.index + 1, oks := x.oks + 1), 3 + d);
  }

  // Run alone with its slot free, a read answers from what the slot holds and leaves the slots as they were.
  lemma ReadRuns(c: Config, s: State, r: nat, index: nat) returns (n: nat)
    requires Inv(c, s) && Shaped(c, s) && r < MAX_READERS && s.readers[r].at == Ready && s.slots[Pos(c, index)].owner == Free
    ensures Inv(c, StartRead(c, s, r, index)) && ReaderRuns(c, StartRead(c, s, r, index), r, n) == SetReader(s, r, ReadAlone(c, s, r, index))
  {
    hide Inv, Pos, ReaderStep, ReaderRuns, Torn, Broken, Holding;
    StartReadKeeps(c, s, r, index);
    var reader, slot := s.readers[r], s.slots[Pos(c, index)];
    var x := reader.(at := Comparing, index := index, out := [], inOrder := reader.inOrder && index == reader.oks);
    var s1 := StartRead(c, s, r, index);
    StartsHolding(c, s, r, index, x);
    ReaderNone(c, s1, r);
    HoldCompare(c, s, r, x);
    ReaderNext(c, s1, r, 0);
    if slot.number < index + 1 {
      ReleaseRuns(c, s, s1, r, Answered(x, Releasing, Empty(index, |s.log|, Torn(c, s, Pos(c, index)))), 1);
      n := 2;
    } else if slot.number > index + 1 {
      LapRuns(c, s, s1, r, x.(at := Lapping));
      n := 3;
    } else if slot.len == 0 || slot.len > FRAME_CAP {
      ReleaseRuns(c, s, s1, r, Answered(x, Releasing, Corrupt(index)), 1);
      n := 2;
    } else {
      OkRuns(c, s, s1, r, x.(at := CopyingOut));
      n := slot.len + 4;
    }
  }

  lemma StartsHolding(c: Config, s: State, r: nat, index: nat, x: Reader)
    requires Shaped(c, s) && r < MAX_READERS && s.readers[r].at == Ready && s.slots[Pos(c, index)].owner == Free
    requires var reader := s.readers[r];
             x == reader.(at := Comparing, index := index, out := [], inOrder := reader.inOrder && index == reader.oks)
    ensures StartRead(c, s, r, index) == Holding(c, s, r, x)
  {
    hide Pos;
  }

  lemma ReaderNone(c: Config, s: State, r: nat)
    requires Inv(c, s) && r < MAX_READERS
    ensures ReaderRuns(c, s, r, 0) == s
  {}

  // ---- the operations ----

  // A publish that has passed its checks and is about to take the slot's lock.
  ghost function Admitted(s: State, payload: Frame): State {
    s.(writer := Writer(Locking, s.writeIndex, payload))
  }

  ghost predicate CanPublish(c: Config, s: State, payload: Frame)
    requires Shaped(c, s)
  {
    && 1 <= |payload| <= FRAME_CAP && s.slots[Pos(c, s.writeIndex)].owner == Free
    && (c.backpressure && s.writeIndex >= c.count ==>
          AnyBelow(s.readers, MAX_READERS) && !BlockedBelow(c, s.readers, s.writeIndex, MAX_READERS))
  }

  // Run alone, an admitted publish passes its scan and stores its frame.
  lemma AdmittedRuns(c: Config, s: State, payload: Frame) returns (n: nat)
    requires Inv(c, s) && s.writer.at == Idle && Shaped(c, s) && CanPublish(c, s, payload)
    ensures Inv(c, StartPublish(c, s, payload)) && WriterRuns(c, StartPublish(c, s, payload), n) == Published(c, Admitted(s, payload))
  {
    hide Inv, Pos, WriterStep, WriterRuns, Published;
    PublishKeeps(c, s, payload);
    var s1, s2 := StartPublish(c, s, payload), Admitted(s, payload);
    n := 0;
    NoStep(c, s1);
    if c.backpressure && s.writeIndex >= c.count {
      n := ScanRuns(c, s1, MAX_READERS);
      var t := WriterRuns(c, s1, n);
      ScanEnds(c, t);
      OneStep(c, t);
      RunsAdd(c, s1, n, 1);
      n := n + 1;
    }
    PublishRuns(c, s2);
    RunsAdd(c, s1, n, |payload| + 8);
    n := n + (|payload| + 8);
  }

  lemma ScanEnds(c: Config, t: State)
    requires Shaped(c, t) && t.writer.at.Scanning? && t.writer.at.next == MAX_READERS && t.writer.at.any && !t.writer.at.blocked
    ensures WriterStep(c, t) == At(t, Locking)
  {
    hide Pos;
  }

  // Where a publish that may not proceed can be: back at rest, in its scan, or asking for a lock that is held.
  ghost predicate Held(c: Config, s: State, payload: Frame, t: State)
    requires Shaped(c, s)
  {
    && t.slots == s.slots && t.log == s.log && t.writeIndex == s.writeIndex && t.readers == s.readers
    && match t.writer.at
       case Idle => t == s
       case Locking => t.writer.idx == s.writeIndex && s.slots[Pos(c, s.writeIndex)].owner != Free
       case Scanning(k, any, blocked) =>
         && t.writer.idx == s.writeIndex && k <= MAX_READERS && c.backpressure && s.writeIndex >= c.count
         && any == AnyBelow(s.readers, k) && blocked == BlockedBelow(c, s.readers, s.writeIndex, k)
       case LoadingCursor(k, any, blocked) =>
         && t.writer.idx == s.writeIndex && k < MAX_READERS && c.backpressure && s.writeIndex >= c.count
         && any && s.readers[k].registered && blocked == BlockedBelow(c, s.readers, s.writeIndex, k)
       case _ => false
  }

  lemma HeldSteps(c: Config, s: State, payload: Frame, t: State)
    requires Shaped(c, s) && Shaped(c, t) && s.writer.at == Idle && !CanPublish(c, s, payload) && 1 <= |payload| <= FRAME_CAP
    requires Held(c, s, payload, t)
    ensures Held(c, s, payload, WriterStep(c, t))
  {
    hide Pos;
  }

  // A publish that may not proceed never does while nothing else moves: the frame is too long or empty, the
  // lock of its slot is held, or under backpressure no reader is attached or one is a full lap behind.
  lemma {:induction false} RefusedWaits(c: Config, s: State, payload: Frame, n: nat)
    requires Inv(c, s) && s.writer.at == Idle && Shaped(c, s) && !CanPublish(c, s, payload)
    ensures Inv(c, StartPublish(c, s, payload))
    ensures var t := WriterRuns(c, StartPublish(c, s, payload), n);
            t.log == s.log && t.slots == s.slots && t.writeIndex == s.writeIndex && Held(c, s, payload, t)
  {
    hide Inv, Pos, WriterStep;
    PublishKeeps(c, s, payload);
    var s1 := StartPublish(c, s, payload);
    if n > 0 {
      RefusedWaits(c, s, payload, n - 1);
      var t := WriterRuns(c, s1, n - 1);
      InvShaped(c, t);
      if 1 <= |payload| <= FRAME_CAP {
        HeldSteps(c, s, payload, t);
      } else {
        IdleStays(c, s);
        assert s1 == s;
        AtRest(c, s, n - 1);
      }
    }
  }

  lemma IdleStays(c: Config, s: State)
    requires Shaped(c, s) && s.writer.at == Idle
    ensures WriterStep(c, s) == s
  {}

  lemma {:induction false} AtRest(c: Config, s: State, n: nat)
    requires Inv(c, s) && s.writer.at == Idle
    ensures WriterRuns(c, s, n) == s
  {
    hide Inv, WriterStep;
    InvShaped(c, s);
    if n > 0 {
      AtRest(c, s, n - 1);
      IdleStays(c, s);
    }
  }

  datatype Status = FrameOk | FrameEmpty | FrameLapped | FrameCorrupt

  // What the caller of `read` is told about an answer.
  ghost predicate Tells(c: Config, a: Answer, status: Status, out: Frame, resume: nat) {
    match a
    case Ok(_, frame) => status == FrameOk && out == frame
    case Busy(_) => status == FrameEmpty
    case Empty(_, _, _) => status == FrameEmpty
    case Lapped(_, edge, _) => status == FrameLapped && resume == Resume(c, edge)
    case Corrupt(_) => status == FrameCorrupt
  }

  class SharedRing {
    const config: Config
    var slots: seq<Slot>
    var writeIndex: nat
    var registered: seq<bool>
    var cursors: seq<nat>
    ghost var readers: seq<Reader>
    ghost var writer: Writer
    ghost var log: seq<Frame>

    ghost function Abstract(): State
      reads this
    {
      State(slots, writeIndex, writer, readers, log)
    }

    ghost predicate RegistryOk()
      reads this
    {
      && |registered| == |cursors| == |readers| == MAX_READERS
      && forall k | 0 <= k < MAX_READERS :: registered[k] == readers[k].registered && cursors[k] == readers[k].cursor
    }

    // Between operations the writer is idle.
    ghost predicate Valid()
      reads this
    {
      Inv(config, Abstract()) && writer.at == Idle && RegistryOk()
    }

    constructor (config: Config)
      requires config.count > 0
      ensures Valid() && this.config == config && Abstract() == Start(config)
    {
      this.config := config;
      slots := seq(config.count, _ => Slot(Free, 0, 0, seq(FRAME_CAP, _ => 0)));
      writeIndex := 0;
      registered, cursors := seq(MAX_READERS, _ => false), seq(MAX_READERS, _ => 0);
      readers := seq(MAX_READERS, _ => NEW_READER);
      writer, log := Writer(Idle, 0, []), [];
      new;
      StartInv(config);
    }

    // May the writer reuse the slot? Some reader is registered and none is a full lap behind.
    method Clear(idx: nat) returns (clear: bool)
      requires RegistryOk()
      ensures clear == (AnyBelow(readers, MAX_READERS) && !BlockedBelow(config, readers, idx, MAX_READERS))
    {
      var any, blocked := false, false;
      for k := 0 to MAX_READERS
        invariant any == AnyBelow(readers, k) && blocked == BlockedBelow(config, readers, idx, k)
      {
        if registered[k] {
          any := true;
          if cursors[k] + config.count <= idx {
            blocked := true;
          }
        }
      }
      return any && !blocked;
    }

    // Publishes a frame if its length is legal, the registry lets the slot be reused and the slot is free.
    method Publish(payload: Frame) returns (ok: bool)
      requires Valid()
      modifies this
      ensures Valid()
      ensures Shaped(config, old(Abstract())) && (ok <==> CanPublish(config, old(Abstract()), payload))
      ensures !ok ==> Abstract() == old(Abstract())
      ensures ok ==> Abstract() == Published(config, Admitted(old(Abstract()), payload)) && log == old(log) + [payload]
      ensures ok ==> Inv(config, StartPublish(config, old(Abstract()), payload)) &&
                     exists n :: Abstract() == WriterRuns(config, StartPublish(config, old(Abstract()), payload), n)
    {
      hide Inv, Pos, WriterRuns, WriterStep;
      InvShaped(config, Abstract());
      if |payload| == 0 || |payload| > FRAME_CAP {
        return false;
      }
      var idx := writeIndex;
      if config.backpressure && idx >= config.count {
        var clear := Clear(idx);
        if !clear {
          return false;
        }
      }
      var j := Pos(config, idx);
      if slots[j].owner != Free {
        return false;
      }
      ghost var n := AdmittedRuns(config, Abstract(), payload);
      var frame := CopyIn(slots[j].frame, payload);
      slots := slots[j := Slot(Free, idx + 1, |payload|, frame)];
      writeIndex := idx + 1;
      writer, log := Writer(Idle, idx, payload), log + [payload];
      return true;
    }

    // Reads one index: a busy slot is reported at once, otherwise the slot decides.
    method Read(r: nat, index: nat) returns (status: Status, out: Frame, resume: nat)
      requires Valid() && r < MAX_READERS && readers[r].at == Ready
      modifies this
      ensures Valid()
      ensures var s := old(Abstract());
              && Shaped(config, s)
              && (s.slots[Pos(config, index)].owner != Free ==> Abstract() == StartRead(config, s, r, index))
              && (s.slots[Pos(config, index)].owner == Free ==>
                    && Abstract() == SetReader(s, r, ReadAlone(config, s, r, index))
                    && Inv(config, StartRead(config, s, r, index))
                    && exists n :: Abstract() == ReaderRuns(config, StartRead(config, s, r, index), r, n))
      ensures readers[r].answers != [] && Tells(config, readers[r].answers[|readers[r].answers| - 1], status, out, resume)
    {
      hide Inv, Pos, ReaderRuns, ReaderStep, Resume, ReadAlone, Tells;
      ghost var s := Abstract();
      InvShaped(config, s);
      StartReadKeeps(config, s, r, index);
      status, out, resume := FrameEmpty, [], 0;
      var j := Pos(config, index);
      if slots[j].owner != Free {
        readers := StartRead(config, s, r, index).readers;
        BusyTells(config, s, r, index);
        return;
      }
      ghost var n := ReadRuns(config, s, r, index);
      status, out, resume := SlotAnswers(config, slots[j], writeIndex, index);
      ReadAloneTells(config, s, r, index, status, out, resume);
      if status == FrameOk {
        cursors := cursors[r := index + 1];
      }
      readers := readers[r := ReadAlone(config, s, r, index)];
    }
  }

  // What a slot with this number and length says to a reader of `index`.
  ghost predicate Says(c: Config, slot: Slot, writeIndex: nat, index: nat, status: Status, out: Frame, resume: nat)
    requires |slot.frame| == FRAME_CAP
  {
    if slot.number < index + 1 then status == FrameEmpty
    else if slot.number > index + 1 then status == FrameLapped && resume == Resume(c, writeIndex)
    else if slot.len == 0 || slot.len > FRAME_CAP then status == FrameCorrupt
    else status == FrameOk && out == slot.frame[..slot.len]
  }

  method SlotAnswers(c: Config, slot: Slot, writeIndex: nat, index: nat) returns (status: Status, out: Frame, resume: nat)
    requires |slot.frame| == FRAME_CAP
    ensures Says(c, slot, writeIndex, index, status, out, resume)
  {
    status, out, resume := FrameEmpty, [], 0;
    if slot.number < index + 1 {
      return;
    }
    if slot.number > index + 1 {
      return FrameLapped, [], Resume(c, writeIndex);
    }
    if slot.len == 0 || slot.len > FRAME_CAP {
      return FrameCorrupt, [], 0;
    }
    out := CopyOut(slot.frame, slot.len);
    status := FrameOk;
  }

  // The caller is told what the read answers; the cursor and nothing else of the registry moves on success.
  lemma ReadAloneTells(c: Config, s: State, r: nat, index: nat, status: Status, out: Frame, resume: nat)
    requires Shaped(c, s) && r < MAX_READERS && Says(c, s.slots[Pos(c, index)], s.writeIndex, index, status, out, resume)
    ensures var x := ReadAlone(c, s, r, index);
            && x.answers != [] && Tells(c, x.answers[|x.answers| - 1], status, out, resume) && x.registered == s.readers[r].registered
            && x.cursor == if status == FrameOk then index + 1 else s.readers[r].cursor
  {
    hide Pos, Torn, Broken, Resume;
  }

  lemma BusyTells(c: Config, s: State, r: nat, index: nat)
    requires Shaped(c, s) && r < MAX_READERS && s.readers[r].at == Ready && s.slots[Pos(c, index)].owner != Free
    ensures var s' := StartRead(c, s, r, index);
            var x := s'.readers[r];
            && s' == SetReader(s, r, x) && x.answers != [] && Tells(c, x.answers[|x.answers| - 1], FrameEmpty, [], 0)
            && x.registered == s.readers[r].registered && x.cursor == s.readers[r].cursor
  {
    hide Pos;
  }

  // The bytes of a frame, copied over the start of a buffer.
  method CopyIn(buffer: Frame, payload: Frame) returns (out: Frame)
    requires |payload| <= |buffer|
    ensures out == payload + buffer[|payload|..]
  {
    out := buffer;
    OverlaidEnds(payload, buffer);
    for i := 0 to |payload|
      invariant |out| == |buffer| && out == Overlaid(payload, buffer, i)
    {
      OverlaidNext(payload, buffer, i);
      out := out[i := payload[i]];
    }
  }

  // The first bytes of a buffer, copied out one by one.
  method CopyOut(buffer: Frame, len: nat) returns (out: Frame)
    requires len <= |buffer|
    ensures out == buffer[..len]
  {
    out := [];
    for i := 0 to len
      invariant out == buffer[..i]
    {
      out := out + [buffer[i]];
    }
  }
}
