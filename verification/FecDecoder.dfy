/** The decoder as it runs: in-place slots, the loops of recovery, the publish callback. */
module FecDecoder {
  import opened Bytes
  import opened Gf256
  import opened Elimination
  import opened Cauchy
  import opened Wire
  import opened Fec
  import opened Generations

  // rhs[j] ^= f * other[j] over the bytes `other` has.
  method AddShorter(row: Vector, f: byte, other: Vector) returns (v: Vector)
    requires |other| <= |row|
    ensures v == AddRow(row, f, Pad(other, |row|))
  {
    hide Mul, Xor;
    v := row;
    for i := 0 to |other|
      invariant |v| == |row|
      invariant forall j | 0 <= j < |row| :: v[j] == if j < i then Xor(row[j], Mul(f, other[j])) else row[j]
    {
      var x := Multiply(f, other[i]);
      v := v[i := Xor(v[i], x)];
    }
    forall j | |other| <= j < |row| ensures Xor(row[j], Mul(f, 0)) == row[j] {
      MulZero(f);
      XorUnit(row[j]);
    }
  }

  method AbsentLoop(received: seq<bool>, k: nat) returns (absent: seq<nat>)
    requires k <= |received|
    ensures absent == Absent(received, k)
  {
    absent := [];
    for i := 0 to k
      invariant absent == Absent(received, i)
    {
      if !received[i] {
        absent := absent + [i];
      }
    }
  }

  method HeldLoop(parities: seq<seq<byte>>) returns (rows: seq<nat>)
    ensures rows == Held(parities, |parities|)
  {
    rows := [];
    for i := 0 to |parities|
      invariant rows == Held(parities, i)
    {
      if parities[i] != [] {
        rows := rows + [i];
      }
    }
  }

  // One right-hand side; fails on a received block wider than the parity.
  method RightSideLoop(g: Generation, row: nat, width: nat) returns (fits: bool, v: Vector)
    requires Valid(g) && row < |g.parities| == MAX_PARITY && |g.parities[row]| == width
    ensures fits <==> DataFits(g, width)
    ensures fits ==> v == RightSide(g, row, width, g.k)
  {
    hide AddRow, Coefficient, Pad, Parities;
    v := g.parities[row];
    for c := 0 to g.k
      invariant forall i | 0 <= i < c && g.received[i] :: |g.data[i]| <= width
      invariant v == RightSide(g, row, width, c)
    {
      if g.received[c] {
        if |g.data[c]| > width {
          return false, v;
        }
        var factor := CoefficientOf(row, c);
        v := AddShorter(v, factor, g.data[c]);
      }
    }
    fits := true;
  }

  method RightSidesLoop(g: Generation, rows: seq<nat>, width: nat) returns (fits: bool, rhs: Matrix)
    requires Valid(g) && Solvable(g) && rows == UsedRows(g) && width == ShardWidth(g)
    ensures fits <==> DataFits(g, width)
    ensures fits ==> rhs == RightSides(g)
  {
    hide RightSide, DataFits, Valid, Solvable, Absent, Held;
    SolvableShape(g);
    rhs := [];
    for r := 0 to |rows|
      invariant r > 0 ==> DataFits(g, width)
      invariant DataFits(g, width) ==> |rhs| == r && forall i | 0 <= i < r :: rhs[i] == RightSides(g)[i]
    {
      var v;
      fits, v := RightSideLoop(g, rows[r], width);
      if !fits {
        return;
      }
      rhs := rhs + [v];
    }
    fits := true;
  }

  lemma SolvableShape(g: Generation)
    requires Valid(g) && Solvable(g)
    ensures |g.parities| == MAX_PARITY && |UsedRows(g)| > 0 && g.k <= |g.received| == |g.data|
  {}

  method LengthsLoop(blocks: Matrix) returns (ok: bool)
    requires forall i | 0 <= i < |blocks| :: |blocks[i]| >= 2
    ensures ok <==> forall i | 0 <= i < |blocks| :: LengthOkAny(blocks[i])
  {
    for r := 0 to |blocks|
      invariant forall i | 0 <= i < r :: LengthOkAny(blocks[i])
    {
      if !LengthOk(blocks[r], |blocks[r]|) {
        return false;
      }
    }
    return true;
  }

  method PublishLoop(g0: Generation, absent: seq<nat>, blocks: Matrix, accepts: Frame -> bool) returns (s: Step)
    requires |absent| == |blocks| && |g0.received| == |g0.data|
    requires forall i | 0 <= i < |absent| :: absent[i] < |g0.data|
    requires forall i | 0 <= i < |blocks| :: LengthOkAny(blocks[i])
    ensures s == PublishFrom(g0, absent, blocks, 0, accepts)
  {
    hide LengthOkAny, FrameOf;
    var g := g0;
    var published: seq<Publication> := [];
    ghost var goal := PublishFrom(g0, absent, blocks, 0, accepts);
    for r := 0 to |absent|
      invariant |g.received| == |g.data| == |g0.data|
      invariant var rest := PublishFrom(g, absent, blocks, r, accepts);
                goal == rest.(published := published + rest.published)
    {
      var frame := FrameOf(blocks[r]);
      if !accepts(frame) {
        return Step(g, false, published);
      }
      ghost var rest := PublishFrom(WithData(g, absent[r], blocks[r]), absent, blocks, r + 1, accepts);
      assert published + ([Publication(frame, true)] + rest.published) == (published + [Publication(frame, true)]) + rest.published;
      published := published + [Publication(frame, true)];
      g := WithData(g, absent[r], blocks[r]);
    }
    s := Step(g.(recovered := true), true, published);
  }

  // The exit for a column without a pivot is taken when `solved` is false; it never is.
  method Recover(g: Generation, accepts: Frame -> bool) returns (s: Step)
    requires Valid(g)
    ensures s == TryRecover(g, accepts)
  {
    hide Absent, Held, PublishFrom, RightSides, Recovered, DataFits, LengthOkAny, Parities, Rows, Columns, ShardWidth;
    if !g.parityReceived || g.recovered {
      return Step(g, true, []);
    }
    var absent := AbsentLoop(g.received, g.k);
    if |absent| == 0 {
      return Step(g, true, []);
    }
    var rows := HeldLoop(g.parities);
    if |rows| < |absent| {
      return Step(g, true, []);
    }
    rows := rows[..|absent|];
    assert rows == UsedRows(g);
    WidthOfFirst(g);
    var width := |g.parities[rows[0]]|;
    var fits, rhs := RightSidesLoop(g, rows, width);
    if !fits {
      return Step(g, false, []);
    }
    AbsentColumns(g);
    var solved, blocks := Solve(rows, absent, rhs, width);
    if !solved {
      return Step(g, false, []);
    }
    assert blocks == MissingBlocks(g);
    var ok := LengthsLoop(blocks);
    if !ok {
      return Step(g, false, []);
    }
    s := PublishLoop(g, absent, blocks, accepts);
  }

  lemma WidthOfFirst(g: Generation)
    requires Valid(g) && Solvable(g)
    ensures |UsedRows(g)| > 0 && UsedRows(g)[0] < |g.parities| && ShardWidth(g) == |g.parities[UsedRows(g)[0]]|
  {}

  class Decoder {
    var slots: seq<Generation>

    ghost predicate Valid()
      reads this
    {
      SlotsValid(slots)
    }

    constructor (gens: nat)
      ensures Valid() && |slots| == (if gens == 0 then 1 else gens) && forall i | 0 <= i < |slots| :: slots[i] == EMPTY
    {
      slots := seq(if gens == 0 then 1 else gens, _ => EMPTY);
    }

    method Receive(d: seq<byte>, now: nat, accepts: Frame -> bool) returns (ok: bool, published: seq<Publication>)
      requires Valid()
      modifies this
      ensures Valid() && |slots| == |old(slots)|
      ensures Received(slots, ok, published) == Generations.Receive(old(slots), d, now, accepts)
      ensures |d| < 17 || d[..4] != [0x46, 0x45, 0x43, 0x32] ==>
                slots == old(slots) && ok == accepts(d) && published == if accepts(d) then [Publication(d, false)] else []
    {
      ReceiveKeepsValid(slots, d, now, accepts);
      var r := Arrives(slots, d, now, accepts);
      slots := r.slots;
      return r.ok, r.published;
    }

    // Drops every generation whose first shard is at least a second old.
    method Expire(now: nat)
      requires Valid()
      modifies this
      ensures Valid() && slots == Expired(old(slots), now)
      ensures forall i | 0 <= i < |slots| && slots[i].active :: now < slots[i].firstNs + 1_000_000_000
      ensures forall i | 0 <= i < |slots| && now < old(slots)[i].firstNs + 1_000_000_000 :: slots[i] == old(slots)[i]
    {
      hide Generations.Valid;
      ExpiredValid(slots, now);
      var i, kept := 0, slots;
      while i < |kept|
        invariant 0 <= i <= |kept| == |slots| && slots == old(slots)
        invariant forall j | 0 <= j < |kept| :: kept[j] == if j < i then Expired(slots, now)[j] else slots[j]
      {
        if kept[i].active && now >= kept[i].firstNs + TTL {
          kept := kept[i := EMPTY];
        }
        i := i + 1;
      }
      slots := kept;
    }
  }

  // The slot of a generation: what it holds of that generation is kept, and a slot that is free or
  // held by another generation starts over with nothing received.
  method TakeSlot(slots: seq<Generation>, genId: nat, k: nat, now: nat) returns (g: Generation)
    requires |slots| > 0
    ensures g.active && g.genId == genId
    ensures var held := slots[genId % |slots|];
            if held.active && held.genId == genId then g == held
            else g.k == k && g.firstNs == now && g.received == [] && g.data == [] && g.parities == [] && !g.parityReceived && !g.recovered
    ensures g == SlotFor(slots, genId, k, now)
  {
    g := slots[genId % |slots|];
    if !g.active || g.genId != genId {
      g := EMPTY.(active := true, genId := genId, k := k, firstNs := now);
    }
  }

  method Arrives(slots: seq<Generation>, d: seq<byte>, now: nat, accepts: Frame -> bool) returns (r: Received)
    requires SlotsValid(slots)
    ensures r == Generations.Receive(slots, d, now, accepts)
    ensures |d| < 17 || d[..4] != [0x46, 0x45, 0x43, 0x32] ==>
              r.slots == slots && r.ok == accepts(d) && r.published == if accepts(d) then [Publication(d, false)] else []
  {
    hide ReadEnvelope, ReceiveData, ReceiveParity, Generations.Valid;
    ShardExactly(d);
    if !IsShard(d) {
      var ok := accepts(d);
      return Received(slots, ok, if ok then [Publication(d, false)] else []);
    }
    var e, payload := ReadEnvelope(d), d[ENVELOPE_SIZE..];
    if !HeaderOk(e) {
      return Received(slots, false, []);
    }
    var s;
    if e.parityCount == 0 {
      if !DataOk(e, payload) {
        return Received(slots, false, []);
      }
      SlotUsable(slots, e.genId, e.k, now);
      var g := TakeSlot(slots, e.genId, e.k, now);
      s := DataArrives(g, e, payload, now, accepts);
    } else {
      if !ParityOk(e, payload) {
        return Received(slots, false, []);
      }
      SlotUsable(slots, e.genId, e.k, now);
      var g := TakeSlot(slots, e.genId, e.k, now);
      s := ParityArrives(g, e, payload, now, accepts);
    }
    r := Received(slots[e.genId % |slots| := s.gen], s.ok, s.published);
  }

  method DataArrives(g: Generation, e: Envelope, payload: Frame, now: nat, accepts: Frame -> bool) returns (s: Step)
    requires Usable(g) && e.index < e.k <= MAX_GENERATION && 1 <= |payload| <= MAX_FRAME
    ensures s == ReceiveData(g, e, payload, now, accepts)
  {
    hide TryRecover, ProtectedFrame, Parities, Ensure;
    if e.k < g.k || (!g.parityReceived && e.k != g.k) {
      return Step(g, false, []);
    }
    EnsureValid(g, e.k);
    var g1 := Ensure(g, e.k);
    if e.index >= g1.k {
      return Step(g1, false, []);
    }
    g1 := Touched(g1, now);
    if !accepts(payload) {
      return Step(g1, false, []);
    }
    var block := ProtectedFrame(payload, |payload|);
    WithDataValid(g1, e.index, block);
    s := Recover(WithData(g1, e.index, block), accepts);
    s := s.(published := [Publication(payload, false)] + s.published);
  }

  method ParityArrives(g: Generation, e: Envelope, payload: Vector, now: nat, accepts: Frame -> bool) returns (s: Step)
    requires Usable(g) && e.k <= e.index < e.k + e.parityCount && 1 <= e.parityCount <= MAX_PARITY
    requires 1 <= e.k <= MAX_GENERATION && 2 <= |payload| <= MAX_FRAME + 2 && e.closeReason <= 2
    ensures s == ReceiveParity(g, e, payload, now, accepts)
  {
    hide TryRecover, Generations.Valid, Closed, Ensure, Conflicting, OtherWidth, Usable;
    var conflict := ConflictLoop(g, e);
    if conflict {
      return Step(g, false, []);
    }
    UsableShape(g);
    ClosedValid(g, e, now);
    ClosedFields(g, e, now);
    var c := Closed(g, e, now);
    var other := WidthLoop(c, |payload|);
    if other {
      return Step(c, false, []);
    }
    WithParityValid(c, e.index - e.k, payload);
    s := Recover(WithParity(c, e.index - e.k, payload), accepts);
  }

  method ConflictLoop(g: Generation, e: Envelope) returns (conflict: bool)
    ensures conflict <==> Conflicting(g, e)
  {
    if g.parityReceived && (g.k != e.k || g.parityCount != e.parityCount || g.closeReason != e.closeReason) {
      return true;
    }
    if e.k > g.k {
      return true;
    }
    var i := e.k;
    while i < |g.received|
      invariant e.k <= i && forall j | e.k <= j < i && j < |g.received| :: !g.received[j]
    {
      if g.received[i] {
        return true;
      }
      i := i + 1;
    }
    return false;
  }

  method WidthLoop(g: Generation, width: nat) returns (other: bool)
    ensures other <==> OtherWidth(g, width)
  {
    for i := 0 to |g.parities|
      invariant forall j | 0 <= j < i && g.parities[j] != [] :: |g.parities[j]| == width
    {
      if g.parities[i] != [] && |g.parities[i]| != width {
        return true;
      }
    }
    return false;
  }
}
