/** Any n distinct shards of a generation of n frames rebuild all of them. */
module Recovery {
  import opened Bytes
  import opened Gf256
  import opened Elimination
  import opened Cauchy
  import opened Fec
  import opened Generations

  // A generation as the encoder closed it.
  datatype Sent = Sent(genId: nat, reason: nat, frames: seq<Frame>, k: nat, parity: nat)

  // The decoder knows the close reasons 0 (full), 1 (timeout) and 2 (flush).
  ghost predicate SentOk(t: Sent) { GenerationOk(t.genId, t.reason, t.frames, t.k, t.parity) && t.reason <= 2 }

  function N(t: Sent): nat { |t.frames| }

  function W(t: Sent): nat { MaxLength(t.frames) + 2 }

  // ---- the right-hand sides seen by an honest decoder ----

  function Pick(blocks: Matrix, indices: seq<nat>): (p: Matrix)
    requires forall i | 0 <= i < |indices| :: indices[i] < |blocks|
    ensures |p| == |indices|
  {
    seq(|indices|, i requires 0 <= i < |indices| => blocks[indices[i]])
  }

  // What the absent blocks below `m` contribute to byte `j` of a parity row.
  function AbsentSum(row: nat, received: seq<bool>, blocks: Matrix, m: nat, j: nat): byte
    requires row < MAX_PARITY && m <= |received| && m <= |blocks| && m <= MAX_GENERATION
    requires forall i | 0 <= i < |blocks| :: j < |blocks[i]|
  {
    var absent := Absent(received, m);
    Dot(CoefficientRow(row, absent), PickColumn(blocks, absent, j))
  }

  function PickColumn(blocks: Matrix, indices: seq<nat>, j: nat): (v: Vector)
    requires forall i | 0 <= i < |indices| :: indices[i] < |blocks|
    requires forall i | 0 <= i < |blocks| :: j < |blocks[i]|
    ensures |v| == |indices|
  {
    seq(|indices|, i requires 0 <= i < |indices| => blocks[indices[i]][j])
  }

  lemma CoefficientRowSnoc(row: nat, a: seq<nat>, c: nat)
    requires row < MAX_PARITY && c < MAX_GENERATION && forall i | 0 <= i < |a| :: a[i] < MAX_GENERATION
    ensures CoefficientRow(row, a + [c]) == CoefficientRow(row, a) + [Coefficient(row, c)]
  {
    hide Coefficient;
  }

  lemma PickColumnSnoc(blocks: Matrix, a: seq<nat>, c: nat, j: nat)
    requires c < |blocks| && forall i | 0 <= i < |a| :: a[i] < |blocks|
    requires forall i | 0 <= i < |blocks| :: j < |blocks[i]|
    ensures PickColumn(blocks, a + [c], j) == PickColumn(blocks, a, j) + [blocks[c][j]]
  {}

  lemma PickColumnIsColumn(blocks: Matrix, a: seq<nat>, j: nat)
    requires forall i | 0 <= i < |a| :: a[i] < |blocks|
    requires forall i | 0 <= i < |blocks| :: j < |blocks[i]|
    ensures PickColumn(blocks, a, j) == Column(Pick(blocks, a), j)
  {}

  lemma DotOne(c: byte, x: byte)
    ensures Dot([c], [x]) == Mul(c, x)
  {
    hide Mul, Xor;
    XorUnit(Mul(c, x));
  }

  lemma AbsentStep(received: seq<bool>, m: nat)
    requires 0 < m <= |received|
    ensures Absent(received, m) == if received[m - 1] then Absent(received, m - 1) else Absent(received, m - 1) + [m - 1]
  {}

  lemma AbsentSumUnfold(row: nat, received: seq<bool>, blocks: Matrix, m: nat, j: nat)
    requires row < MAX_PARITY && m <= |received| && m <= |blocks| && m <= MAX_GENERATION
    requires forall i | 0 <= i < |blocks| :: j < |blocks[i]|
    ensures AbsentSum(row, received, blocks, m, j)
         == Dot(CoefficientRow(row, Absent(received, m)), PickColumn(blocks, Absent(received, m), j))
  {
    hide Dot, CoefficientRow, PickColumn, Absent;
  }

  lemma AbsentSumStep(row: nat, received: seq<bool>, blocks: Matrix, m: nat, j: nat)
    requires row < MAX_PARITY && 0 < m <= |received| && m <= |blocks| && m <= MAX_GENERATION
    requires forall i | 0 <= i < |blocks| :: j < |blocks[i]|
    ensures AbsentSum(row, received, blocks, m, j) ==
      var prior := AbsentSum(row, received, blocks, m - 1, j);
      if received[m - 1] then prior else Xor(prior, Mul(Coefficient(row, m - 1), blocks[m - 1][j]))
  {
    hide *;
    AbsentSumUnfold(row, received, blocks, m, j);
    AbsentSumUnfold(row, received, blocks, m - 1, j);
    AbsentStep(received, m);
    if !received[m - 1] {
      var a := Absent(received, m - 1);
      var c, x := Coefficient(row, m - 1), blocks[m - 1][j];
      CoefficientRowSnoc(row, a, m - 1);
      PickColumnSnoc(blocks, a, m - 1, j);
      DotConcat(CoefficientRow(row, a), [c], PickColumn(blocks, a, j), [x]);
      DotOne(c, x);
    }
  }

  lemma AbsentSumNone(row: nat, received: seq<bool>, blocks: Matrix, j: nat)
    requires row < MAX_PARITY && forall i | 0 <= i < |blocks| :: j < |blocks[i]|
    ensures AbsentSum(row, received, blocks, 0, j) == 0
  {}

  // The received data below `m` agree with the blocks, up to padding.
  ghost predicate Agrees(g: Generation, blocks: Matrix, width: nat) {
    && |g.data| == |g.received|
    && forall i | 0 <= i < |g.received| && g.received[i] ::
         i < |blocks| && |g.data[i]| <= width && Pad(g.data[i], width) == blocks[i]
  }

  lemma {:induction false} RightSideInvariant(g: Generation, blocks: Matrix, width: nat, row: nat, m: nat, j: nat)
    requires Agrees(g, blocks, width) && Rectangular(blocks, width) && j < width
    requires m <= |g.received| && m <= |blocks| <= MAX_GENERATION
    requires row < |g.parities| == MAX_PARITY && |g.parities[row]| == width
    ensures Xor(Xor(RightSide(g, row, width, m)[j], g.parities[row][j]), AbsentSum(row, g.received, blocks, m, j))
         == ParitySum(row, blocks, m, width)[j]
  {
    hide Mul, Xor, Coefficient, AbsentSum, Absent;
    var p := g.parities[row][j];
    if m == 0 {
      AbsentSumNone(row, g.received, blocks, j);
      XorUnit(p);
      XorUnit(0);
    } else {
      RightSideInvariant(g, blocks, width, row, m - 1, j);
      AbsentSumStep(row, g.received, blocks, m, j);
      var t := Mul(Coefficient(row, m - 1), blocks[m - 1][j]);
      var v, a := RightSide(g, row, width, m - 1)[j], AbsentSum(row, g.received, blocks, m - 1, j);
      if g.received[m - 1] {
        MoveTerm(v, p, a, t);
      } else {
        XorAssoc(Xor(v, p), a, t);
      }
    }
  }

  // ((v + t) + p) + a = ((v + p) + a) + t
  lemma MoveTerm(v: byte, p: byte, a: byte, t: byte)
    ensures Xor(Xor(Xor(v, t), p), a) == Xor(Xor(Xor(v, p), a), t)
  {
    hide *;
    XorAssoc(v, t, p);
    XorComm(t, p);
    XorAssoc(v, p, t);
    XorAssoc(Xor(v, p), t, a);
    XorComm(t, a);
    XorAssoc(Xor(v, p), a, t);
  }

  // For an honest parity row the right-hand side is exactly the contribution of the absent blocks.
  lemma RightSideHonest(g: Generation, blocks: Matrix, width: nat, row: nat, j: nat)
    requires Agrees(g, blocks, width) && Rectangular(blocks, width) && j < width
    requires |blocks| <= |g.received| && |blocks| <= MAX_GENERATION
    requires row < |g.parities| == MAX_PARITY && |g.parities[row]| == width
    requires g.parities[row] == ParitySum(row, blocks, |blocks|, width)
    ensures RightSide(g, row, width, |blocks|)[j] == AbsentSum(row, g.received, blocks, |blocks|, j)
  {
    hide Mul, Xor, Coefficient, RightSide, AbsentSum, ParitySum;
    var n := |blocks|;
    RightSideInvariant(g, blocks, width, row, n, j);
    var v, p, a := RightSide(g, row, width, n)[j], g.parities[row][j], AbsentSum(row, g.received, blocks, n, j);
    XorComm(v, p);
    XorAssoc(p, v, a);
    XorComm(p, Xor(v, a));
    XorCancel(Xor(v, a), p);
    XorUnit(p);
    XorCancel(v, a);
  }

  lemma PickRectangular(blocks: Matrix, indices: seq<nat>, width: nat)
    requires Rectangular(blocks, width) && forall i | 0 <= i < |indices| :: indices[i] < |blocks|
    ensures Rectangular(Pick(blocks, indices), width)
  {}

  // What the elimination recovers are the blocks that were sent.
  lemma MissingBlocksHonest(g: Generation, blocks: Matrix, width: nat)
    requires Valid(g) && Solvable(g) && Agrees(g, blocks, width) && Rectangular(blocks, width)
    requires g.k == |blocks|
    requires forall i | 0 <= i < |g.parities| && g.parities[i] != [] :: g.parities[i] == ParitySum(i, blocks, g.k, width)
    ensures ShardWidth(g) == width && DataFits(g, width)
    ensures MissingBlocks(g) == Pick(blocks, Absent(g.received, g.k))
  {
    hide ParitySum, RightSide, Pick, Column, Dot, CoefficientRow, Recovered, Pad, Absent, Solves, Submatrix;
    var rows, absent := UsedRows(g), Absent(g.received, g.k);
    assert |g.parities[rows[0]]| == width;
    PickRectangular(blocks, absent, width);
    AbsentColumns(g);
    var sent, rhs := Pick(blocks, absent), RightSides(g);
    forall r, j | 0 <= r < |rows| && 0 <= j < width
      ensures Dot(CoefficientRow(rows[r], absent), Column(sent, j)) == rhs[r][j]
    {
      RightSideHonest(g, blocks, width, rows[r], j);
      PickColumnIsColumn(blocks, absent, j);
    }
    SolvesBySubmatrix(rows, absent, rhs, sent, width);
    RecoveredIsUniqueSolution(rows, absent, rhs, width, sent);
  }

  lemma SolvesBySubmatrix(rows: seq<nat>, cols: seq<nat>, rhs: Matrix, blocks: Matrix, width: nat)
    requires Rows(rows) && Columns(cols) && |rows| == |cols| == |rhs| == |blocks|
    requires Rectangular(rhs, width) && Rectangular(blocks, width)
    requires forall r, j | 0 <= r < |rows| && 0 <= j < width :: Dot(CoefficientRow(rows[r], cols), Column(blocks, j)) == rhs[r][j]
    ensures Solves(Submatrix(rows, cols), rhs, blocks, |rows|, width)
  {
    hide Dot, CoefficientRow, Column;
  }

  // ---- publishing the recovered blocks ----

  ghost function Publications(blocks: Matrix, r: nat): (ps: seq<Publication>)
    requires r <= |blocks| && forall i | 0 <= i < |blocks| :: LengthOkAny(blocks[i])
  {
    seq(|blocks| - r, i requires 0 <= i < |blocks| - r => Publication(FrameOf(blocks[r + i]), true))
  }

  // The generation `h` is `g` with the blocks from `r` on stored at their absent indices.
  ghost predicate Stored(g: Generation, h: Generation, absent: seq<nat>, blocks: Matrix, r: nat)
    requires r <= |absent| == |blocks| && |g.received| == |g.data|
    requires forall i | 0 <= i < |absent| :: absent[i] < |g.data|
  {
    && h == g.(recovered := true, received := h.received, data := h.data)
    && |h.received| == |h.data| == |g.data|
    && (forall i | 0 <= i < |g.data| :: h.received[i] <==> g.received[i] || i in absent[r..])
    && (forall i | 0 <= i < |g.data| && i !in absent[r..] :: h.data[i] == g.data[i])
    && (forall q | r <= q < |absent| :: h.data[absent[q]] == blocks[q])
  }

  lemma StoredStep(g: Generation, h: Generation, absent: seq<nat>, blocks: Matrix, r: nat)
    requires r < |absent| == |blocks| && |g.received| == |g.data|
    requires forall i, j | 0 <= i < j < |absent| :: absent[i] < absent[j]
    requires forall i | 0 <= i < |absent| :: absent[i] < |g.data|
    requires Stored(WithData(g, absent[r], blocks[r]), h, absent, blocks, r + 1)
    ensures Stored(g, h, absent, blocks, r)
  {
    assert absent[r..] == [absent[r]] + absent[r + 1..];
    assert absent[r] !in absent[r + 1..];
  }

  lemma PublicationsStep(blocks: Matrix, r: nat)
    requires r < |blocks| && forall i | 0 <= i < |blocks| :: LengthOkAny(blocks[i])
    ensures Publications(blocks, r) == [Publication(FrameOf(blocks[r]), true)] + Publications(blocks, r + 1)
  {
    hide LengthOkAny, FrameOf;
  }

  // With every frame accepted, all blocks from `r` on are published in order and stored.
  lemma {:induction false} PublishAll(g: Generation, absent: seq<nat>, blocks: Matrix, r: nat, accepts: Frame -> bool)
    requires r <= |absent| == |blocks| && |g.received| == |g.data|
    requires forall i, j | 0 <= i < j < |absent| :: absent[i] < absent[j]
    requires forall i | 0 <= i < |absent| :: absent[i] < |g.data|
    requires forall i | 0 <= i < |blocks| :: LengthOkAny(blocks[i]) && accepts(FrameOf(blocks[i]))
    ensures PublishFrom(g, absent, blocks, r, accepts).ok
    ensures Stored(g, PublishFrom(g, absent, blocks, r, accepts).gen, absent, blocks, r)
    ensures PublishFrom(g, absent, blocks, r, accepts).published == Publications(blocks, r)
    decreases |absent| - r
  {
    hide LengthOkAny, FrameOf, Publications;
    if r == |absent| {
      PublicationsEnd(blocks);
    } else {
      hide Stored;
      var g' := WithData(g, absent[r], blocks[r]);
      PublishAll(g', absent, blocks, r + 1, accepts);
      StoredStep(g, PublishFrom(g', absent, blocks, r + 1, accepts).gen, absent, blocks, r);
      PublicationsStep(blocks, r);
    }
  }

  lemma PublicationsEnd(blocks: Matrix)
    requires forall i | 0 <= i < |blocks| :: LengthOkAny(blocks[i])
    ensures Publications(blocks, |blocks|) == []
  {}

  // ---- the honest states of a generation ----

  ghost predicate AllReceived(g: Generation, t: Sent) {
    |t.frames| <= |g.received| && forall i | 0 <= i < |t.frames| :: g.received[i]
  }

  // Everything stored for the generation is what was sent.
  ghost predicate Honest(g: Generation, t: Sent)
    requires SentOk(t)
  {
    && Valid(g) && g.active && g.genId == t.genId
    && Agrees(g, Blocks(t.frames), W(t))
    && HonestClosure(g, t)
    && HonestParities(g.parities, t)
    && (g.recovered ==> AllReceived(g, t))
  }

  ghost predicate HonestClosure(g: Generation, t: Sent) {
    if g.parityReceived then g.k == N(t) && g.parityCount == t.parity && g.closeReason == t.reason else g.k == t.k
  }

  ghost predicate HonestParities(ps: seq<seq<byte>>, t: Sent)
    requires SentOk(t)
  {
    forall i | 0 <= i < |ps| && ps[i] != [] :: i < t.parity && ps[i] == Shard(i, t.frames)
  }

  lemma BlockReads(t: Sent, c: nat)
    requires SentOk(t) && c < N(t)
    ensures LengthOkAny(Blocks(t.frames)[c]) && FrameOf(Blocks(t.frames)[c]) == t.frames[c]
    ensures Pad(Blocks(t.frames)[c], W(t)) == Blocks(t.frames)[c]
    ensures Pad(ProtectedFrame(t.frames[c], |t.frames[c]|), W(t)) == Blocks(t.frames)[c]
  {
    var f, m := t.frames[c], MaxLength(t.frames);
    ProtectedFrameReads(f, m);
    assert Zeros(m - |f|) == Zeros(0) + Zeros(m - |f|);
  }

  ghost predicate Publishes(ps: seq<Publication>, f: Frame) {
    exists i :: 0 <= i < |ps| && ps[i].frame == f
  }

  ghost predicate AcceptsAll(accepts: Frame -> bool, t: Sent) {
    forall i | 0 <= i < N(t) :: accepts(t.frames[i])
  }

  // The frames with these indices, as recovery publishes them.
  ghost function Recoveries(t: Sent, indices: seq<nat>): (ps: seq<Publication>)
    requires forall i | 0 <= i < |indices| :: indices[i] < |t.frames|
  {
    seq(|indices|, i requires 0 <= i < |indices| => Publication(t.frames[indices[i]], true))
  }

  // What one attempt at recovery does to an honest generation: with enough parity rows it publishes
  // exactly the missing frames, in order and each once; otherwise nothing happens.
  ghost predicate RecoversExactly(g: Generation, s: Step, t: Sent)
    requires SentOk(t) && Honest(g, t)
  {
    if Solvable(g) then
      && s.ok && g.k == |t.frames| && s.published == Recoveries(t, Absent(g.received, g.k))
      && Honest(s.gen, t) && AllReceived(s.gen, t)
      && s.gen.parities == g.parities && s.gen.parityReceived && s.gen.firstNs == g.firstNs
    else s == Step(g, true, [])
  }

  // With enough parity rows, recovery publishes exactly the absent frames.
  lemma RecoverPublishes(g: Generation, t: Sent, accepts: Frame -> bool)
    requires SentOk(t) && Honest(g, t) && Solvable(g) && AcceptsAll(accepts, t)
    ensures var absent := Absent(g.received, g.k);
            var missing := Pick(Blocks(t.frames), absent);
            && g.k == N(t) && (forall i | 0 <= i < |missing| :: LengthOkAny(missing[i]) && FrameOf(missing[i]) == t.frames[absent[i]])
            && TryRecover(g, accepts) == PublishFrom(g, absent, missing, 0, accepts)
  {
    hide Shard, Parities, PublishFrom, MissingBlocks, Pad, LengthOkAny, FrameOf, Blocks, Absent, Held, ShardWidth, DataFits, Agrees, ParitySum;
    var absent := Absent(g.received, g.k);
    HonestShards(g, t);
    MissingBlocksHonest(g, Blocks(t.frames), W(t));
    var missing := Pick(Blocks(t.frames), absent);
    forall i | 0 <= i < |missing| ensures LengthOkAny(missing[i]) && FrameOf(missing[i]) == t.frames[absent[i]] {
      BlockReads(t, absent[i]);
    }
  }

  lemma StoredAgrees(g: Generation, h: Generation, t: Sent, absent: seq<nat>)
    requires SentOk(t) && Agrees(g, Blocks(t.frames), W(t))
    requires forall i | 0 <= i < |absent| :: absent[i] < |g.data| && absent[i] < |Blocks(t.frames)|
    requires Stored(g, h, absent, Pick(Blocks(t.frames), absent), 0)
    ensures Agrees(h, Blocks(t.frames), W(t))
  {
    hide Pad, Blocks, W;
    assert absent[0..] == absent;
    forall i | 0 <= i < |h.received| && h.received[i]
      ensures i < N(t) && |h.data[i]| <= W(t) && Pad(h.data[i], W(t)) == Blocks(t.frames)[i]
    {
      if i in absent {
        var q :| 0 <= q < |absent| && absent[q] == i;
        BlockShape(t, i);
        BlockReads(t, i);
      }
    }
  }

  lemma BlockShape(t: Sent, i: nat)
    requires SentOk(t) && i < N(t)
    ensures |Blocks(t.frames)[i]| == W(t)
  {}

  lemma PublicationsAre(blocks: Matrix, absent: seq<nat>, t: Sent)
    requires |blocks| == |absent| && forall i | 0 <= i < |absent| :: absent[i] < |t.frames|
    requires forall i | 0 <= i < |blocks| :: LengthOkAny(blocks[i]) && FrameOf(blocks[i]) == t.frames[absent[i]]
    ensures Publications(blocks, 0) == Recoveries(t, absent)
  {
    hide LengthOkAny, FrameOf;
  }

  lemma RecoverHonest(g: Generation, t: Sent, accepts: Frame -> bool)
    requires SentOk(t) && Honest(g, t) && Solvable(g) && AcceptsAll(accepts, t)
    ensures RecoversExactly(g, TryRecover(g, accepts), t)
  {
    hide Shard, Parities, PublishFrom, TryRecover, Pick, Pad, LengthOkAny, FrameOf, Blocks, Held, Agrees, HonestParities,
      Recoveries, Publications;
    var absent := Absent(g.received, g.k);
    RecoverPublishes(g, t, accepts);
    var missing := Pick(Blocks(t.frames), absent);
    PublishAll(g, absent, missing, 0, accepts);
    PublishedValid(g, absent, missing, accepts);
    StoredAgrees(g, TryRecover(g, accepts).gen, t, absent);
    assert absent[0..] == absent;
    PublicationsAre(missing, absent, t);
  }

  lemma HonestShards(g: Generation, t: Sent)
    requires SentOk(t) && Honest(g, t) && g.parityReceived
    ensures forall i | 0 <= i < |g.parities| && g.parities[i] != [] ::
              g.parities[i] == ParitySum(i, Blocks(t.frames), g.k, W(t))
    ensures Rectangular(Blocks(t.frames), W(t)) && |Blocks(t.frames)| == g.k
  {
    hide Blocks, ParitySum, Parities, Agrees;
  }

  lemma PublishedValid(g: Generation, absent: seq<nat>, blocks: Matrix, accepts: Frame -> bool)
    requires Valid(g) && |absent| == |blocks| && absent == Absent(g.received, g.k)
    requires forall i | 0 <= i < |blocks| :: LengthOkAny(blocks[i])
    ensures Valid(PublishFrom(g, absent, blocks, 0, accepts).gen)
  {
    hide Valid, PublishFrom, LengthOkAny;
    PublishKeepsValid(g, absent, blocks, 0, accepts);
  }

  lemma RecoverStep(g: Generation, t: Sent, accepts: Frame -> bool)
    requires SentOk(t) && Honest(g, t) && AcceptsAll(accepts, t)
    ensures RecoversExactly(g, TryRecover(g, accepts), t)
  {
    hide Honest, Solvable, Recoveries;
    HonestValid(g, t);
    if Solvable(g) {
      RecoverHonest(g, t, accepts);
    }
  }

  // ---- one honest shard ----

  // The slot is taken for the generation but holds nothing yet.
  ghost predicate Start(g: Generation, t: Sent, k: nat) {
    Fresh(g) && g.active && g.genId == t.genId && g.k == k
  }

  lemma DataStored(g: Generation, t: Sent, index: nat, now: nat)
    requires SentOk(t) && index < N(t) && (Start(g, t, t.k) || Honest(g, t))
    ensures Ensure(g, t.k).k >= N(t)
    ensures var block := ProtectedFrame(t.frames[index], |t.frames[index]|);
            var h := WithData(Touched(Ensure(g, t.k), now), index, block);
            Honest(h, t) && h.received[index]
  {
    hide Pad, Blocks, Shard, HonestParities, ProtectedFrame, Parities;
    BlockReads(t, index);
    UsableShape(g);
    EnsureValid(g, t.k);
    var h := Ensure(g, t.k);
    if Start(g, t, t.k) {
      NoParities(t);
    } else {
      assert h == g;
    }
    WithDataValid(Touched(h, now), index, ProtectedFrame(t.frames[index], |t.frames[index]|));
  }

  lemma NoParities(t: Sent)
    requires SentOk(t)
    ensures HonestParities([], t)
  {}

  // Frame `i` is marked as received; parity row `r` is held.
  ghost predicate Has(g: Generation, i: nat) { i < |g.received| && g.received[i] }

  ghost predicate HasRow(g: Generation, r: nat) { r < |g.parities| && g.parities[r] != [] }

  lemma EnsureKeeps(g: Generation, k: nat)
    requires |g.data| == |g.received|
    ensures var h := Ensure(g, k);
            && h.parities == g.parities && h.parityReceived == g.parityReceived && |g.received| <= |h.received|
            && h.recovered == g.recovered && h.firstNs == g.firstNs
            && (forall i | 0 <= i < |g.received| :: h.received[i] == g.received[i])
            && (forall i | |g.received| <= i < |h.received| :: !h.received[i])
  {}

  // The generation with data shard `index` stored, before recovery is tried.
  ghost function AfterData(g: Generation, t: Sent, index: nat, now: nat): (h: Generation)
    requires SentOk(t) && |g.data| == |g.received| && index < |t.frames| && index < |Ensure(g, t.k).data|
  {
    WithData(Touched(Ensure(g, t.k), now), index, ProtectedFrame(t.frames[index], |t.frames[index]|))
  }

  lemma DataHas(g: Generation, t: Sent, index: nat, now: nat)
    requires SentOk(t) && |g.data| == |g.received| && index < |t.frames| && index < |Ensure(g, t.k).data|
    ensures var h := AfterData(g, t, index, now);
            && (forall i: nat :: Has(h, i) <==> i == index || Has(g, i))
            && (forall r: nat :: HasRow(h, r) <==> HasRow(g, r))
            && h.parityReceived == g.parityReceived && h.recovered == g.recovered
            && h.firstNs == Touched(g, now).firstNs
  {
    hide Ensure, ProtectedFrame;
    EnsureKeeps(g, t.k);
  }

  // An honest data shard is published and stored; then recovery is tried.
  lemma DataStep(g: Generation, e: Envelope, t: Sent, now: nat, accepts: Frame -> bool)
    requires SentOk(t) && e.index < |t.frames| && e.k == t.k && AcceptsAll(accepts, t)
    requires Start(g, t, t.k) || Honest(g, t)
    ensures Usable(g) && |g.data| == |g.received| && e.index < |Ensure(g, t.k).data|
    ensures var h := AfterData(g, t, e.index, now);
            && Honest(h, t) && Valid(h)
            && var s := TryRecover(h, accepts);
               ReceiveData(g, e, t.frames[e.index], now, accepts) ==
               s.(published := [Publication(t.frames[e.index], false)] + s.published)
  {
    hide TryRecover, Honest, ProtectedFrame, Valid, Ensure;
    HonestUsable(g, t);
    UsableShape(g);
    EnsureValid(g, t.k);
    DataStored(g, t, e.index, now);
    HonestValid(AfterData(g, t, e.index, now), t);
  }

  lemma HonestValid(g: Generation, t: Sent)
    requires SentOk(t) && Honest(g, t)
    ensures Valid(g)
  {}

  lemma HonestUsable(g: Generation, t: Sent)
    requires SentOk(t) && (Fresh(g) || Honest(g, t))
    ensures Usable(g)
    ensures Honest(g, t) ==> g.k <= t.k && (g.parityReceived || g.k == t.k)
  {}

  // The parity closure of the sender, as every honest parity shard announces it.
  ghost predicate Announces(e: Envelope, t: Sent) {
    e.k == N(t) && e.parityCount == t.parity && e.closeReason == t.reason
  }

  lemma NoConflict(g: Generation, e: Envelope, t: Sent)
    requires SentOk(t) && Announces(e, t) && (Start(g, t, N(t)) || Honest(g, t))
    ensures !Conflicting(g, e)
  {
    hide Blocks, Pad;
  }

  // The generation with parity shard `row` stored, before recovery is tried.
  ghost function AfterParity(g: Generation, e: Envelope, t: Sent, row: nat, now: nat): (h: Generation)
    requires SentOk(t) && |g.data| == |g.received| && row < t.parity && row < |Closed(g, e, now).parities|
  {
    WithParity(Closed(g, e, now), row, Shard(row, t.frames))
  }

  lemma ParityStored(g: Generation, e: Envelope, t: Sent, row: nat, now: nat)
    requires SentOk(t) && Announces(e, t) && row < t.parity
    requires Start(g, t, N(t)) || Honest(g, t)
    ensures |g.data| == |g.received| && Valid(Closed(g, e, now)) && |Closed(g, e, now).parities| == MAX_PARITY
    ensures Honest(AfterParity(g, e, t, row, now), t)
  {
    hide Pad, Blocks, Shard, Closed, Ensure, Conflicting, Usable, Agrees;
    HonestUsable(g, t);
    UsableShape(g);
    NoConflict(g, e, t);
    ClosedValid(g, e, now);
    ClosedFields(g, e, now);
    ClosedHonest(g, e, t, now);
    var c := Closed(g, e, now);
    WithParityValid(c, row, Shard(row, t.frames));
    AgreesWithParity(c, row, Shard(row, t.frames), Blocks(t.frames), W(t));
  }

  lemma ParityHas(g: Generation, e: Envelope, t: Sent, row: nat, now: nat)
    requires SentOk(t) && |g.data| == |g.received| && row < t.parity && |Closed(g, e, now).parities| == MAX_PARITY
    ensures var h := AfterParity(g, e, t, row, now);
            && (forall i: nat :: Has(h, i) <==> Has(g, i))
            && (forall r: nat :: HasRow(h, r) <==> r == row || HasRow(g, r))
            && h.parityReceived && h.recovered == g.recovered && h.firstNs == Touched(g, now).firstNs
  {
    hide Ensure, Shard;
    EnsureKeeps(g, e.k);
  }

  lemma AgreesWithParity(g: Generation, row: nat, shard: Vector, blocks: Matrix, width: nat)
    requires Agrees(g, blocks, width) && row < |g.parities|
    ensures Agrees(WithParity(g, row, shard), blocks, width)
  {}

  lemma ClosedHonest(g: Generation, e: Envelope, t: Sent, now: nat)
    requires SentOk(t) && Announces(e, t) && (Start(g, t, N(t)) || Honest(g, t))
    ensures var c := Closed(g, e, now);
            && c.k == N(t) && Agrees(c, Blocks(t.frames), W(t)) && HonestParities(c.parities, t) && !OtherWidth(c, W(t))
            && c.genId == g.genId && c.recovered == g.recovered
            && forall i | 0 <= i < |g.received| :: c.received[i] == g.received[i]
  {
    hide Pad, Blocks, Shard;
  }

  // An honest parity shard is stored; then recovery is tried.
  lemma ParityStep(g: Generation, e: Envelope, t: Sent, row: nat, now: nat, accepts: Frame -> bool)
    requires SentOk(t) && Announces(e, t) && row < t.parity && e.index == N(t) + row && AcceptsAll(accepts, t)
    requires Start(g, t, N(t)) || Honest(g, t)
    ensures Usable(g) && |g.data| == |g.received| && |Closed(g, e, now).parities| == MAX_PARITY
    ensures var h := AfterParity(g, e, t, row, now);
            Honest(h, t) && Valid(h) && ReceiveParity(g, e, Shard(row, t.frames), now, accepts) == TryRecover(h, accepts)
  {
    hide TryRecover, Honest, Shard, Valid, Closed, Conflicting, Start, OtherWidth;
    StartUsable(g, t);
    NoConflict(g, e, t);
    ParityStored(g, e, t, row, now);
    ClosedSameWidth(g, e, t, now);
    HonestValid(AfterParity(g, e, t, row, now), t);
  }

  lemma StartUsable(g: Generation, t: Sent)
    requires SentOk(t) && (Start(g, t, N(t)) || Honest(g, t))
    ensures Usable(g) && |g.data| == |g.received|
  {}

  lemma ClosedSameWidth(g: Generation, e: Envelope, t: Sent, now: nat)
    requires SentOk(t) && Announces(e, t) && (Start(g, t, N(t)) || Honest(g, t))
    ensures |g.data| == |g.received| && !OtherWidth(Closed(g, e, now), W(t))
  {
    hide Closed, Honest, Start;
    StartUsable(g, t);
    ClosedHonest(g, e, t, now);
  }
}
