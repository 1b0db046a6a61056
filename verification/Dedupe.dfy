/** Duplicate suppression: the reference over an unbounded set, and what every run of it keeps. */
module Dedupe {
  datatype Verdict = Accept | Duplicate | TooOld | Advanced

  datatype Counters = Counters(accepted: nat, duplicates: nat, tooOld: nat, lost: nat, slides: nat, depth: nat, jump: nat)

  // The numbers accepted so far and the moving base of the window.
  datatype Memory = Memory(started: bool, base: nat, accepted: set<nat>, counters: Counters)

  const START: Memory := Memory(false, 0, {}, Counters(0, 0, 0, 0, 0, 0, 0))

  function Max(a: nat, b: nat): nat { if a > b then a else b }

  // The accepted numbers from `lo` on.
  function From(accepted: set<nat>, lo: nat): set<nat> { set x | x in accepted && x >= lo }

  // The first number from `b` on that was not accepted.
  function FirstGap(accepted: set<nat>, b: nat): (g: nat)
    ensures g >= b && g !in accepted && forall x | b <= x < g :: x in accepted
    decreases |From(accepted, b)|
  {
    if b !in accepted then b
    else
      FromShrinks(accepted, b);
      FirstGap(accepted, b + 1)
  }

  lemma FromShrinks(accepted: set<nat>, b: nat)
    requires b in accepted
    ensures |From(accepted, b + 1)| < |From(accepted, b)|
  {
    assert From(accepted, b) == From(accepted, b + 1) + {b};
  }

  // How many numbers in [lo, hi) were not accepted.
  function Missing(accepted: set<nat>, lo: nat, hi: nat): nat
    decreases hi - lo
  {
    if lo >= hi then 0 else (if lo in accepted then 0 else 1) + Missing(accepted, lo + 1, hi)
  }

  function Slid(m: Memory, size: nat, x: nat): Memory
    requires size > 0 && x >= m.base + size
  {
    m.(base := x - size + 1,
       counters := m.counters.(lost := m.counters.lost + Missing(m.accepted, m.base, x - size + 1),
                               slides := m.counters.slides + 1))
  }

  function Observe(m0: Memory, size: nat, x: nat): (r: (Memory, Verdict))
    requires size > 0
  {
    var m1 := if m0.started then m0 else m0.(started := true, base := x);
    if x < m1.base then (m1.(counters := m1.counters.(tooOld := m1.counters.tooOld + 1)), TooOld)
    else
      var m2 := m1.(counters := m1.counters.(jump := Max(m1.counters.jump, x - m1.base)));
      var slides := x >= m2.base + size;
      var m3 := if slides then Slid(m2, size, x) else m2;
      Recorded(m3, x, if slides then Advanced else Accept)
  }

  // A number inside the window is recorded unless it was accepted before.
  function Recorded(m3: Memory, x: nat, v: Verdict): (r: (Memory, Verdict))
    requires x >= m3.base
  {
    var m4 := m3.(counters := m3.counters.(depth := Max(m3.counters.depth, x - m3.base)));
    if x in m4.accepted then (m4.(counters := m4.counters.(duplicates := m4.counters.duplicates + 1)), Duplicate)
    else
      var accepted := m4.accepted + {x};
      (m4.(accepted := accepted, base := FirstGap(accepted, m4.base),
           counters := m4.counters.(accepted := m4.counters.accepted + 1)), v)
  }

  predicate Accepts(v: Verdict) { v == Accept || v == Advanced }

  // ---- runs ----

  ghost function Run(size: nat, xs: seq<nat>): (r: (Memory, seq<Verdict>))
    requires size > 0
    ensures |r.1| == |xs|
  {
    if |xs| == 0 then (START, []) else
      var n := |xs| - 1;
      var (m, vs) := Run(size, xs[..n]);
      var (m', v) := Observe(m, size, xs[n]);
      (m', vs + [v])
  }

  // What holds after every run.
  ghost predicate Inv(m: Memory, size: nat, xs: seq<nat>) {
    && (m.started <==> |xs| > 0)
    && (!m.started ==> m == START)
    && (m.started ==> m.base !in m.accepted && Window(m, size, xs[0], xs))
    && |m.accepted| == m.counters.accepted
    && m.counters.accepted + m.counters.duplicates + m.counters.tooOld == |xs|
  }

  // The window since the first number observed: accepted numbers lie inside it, every number given
  // up below the base has an observed number a full window above it, and is counted as lost.
  ghost predicate Window(m: Memory, size: nat, first: nat, xs: seq<nat>) {
    && m.started && first <= m.base
    && (forall x | x in m.accepted :: first <= x < m.base + size)
    && (forall x | first <= x < m.base && x !in m.accepted :: FarAbove(xs, x, size))
    && (forall i | 0 <= i < |xs| :: xs[i] < m.base + size)
    && m.counters.lost == Missing(m.accepted, first, m.base)
  }

  ghost predicate FarAbove(xs: seq<nat>, x: nat, size: nat) {
    exists i :: 0 <= i < |xs| && xs[i] >= x + size
  }

  // ---- counting missing numbers ----

  lemma {:induction false} MissingSplit(a: set<nat>, lo: nat, mid: nat, hi: nat)
    requires lo <= mid <= hi
    ensures Missing(a, lo, hi) == Missing(a, lo, mid) + Missing(a, mid, hi)
    decreases mid - lo
  {
    if lo < mid { MissingSplit(a, lo + 1, mid, hi); }
  }

  lemma {:induction false} MissingAbove(a: set<nat>, lo: nat, hi: nat, x: nat)
    requires x >= hi
    ensures Missing(a + {x}, lo, hi) == Missing(a, lo, hi)
    decreases hi - lo
  {
    if lo < hi { MissingAbove(a, lo + 1, hi, x); }
  }

  lemma {:induction false} MissingNone(a: set<nat>, lo: nat, hi: nat)
    requires forall x | lo <= x < hi :: x in a
    ensures Missing(a, lo, hi) == 0
    decreases hi - lo
  {
    if lo < hi { MissingNone(a, lo + 1, hi); }
  }

  ghost function Within(a: set<nat>, lo: nat, hi: nat): set<nat> { set x | x in a && lo <= x < hi }

  lemma {:induction false} MissingCount(a: set<nat>, lo: nat, hi: nat)
    requires lo <= hi
    ensures hi - lo == |Within(a, lo, hi)| + Missing(a, lo, hi)
    decreases hi - lo
  {
    if lo < hi {
      MissingCount(a, lo + 1, hi);
      if lo in a {
        assert Within(a, lo, hi) == Within(a, lo + 1, hi) + {lo};
      } else {
        assert Within(a, lo, hi) == Within(a, lo + 1, hi);
      }
    } else {
      assert Within(a, lo, hi) == {};
    }
  }

  // ---- the invariant of every run ----

  lemma FarAboveMore(xs: seq<nat>, y: nat, x: nat, size: nat)
    ensures FarAbove(xs, x, size) ==> FarAbove(xs + [y], x, size)
    ensures y >= x + size ==> FarAbove(xs + [y], x, size)
  {
    if FarAbove(xs, x, size) {
      var i :| 0 <= i < |xs| && xs[i] >= x + size;
      assert (xs + [y])[i] == xs[i];
    }
    assert (xs + [y])[|xs|] == y;
  }

  lemma SlideKeeps(m: Memory, size: nat, first: nat, xs: seq<nat>, x: nat)
    requires Window(m, size, first, xs) && size > 0 && x >= m.base + size
    ensures Window(Slid(m, size, x), size, first, xs + [x])
  {
    hide FarAbove;
    var base := x - size + 1;
    MissingSplit(m.accepted, first, m.base, base);
    forall y | first <= y < base && y !in m.accepted ensures FarAbove(xs + [x], y, size) {
      FarAboveMore(xs, x, y, size);
    }
  }

  lemma AcceptKeeps(m: Memory, size: nat, first: nat, xs: seq<nat>, x: nat)
    requires Window(m, size, first, xs) && m.base <= x < m.base + size && x !in m.accepted
    ensures var a := m.accepted + {x};
            Window(m.(accepted := a, base := FirstGap(a, m.base)), size, first, xs)
  {
    hide FarAbove;
    var a := m.accepted + {x};
    var gap := FirstGap(a, m.base);
    MissingSplit(a, first, m.base, gap);
    MissingNone(a, m.base, gap);
    MissingAbove(m.accepted, first, m.base, x);
  }

  lemma WindowMore(m: Memory, size: nat, first: nat, xs: seq<nat>, x: nat)
    requires Window(m, size, first, xs) && x < m.base + size
    ensures Window(m, size, first, xs + [x])
  {
    hide FarAbove;
    forall y | first <= y < m.base && y !in m.accepted ensures FarAbove(xs + [x], y, size) {
      FarAboveMore(xs, x, y, size);
    }
  }

  lemma WindowCounters(m: Memory, c: Counters, size: nat, first: nat, xs: seq<nat>)
    requires Window(m, size, first, xs) && c.lost == m.counters.lost
    ensures Window(m.(counters := c), size, first, xs)
  {
    hide FarAbove;
  }

  lemma ObserveKeepsWindow(m0: Memory, size: nat, xs: seq<nat>, x: nat)
    requires Inv(m0, size, xs) && size > 0
    ensures Window(Observe(m0, size, x).0, size, (xs + [x])[0], xs + [x])
  {
    hide FarAbove, FirstGap, Missing, Inv;
    var first := (xs + [x])[0];
    var m1 := if m0.started then m0 else m0.(started := true, base := x);
    StartWindow(m0, size, xs, x);
    if x >= m1.base {
      var m2 := m1.(counters := m1.counters.(jump := Max(m1.counters.jump, x - m1.base)));
      WindowCounters(m1, m2.counters, size, first, xs);
      var m3 := if x >= m2.base + size then Slid(m2, size, x) else m2;
      if x >= m2.base + size {
        SlideKeeps(m2, size, first, xs, x);
      } else {
        WindowMore(m2, size, first, xs, x);
      }
      var m4 := m3.(counters := m3.counters.(depth := Max(m3.counters.depth, x - m3.base)));
      WindowCounters(m3, m4.counters, size, first, xs + [x]);
      hide Window;
      if x in m4.accepted {
        WindowCounters(m4, m4.counters.(duplicates := m4.counters.duplicates + 1), size, first, xs + [x]);
      } else {
        AcceptKeeps(m4, size, first, xs + [x], x);
        var a := m4.accepted + {x};
        WindowCounters(m4.(accepted := a, base := FirstGap(a, m4.base)), m4.counters.(accepted := m4.counters.accepted + 1), size, first, xs + [x]);
      }
    } else {
      WindowMore(m1, size, first, xs, x);
      WindowCounters(m1, m1.counters.(tooOld := m1.counters.tooOld + 1), size, first, xs + [x]);
    }
  }

  lemma StartWindow(m0: Memory, size: nat, xs: seq<nat>, x: nat)
    requires Inv(m0, size, xs) && size > 0
    ensures Window(if m0.started then m0 else m0.(started := true, base := x), size, (xs + [x])[0], xs)
    ensures !m0.started ==> xs == [] && m0 == START
  {
    hide FarAbove;
  }

  // The base is never an accepted number once a number was observed.
  lemma ObserveBase(m0: Memory, size: nat, xs: seq<nat>, x: nat)
    requires Inv(m0, size, xs) && size > 0
    ensures var m := Observe(m0, size, x).0; m.started && m.base !in m.accepted
  {
    hide FarAbove, FirstGap, Missing;
  }

  // Every call is counted once.
  lemma ObserveCounts(m: Memory, size: nat, x: nat)
    requires size > 0 && |m.accepted| == m.counters.accepted
    ensures var c, c' := m.counters, Observe(m, size, x).0.counters;
            && |Observe(m, size, x).0.accepted| == c'.accepted
            && c'.accepted + c'.duplicates + c'.tooOld == c.accepted + c.duplicates + c.tooOld + 1
  {
    hide FirstGap, Missing;
  }

  lemma ObserveKeepsInv(m: Memory, size: nat, xs: seq<nat>, x: nat)
    requires Inv(m, size, xs) && size > 0
    ensures Inv(Observe(m, size, x).0, size, xs + [x])
  {
    hide Window, Observe;
    ObserveKeepsWindow(m, size, xs, x);
    ObserveBase(m, size, xs, x);
    ObserveCounts(m, size, x);
  }

  lemma {:induction false} RunInv(size: nat, xs: seq<nat>)
    requires size > 0
    ensures Inv(Run(size, xs).0, size, xs)
  {
    hide Inv, Observe;
    if |xs| == 0 {
      StartInv(size);
    } else {
      var n := |xs| - 1;
      RunInv(size, xs[..n]);
      ObserveKeepsInv(Run(size, xs[..n]).0, size, xs[..n], xs[n]);
      assert xs == xs[..n] + [xs[n]];
    }
  }

  lemma StartInv(size: nat)
    ensures Inv(START, size, [])
  {}

  // ---- what a run guarantees ----

  // The numbers whose verdict was an acceptance.
  ghost function AcceptedIn(xs: seq<nat>, vs: seq<Verdict>): set<nat>
    requires |xs| == |vs|
  {
    set i | 0 <= i < |xs| && Accepts(vs[i]) :: xs[i]
  }

  lemma ObserveAccepted(m: Memory, size: nat, x: nat)
    requires size > 0
    ensures var (m', v) := Observe(m, size, x);
            if Accepts(v) then x !in m.accepted && m'.accepted == m.accepted + {x} else m'.accepted == m.accepted
  {
    hide FirstGap, Missing;
  }

  lemma {:induction false} RunAccepted(size: nat, xs: seq<nat>)
    requires size > 0
    ensures Run(size, xs).0.accepted == AcceptedIn(xs, Run(size, xs).1)
  {
    hide Observe;
    if |xs| > 0 {
      var n := |xs| - 1;
      var (m, vs) := Run(size, xs[..n]);
      RunAccepted(size, xs[..n]);
      ObserveAccepted(m, size, xs[n]);
      AcceptedSnoc(xs[..n], vs, xs[n], Observe(m, size, xs[n]).1);
      assert xs == xs[..n] + [xs[n]];
    }
  }

  lemma AcceptedSnoc(xs: seq<nat>, vs: seq<Verdict>, x: nat, v: Verdict)
    requires |xs| == |vs|
    ensures AcceptedIn(xs + [x], vs + [v]) == AcceptedIn(xs, vs) + (if Accepts(v) then {x} else {})
  {
    var ys, ws := xs + [x], vs + [v];
    forall y | y in AcceptedIn(xs, vs) ensures y in AcceptedIn(ys, ws) {
      var i :| 0 <= i < |xs| && Accepts(vs[i]) && xs[i] == y;
      assert ys[i] == y && ws[i] == vs[i];
    }
    if Accepts(v) {
      assert ys[|xs|] == x && ws[|xs|] == v;
    }
  }

  lemma {:induction false} RunPrefix(size: nat, xs: seq<nat>, n: nat)
    requires size > 0 && n <= |xs|
    ensures Run(size, xs[..n]).1 == Run(size, xs).1[..n]
  {
    hide Observe;
    if n < |xs| {
      var k := |xs| - 1;
      assert xs[..k][..n] == xs[..n];
      RunPrefix(size, xs[..k], n);
    } else {
      assert xs[..n] == xs;
    }
  }

  // No number is accepted twice in any run.
  lemma AcceptedOnce(size: nat, xs: seq<nat>, i: nat, j: nat)
    requires size > 0 && i < j < |xs|
    requires Accepts(Run(size, xs).1[i]) && Accepts(Run(size, xs).1[j])
    ensures xs[i] != xs[j]
  {
    hide Observe;
    RunPrefix(size, xs, j);
    RunPrefix(size, xs, j + 1);
    RunAccepted(size, xs[..j]);
    var m := Run(size, xs[..j]).0;
    ObserveAccepted(m, size, xs[j]);
    assert xs[..j + 1][..j] == xs[..j];
    assert xs[..j][i] == xs[i] && Run(size, xs[..j]).1[i] == Run(size, xs).1[i];
    assert xs[i] in AcceptedIn(xs[..j], Run(size, xs[..j]).1);
  }

  // Exact accounting: every number between the first observed and the base was accepted or is
  // counted as lost, and every call is counted once.
  lemma Accounting(size: nat, xs: seq<nat>)
    requires size > 0 && |xs| > 0
    ensures var m := Run(size, xs).0;
            && m.base >= xs[0]
            && m.base - xs[0] == |Within(m.accepted, xs[0], m.base)| + m.counters.lost
            && m.counters.accepted == |m.accepted|
            && m.counters.accepted + m.counters.duplicates + m.counters.tooOld == |xs|
  {
    hide Run, FarAbove;
    RunInv(size, xs);
    var m := Run(size, xs).0;
    MissingCount(m.accepted, xs[0], m.base);
  }

  // A number not yet accepted is refused exactly when it precedes the first number observed or
  // some observed number is at least a full window above it.
  lemma RefusedExactly(size: nat, xs: seq<nat>, x: nat)
    requires size > 0 && |xs| > 0 && x !in AcceptedIn(xs, Run(size, xs).1)
    ensures var v := Observe(Run(size, xs).0, size, x).1;
            && (v == TooOld <==> x < xs[0] || FarAbove(xs, x, size))
            && (v != TooOld ==> Accepts(v))
  {
    hide Run, AcceptedIn, FirstGap, Missing;
    RunInv(size, xs);
    RunAccepted(size, xs);
  }

  // A number already accepted is answered as a duplicate inside the window, as too old below it.
  lemma RepeatsRefused(size: nat, xs: seq<nat>, x: nat)
    requires size > 0 && x in AcceptedIn(xs, Run(size, xs).1)
    ensures var (m, v) := (Run(size, xs).0, Observe(Run(size, xs).0, size, x).1);
            v == if x < m.base then TooOld else Duplicate
  {
    hide Run, AcceptedIn, FirstGap, Missing, FarAbove;
    RunInv(size, xs);
    RunAccepted(size, xs);
  }

  // What became of the n-th number shown.
  lemma EveryFate(size: nat, xs: seq<nat>, n: nat)
    requires size > 0 && n < |xs|
    ensures xs[n] in AcceptedIn(xs, Run(size, xs).1) || xs[n] < xs[0] || FarAbove(xs[..n], xs[n], size)
  {
    hide Observe, FarAbove;
    var (m, vs) := Run(size, xs[..n]);
    RunPrefix(size, xs, n);
    RunPrefix(size, xs, n + 1);
    assert xs[..n + 1][..n] == xs[..n];
    var v := Observe(m, size, xs[n]).1;
    assert Run(size, xs).1[n] == v;
    if n == 0 {
      FirstAccepted(size, xs[0]);
    } else if xs[n] in AcceptedIn(xs[..n], vs) {
      var i :| 0 <= i < n && Accepts(vs[i]) && xs[..n][i] == xs[n];
      assert Run(size, xs).1[i] == vs[i] && xs[i] == xs[n];
    } else {
      RefusedExactly(size, xs[..n], xs[n]);
    }
  }

  lemma FirstAccepted(size: nat, x: nat)
    requires size > 0
    ensures Accepts(Observe(START, size, x).1)
  {}

  // ---- the reference without a window ----

  // After `xs`, the number precedes the first one or trails some number by a full window.
  ghost predicate Late(xs: seq<nat>, x: nat, size: nat) { |xs| > 0 && (x < xs[0] || FarAbove(xs, x, size)) }

  // The numbers let through: each one that is neither a repeat of one let through nor late.
  ghost function Kept(size: nat, xs: seq<nat>): (k: set<nat>) {
    if |xs| == 0 then {} else
      var n := |xs| - 1;
      var k := Kept(size, xs[..n]);
      if xs[n] in k || Late(xs[..n], xs[n], size) then k else k + {xs[n]}
  }

  lemma KeptSnoc(size: nat, xs: seq<nat>, x: nat)
    ensures Kept(size, xs + [x]) == if x in Kept(size, xs) || Late(xs, x, size) then Kept(size, xs) else Kept(size, xs) + {x}
  {
    hide Late;
    assert (xs + [x])[..|xs|] == xs;
  }

  // The window lets through exactly these numbers, in every run.
  lemma {:induction false} KeptExactly(size: nat, xs: seq<nat>)
    requires size > 0
    ensures Run(size, xs).0.accepted == Kept(size, xs)
  {
    hide Observe, Late;
    if |xs| > 0 {
      var n := |xs| - 1;
      KeptExactly(size, xs[..n]);
      VerdictExactly(size, xs[..n], xs[n]);
      ObserveAccepted(Run(size, xs[..n]).0, size, xs[n]);
    }
  }

  // The verdict on a number after a run: too old, a duplicate, or let through.
  lemma VerdictExactly(size: nat, xs: seq<nat>, x: nat)
    requires size > 0 && Run(size, xs).0.accepted == Kept(size, xs)
    ensures Accepts(Observe(Run(size, xs).0, size, x).1) <==> x !in Kept(size, xs) && !Late(xs, x, size)
  {
    hide Run, Kept, Observe, FarAbove;
    RunAccepted(size, xs);
    if |xs| == 0 {
      StartRuns(size, xs);
      FirstAccepted(size, x);
      assert x !in START.accepted;
    } else if x in Kept(size, xs) {
      RepeatsRefused(size, xs, x);
    } else {
      RefusedExactly(size, xs, x);
    }
  }

  lemma StartRuns(size: nat, xs: seq<nat>)
    requires size > 0 && |xs| == 0
    ensures Run(size, xs).0 == START
  {}

  // ---- which acceptances advance the window ----

  // Accepting `x` gives up a number that could still have been accepted.
  ghost predicate GivesUp(size: nat, xs: seq<nat>, x: nat)
    requires size > 0
  {
    exists y: nat :: |xs| > 0 && xs[0] <= y && y + size <= x && y !in AcceptedIn(xs, Run(size, xs).1) && !FarAbove(xs, y, size)
  }

  // An accepted number is answered as an advance exactly when accepting it gives up a number.
  lemma AdvancedExactly(size: nat, xs: seq<nat>, x: nat)
    requires size > 0 && Accepts(Observe(Run(size, xs).0, size, x).1)
    ensures Observe(Run(size, xs).0, size, x).1 == Advanced <==> GivesUp(size, xs, x)
  {
    hide AcceptedIn, FirstGap, Missing, Run;
    RunInv(size, xs);
    RunAccepted(size, xs);
    var m := Run(size, xs).0;
    if |xs| > 0 {
      assert !FarAbove(xs, m.base, size);
      if x >= m.base + size {
        assert m.base !in AcceptedIn(xs, Run(size, xs).1) && xs[0] <= m.base;
      }
    }
  }

  // ---- what the other counters count ----

  function Advances(vs: seq<Verdict>): (n: nat) {
    if |vs| == 0 then 0 else Advances(vs[..|vs| - 1]) + (if vs[|vs| - 1] == Advanced then 1 else 0)
  }

  // The base a number met: its own value at the start.
  ghost function BaseMet(size: nat, xs: seq<nat>, i: nat): (b: nat)
    requires size > 0 && i < |xs|
  {
    if i == 0 then xs[0] else Run(size, xs[..i]).0.base
  }

  // How far above the base it met a number was, and how deep in the window it ended.
  ghost function JumpAt(size: nat, xs: seq<nat>, i: nat): (n: nat)
    requires size > 0 && i < |xs|
  {
    var b := BaseMet(size, xs, i);
    if xs[i] >= b then xs[i] - b else 0
  }

  ghost function DepthAt(size: nat, xs: seq<nat>, i: nat): (n: nat)
    requires size > 0 && i < |xs|
  {
    if JumpAt(size, xs, i) < size then JumpAt(size, xs, i) else size - 1
  }

  // One call: an advance is counted, and the two maxima see the number's distances.
  lemma ObserveDistances(size: nat, xs: seq<nat>, x: nat)
    requires size > 0
    ensures var (m, all) := (Run(size, xs).0, xs + [x]);
            var (m', v) := Observe(m, size, x);
            && m'.counters.slides == m.counters.slides + (if v == Advanced then 1 else 0)
            && m'.counters.jump == Max(m.counters.jump, JumpAt(size, all, |xs|))
            && m'.counters.depth == Max(m.counters.depth, DepthAt(size, all, |xs|))
  {
    hide Run, FirstGap, Missing, FarAbove;
    RunInv(size, xs);
    assert (xs + [x])[..|xs|] == xs;
  }

  lemma DistanceBefore(size: nat, xs: seq<nat>, i: nat)
    requires size > 0 && i < |xs| - 1
    ensures var prior := xs[..|xs| - 1];
            JumpAt(size, xs, i) == JumpAt(size, prior, i) && DepthAt(size, xs, i) == DepthAt(size, prior, i)
  {
    hide Run;
    assert xs[..|xs| - 1][..i] == xs[..i];
  }

  // `jump` and `depth` are the largest distances of the run.
  ghost predicate Largest(size: nat, xs: seq<nat>, jump: nat, depth: nat)
    requires size > 0
  {
    && (forall i | 0 <= i < |xs| :: JumpAt(size, xs, i) <= jump && DepthAt(size, xs, i) <= depth)
    && (if |xs| == 0 then jump == depth == 0
        else (exists i :: 0 <= i < |xs| && JumpAt(size, xs, i) == jump) && (exists i :: 0 <= i < |xs| && DepthAt(size, xs, i) == depth))
  }

  lemma LargestSnoc(size: nat, xs: seq<nat>, jump: nat, depth: nat)
    requires size > 0 && |xs| > 0 && Largest(size, xs[..|xs| - 1], jump, depth)
    ensures var n := |xs| - 1; Largest(size, xs, Max(jump, JumpAt(size, xs, n)), Max(depth, DepthAt(size, xs, n)))
  {
    hide JumpAt, DepthAt;
    var n := |xs| - 1;
    var prior := xs[..n];
    forall i | 0 <= i < n ensures JumpAt(size, xs, i) == JumpAt(size, prior, i) && DepthAt(size, xs, i) == DepthAt(size, prior, i) {
      DistanceBefore(size, xs, i);
    }
    if n > 0 {
      var i :| 0 <= i < n && JumpAt(size, prior, i) == jump;
      var j :| 0 <= j < n && DepthAt(size, prior, j) == depth;
      assert JumpAt(size, xs, i) == jump && DepthAt(size, xs, j) == depth;
    }
    assert JumpAt(size, xs, n) >= 0 && DepthAt(size, xs, n) >= 0;
  }

  // Over every run `slides` counts the advances, and `jump` and `depth` are the largest distance of a
  // number above the base it met and the deepest place it took in the window.
  lemma {:induction false} CountersExactly(size: nat, xs: seq<nat>)
    requires size > 0
    ensures var (m, vs) := Run(size, xs);
            m.counters.slides == Advances(vs) && Largest(size, xs, m.counters.jump, m.counters.depth)
  {
    hide Observe, Largest, JumpAt, DepthAt, Max;
    if |xs| == 0 {
      NothingLargest(size);
    } else {
      var n := |xs| - 1;
      CountersExactly(size, xs[..n]);
      var c := Run(size, xs[..n]).0.counters;
      ObserveDistances(size, xs[..n], xs[n]);
      assert xs[..n] + [xs[n]] == xs;
      LargestSnoc(size, xs, c.jump, c.depth);
    }
  }

  lemma NothingLargest(size: nat)
    requires size > 0
    ensures Largest(size, [], 0, 0)
  {}

  const LIMIT: nat := 0x1_0000_0000_0000_0000

  // Numbers below 2^64 minus two windows keep every 64-bit sum of the implementation in range.
  lemma {:induction false} NoWrap(size: nat, xs: seq<nat>)
    requires size > 0 && forall i | 0 <= i < |xs| :: xs[i] + 2 * size < LIMIT
    ensures Run(size, xs).0.base + size < LIMIT || |xs| == 0
  {
    RunInv(size, xs);
    hide Run, FarAbove, Missing;
    var m := Run(size, xs).0;
    if |xs| > 0 && m.base > xs[0] {
      RunAccepted(size, xs);
      if m.base - 1 in m.accepted {
        var i :| 0 <= i < |xs| && Accepts(Run(size, xs).1[i]) && xs[i] == m.base - 1;
        assert xs[i] + 2 * size < LIMIT;
      } else {
        assert FarAbove(xs, m.base - 1, size);
        FarBounded(xs, m.base - 1, size);
      }
    }
  }

  lemma FarBounded(xs: seq<nat>, x: nat, size: nat)
    requires FarAbove(xs, x, size) && forall i | 0 <= i < |xs| :: xs[i] + 2 * size < LIMIT
    ensures x + 3 * size < LIMIT
  {}
}
