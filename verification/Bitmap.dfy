/** The circular bitmap behind duplicate suppression, proved to behave as the unbounded set. */
module Bitmap {
  import opened Dedupe

  // ---- 64-bit words ----

  datatype Word = Word(bits: bv64)

  const ZERO: Word := Word(0)

  function And(a: Word, b: Word): Word { Word(a.bits & b.bits) }

  function Or(a: Word, b: Word): Word { Word(a.bits | b.bits) }

  function AndNot(a: Word, b: Word): Word { Word(a.bits & !b.bits) }

  function Double(a: Word): Word { Word(a.bits << 1) }

  // One shifted left `k` times.
  function Mask(k: nat): Word {
    if k == 0 then Word(1) else Double(Mask(k - 1))
  }

  function Test(w: Word, k: nat): bool { And(w, Mask(k)) != ZERO }

  lemma ShiftAndBv(v: bv64, w: bv64)
    ensures (v << 1) & (w << 1) == (v & w) << 1
  {}

  lemma ShiftZeroBv(v: bv64)
    ensures v == 0 ==> v << 1 == 0
  {}

  lemma LowBitBv(v: bv64)
    ensures 1 & (v << 1) == 0
  {}

  lemma AndCommBv(v: bv64, w: bv64)
    ensures v & w == w & v
  {}

  lemma DoubleAnd(a: Word, b: Word)
    requires And(a, b) == ZERO
    ensures And(Double(a), Double(b)) == ZERO
  {
    ShiftAndBv(a.bits, b.bits);
    ShiftZeroBv(a.bits & b.bits);
  }

  lemma LowDouble(b: Word)
    ensures And(Word(1), Double(b)) == ZERO && And(Double(b), Word(1)) == ZERO
  {
    LowBitBv(b.bits);
    AndCommBv(1, b.bits << 1);
  }

  lemma {:induction false} MasksDisjoint(k: nat, j: nat)
    requires k != j
    ensures And(Mask(k), Mask(j)) == ZERO
  {
    hide And, Double;
    if k == 0 {
      LowDouble(Mask(j - 1));
    } else if j == 0 {
      LowDouble(Mask(k - 1));
    } else {
      MasksDisjoint(k - 1, j - 1);
      DoubleAnd(Mask(k - 1), Mask(j - 1));
    }
  }

  lemma TopMask()
    ensures Mask(63) != ZERO
  {
    assert Mask(8) == Word(0x100);
    assert Mask(16) == Word(0x1_0000);
    assert Mask(24) == Word(0x100_0000);
    assert Mask(32) == Word(0x1_0000_0000);
    assert Mask(40) == Word(0x100_0000_0000);
    assert Mask(48) == Word(0x1_0000_0000_0000);
    assert Mask(56) == Word(0x100_0000_0000_0000);
  }

  lemma {:induction false} MaskNonzero(k: nat)
    requires k <= 63
    ensures Mask(k) != ZERO
    decreases 63 - k
  {
    if k == 63 {
      TopMask();
    } else {
      MaskNonzero(k + 1);
      ShiftZeroBv(0);
    }
  }

  lemma SetSame(w: Word, m: Word)
    ensures And(Or(w, m), m) == m
  {}

  lemma SetOther(w: Word, m: Word, n: Word)
    requires And(m, n) == ZERO
    ensures And(Or(w, m), n) == And(w, n)
  {
    assert (w.bits | m.bits) & n.bits == (w.bits & n.bits) | (m.bits & n.bits);
  }

  lemma ClearSame(w: Word, m: Word)
    ensures And(AndNot(w, m), m) == ZERO
  {}

  lemma ClearOther(w: Word, m: Word, n: Word)
    requires And(m, n) == ZERO
    ensures And(AndNot(w, m), n) == And(w, n)
  {
    assert n.bits == (n.bits & !m.bits) | (m.bits & n.bits);
    assert (w.bits & !m.bits) & n.bits == w.bits & (n.bits & !m.bits);
  }

  lemma TestSet(w: Word, k: nat, j: nat)
    requires k < 64 && j < 64
    ensures Test(Or(w, Mask(k)), j) <==> j == k || Test(w, j)
  {
    hide And, Or, Mask;
    if j == k {
      SetSame(w, Mask(k));
      MaskNonzero(k);
    } else {
      MasksDisjoint(k, j);
      SetOther(w, Mask(k), Mask(j));
    }
  }

  lemma TestClear(w: Word, k: nat, j: nat)
    requires k < 64 && j < 64
    ensures Test(AndNot(w, Mask(k)), j) <==> j != k && Test(w, j)
  {
    hide And, AndNot, Mask;
    if j == k {
      ClearSame(w, Mask(k));
    } else {
      MasksDisjoint(k, j);
      ClearOther(w, Mask(k), Mask(j));
    }
  }

  lemma TestZero(k: nat)
    ensures !Test(ZERO, k)
  {}

  // ---- positions ----

  lemma ProductBound(size: nat, d: int)
    requires size > 0
    ensures d >= 1 ==> size * d >= size
    ensures d <= -1 ==> size * d + size <= 0
    ensures d == 0 ==> size * d == 0
  {}

  lemma DivisionUnique(a: nat, size: nat, q: int, r: nat)
    requires size > 0 && a == size * q + r && r < size
    ensures a % size == r && a / size == q
  {
    ProductBound(size, a / size - q);
  }

  // Numbers less than one window apart have different positions.
  lemma PositionsDistinct(a: nat, b: nat, size: nat)
    requires size > 0 && a < b < a + size
    ensures a % size != b % size
  {
    ProductBound(size, b / size - a / size);
  }

  lemma PositionWraps(a: nat, size: nat)
    requires size > 0
    ensures (a + size) % size == a % size
  {
    DivisionUnique(a + size, size, a / size + 1, a % size);
  }

  // Bit `p` of a bitmap of 64-bit words.
  ghost predicate BitAt(words: seq<Word>, p: nat)
    requires p < 64 * |words|
  {
    Test(words[p / 64], p % 64)
  }

  lemma SetBitAt(words: seq<Word>, p: nat, q: nat)
    requires p < 64 * |words| && q < 64 * |words|
    ensures BitAt(words[p / 64 := Or(words[p / 64], Mask(p % 64))], q) <==> q == p || BitAt(words, q)
  {
    hide Test, Or, Mask;
    TestSet(words[p / 64], p % 64, q % 64);
  }

  lemma ClearBitAt(words: seq<Word>, p: nat, q: nat)
    requires p < 64 * |words| && q < 64 * |words|
    ensures BitAt(words[p / 64 := AndNot(words[p / 64], Mask(p % 64))], q) <==> q != p && BitAt(words, q)
  {
    hide Test, AndNot, Mask;
    TestClear(words[p / 64], p % 64, q % 64);
  }

  // The bitmap shows exactly the accepted numbers of the window starting at `base`.
  ghost predicate Shows(words: seq<Word>, size: nat, base: nat, accepted: set<nat>)
    requires size == 64 * |words| && size > 0
  {
    forall x: nat | base <= x < base + size :: BitAt(words, x % size) <==> x in accepted
  }

  // Clearing the bit of the base moves the window up by one.
  lemma ShowsNext(words: seq<Word>, after: seq<Word>, size: nat, base: nat, accepted: set<nat>)
    requires size == 64 * |words| == 64 * |after| && size > 0 && Shows(words, size, base, accepted) && base + size !in accepted
    requires forall q | 0 <= q < size :: BitAt(after, q) <==> q != base % size && BitAt(words, q)
    ensures Shows(after, size, base + 1, accepted)
  {
    hide BitAt;
    forall x: nat | base + 1 <= x < base + 1 + size ensures BitAt(after, x % size) <==> x in accepted {
      if x == base + size {
        PositionWraps(base, size);
      } else {
        PositionsDistinct(base, x, size);
      }
    }
  }

  // Setting the bit of a number inside the window adds it.
  lemma ShowsAdded(words: seq<Word>, after: seq<Word>, size: nat, base: nat, accepted: set<nat>, x: nat)
    requires size == 64 * |words| == 64 * |after| && size > 0 && Shows(words, size, base, accepted) && base <= x < base + size
    requires forall q | 0 <= q < size :: BitAt(after, q) <==> q == x % size || BitAt(words, q)
    ensures Shows(after, size, base, accepted + {x})
  {
    hide BitAt;
    forall y: nat | base <= y < base + size ensures BitAt(after, y % size) <==> y in accepted + {x} {
      if y < x {
        PositionsDistinct(y, x, size);
      } else if x < y {
        PositionsDistinct(x, y, size);
      }
    }
  }

  class Window {
    const size: nat
    const bits: array<Word>
    var base: nat
    var initialized: bool
    var counters: Counters
    ghost var accepted: set<nat>

    ghost predicate Shape()
      reads this
    {
      size == 64 * bits.Length && size > 0
    }

    // The bitmap and the set tell the same story, and the set stays inside the window.
    ghost predicate Refines()
      reads this, bits
    {
      && Shape() && Shows(bits[..], size, base, accepted)
      && forall x | x in accepted :: x < base + size
    }

    ghost predicate Valid()
      reads this, bits
    {
      if initialized then Refines()
      else Shape() && base == 0 && accepted == {} && forall i | 0 <= i < bits.Length :: bits[i] == ZERO
    }

    ghost function Abstract(): Memory
      reads this
    {
      Memory(initialized, base, accepted, counters)
    }

    constructor (size: nat)
      requires size >= 64 && size % 64 == 0
      ensures Valid() && fresh(bits) && this.size == size && Abstract() == START
    {
      this.size := size;
      bits := new Word[size / 64](_ => ZERO);
      base, initialized, counters := 0, false, START.counters;
      accepted := {};
    }

    method TestBit(x: nat) returns (r: bool)
      requires Shape()
      ensures r == BitAt(bits[..], x % size)
    {
      var p := x % size;
      r := Test(bits[p / 64], p % 64);
    }

    method SetBit(x: nat)
      requires Shape()
      modifies bits
      ensures forall q | 0 <= q < size :: BitAt(bits[..], q) <==> q == x % size || old(BitAt(bits[..], q))
    {
      hide BitAt, Or, Mask;
      var p := x % size;
      forall q | 0 <= q < size ensures BitAt(bits[..][p / 64 := Or(bits[p / 64], Mask(p % 64))], q) <==> q == p || BitAt(bits[..], q) {
        SetBitAt(bits[..], p, q);
      }
      ghost var after := bits[..][p / 64 := Or(bits[p / 64], Mask(p % 64))];
      bits[p / 64] := Or(bits[p / 64], Mask(p % 64));
      assert bits[..] == after;
    }

    method ClearBit(x: nat)
      requires Shape()
      modifies bits
      ensures forall q | 0 <= q < size :: BitAt(bits[..], q) <==> q != x % size && old(BitAt(bits[..], q))
    {
      hide BitAt, AndNot, Mask;
      var p := x % size;
      forall q | 0 <= q < size ensures BitAt(bits[..][p / 64 := AndNot(bits[p / 64], Mask(p % 64))], q) <==> q != p && BitAt(bits[..], q) {
        ClearBitAt(bits[..], p, q);
      }
      ghost var after := bits[..][p / 64 := AndNot(bits[p / 64], Mask(p % 64))];
      bits[p / 64] := AndNot(bits[p / 64], Mask(p % 64));
      assert bits[..] == after;
    }

    method SlideTo(next: nat)
      requires Refines() && next >= base
      modifies this`base, this`counters, bits
      ensures Refines() && base == next
      ensures counters == old(counters).(lost := old(counters).lost + Missing(accepted, old(base), next))
    {
      hide BitAt, Shows;
      while base < next
        invariant Refines() && old(base) <= base <= next
        invariant counters == old(counters).(lost := old(counters).lost + Missing(accepted, old(base), base))
      {
        MissingSplit(accepted, old(base), base, base + 1);
        ShowsBase(bits[..], size, base, accepted);
        ghost var before := bits[..];
        var seen := TestBit(base);
        if !seen {
          counters := counters.(lost := counters.lost + 1);
        }
        ClearBit(base);
        ShowsNext(before, bits[..], size, base, accepted);
        base := base + 1;
      }
    }

    // Terminates because every round clears one of finitely many accepted numbers.
    method AdvanceContiguous()
      requires Refines()
      modifies this`base, bits
      ensures Refines() && base == FirstGap(accepted, old(base))
    {
      hide BitAt, Shows;
      ShowsBase(bits[..], size, base, accepted);
      var seen := TestBit(base);
      while seen
        invariant Refines() && base >= old(base)
        invariant seen <==> base in accepted
        invariant FirstGap(accepted, base) == FirstGap(accepted, old(base))
        decreases |From(accepted, base)|
      {
        FromShrinks(accepted, base);
        ghost var before := bits[..];
        ClearBit(base);
        ShowsNext(before, bits[..], size, base, accepted);
        base := base + 1;
        ShowsBase(bits[..], size, base, accepted);
        seen := TestBit(base);
      }
    }

    method Observe(x: nat) returns (v: Verdict)
      requires Valid()
      modifies this, bits
      ensures Valid() && initialized
      ensures (Abstract(), v) == Dedupe.Observe(old(Abstract()), size, x)
    {
      hide BitAt, Shows, Missing, FirstGap;
      if !initialized {
        EmptyShows(bits[..], size, x);
        initialized := true;
        base := x;
      }
      if x < base {
        counters := counters.(tooOld := counters.tooOld + 1);
        return TooOld;
      }
      counters := counters.(jump := Max(counters.jump, x - base));
      v := Accept;
      if x >= base + size {
        SlideTo(x - size + 1);
        counters := counters.(slides := counters.slides + 1);
        v := Advanced;
      }
      v := Record(x, v);
    }

    method Record(x: nat, v0: Verdict) returns (v: Verdict)
      requires initialized && Refines() && base <= x < base + size
      modifies this`base, this`counters, this`accepted, bits
      ensures Refines()
      ensures (Abstract(), v) == Recorded(old(Abstract()), x, v0)
    {
      hide BitAt, Shows, FirstGap;
      counters := counters.(depth := Max(counters.depth, x - base));
      ShowsOne(bits[..], size, base, accepted, x);
      var seen := TestBit(x);
      if seen {
        counters := counters.(duplicates := counters.duplicates + 1);
        return Duplicate;
      }
      ghost var before := bits[..];
      SetBit(x);
      ShowsAdded(before, bits[..], size, base, accepted, x);
      accepted := accepted + {x};
      counters := counters.(accepted := counters.accepted + 1);
      AdvanceContiguous();
      v := v0;
    }
  }

  lemma ShowsOne(words: seq<Word>, size: nat, base: nat, accepted: set<nat>, x: nat)
    requires size == 64 * |words| && size > 0 && Shows(words, size, base, accepted) && base <= x < base + size
    ensures BitAt(words, x % size) <==> x in accepted
  {}

  lemma ShowsBase(words: seq<Word>, size: nat, base: nat, accepted: set<nat>)
    requires size == 64 * |words| && size > 0 && Shows(words, size, base, accepted)
    ensures BitAt(words, base % size) <==> base in accepted
  {}

  lemma EmptyShows(words: seq<Word>, size: nat, base: nat)
    requires size == 64 * |words| && size > 0 && forall i | 0 <= i < |words| :: words[i] == ZERO
    ensures Shows(words, size, base, {})
  {
    hide Test;
    forall x: nat | base <= x < base + size ensures !BitAt(words, x % size) {
      TestZero(x % size % 64);
    }
  }
}
