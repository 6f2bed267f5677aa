/**
 The stacking problem solved by the jambotubo program, as pure definitions.

 A selection is a sequence of booleans over the items: `sel[i]` says that item
 `i` is in the jambotubo. Item 0 sits at the bottom and every selected item
 with a larger index is stacked on top of it, so the load of a selected item
 `j` (looking only at the items below `h`) is the summed weight of the
 selected items with index in `(j, h)`.
 */
module Stacking {

  /** `std::max`: the first argument unless it is smaller than the second. */
  function Max(a: int, b: int): int
  {
    if a < b then b else a
  }

  /** `std::min`: the first argument unless the second is smaller. */
  function Min(a: int, b: int): int
  {
    if b < a then b else a
  }

  predicate NonNegative(w: seq<int>)
  {
    forall i :: 0 <= i < |w| ==> 0 <= w[i]
  }

  /** Two selections make the same choices for the items below `h`. */
  predicate Agree(s1: seq<bool>, s2: seq<bool>, h: int)
    requires 0 <= h <= |s1| && h <= |s2|
  {
    forall m :: 0 <= m < h ==> s1[m] == s2[m]
  }

  /** Summed weight of the selected items with index in [lo, hi). */
  function SumSel(sel: seq<bool>, w: seq<int>, lo: int, hi: int): int
    requires 0 <= lo && hi <= |sel| && hi <= |w|
    decreases hi - lo
  {
    if hi <= lo then 0
    else SumSel(sel, w, lo, hi - 1) + (if sel[hi - 1] then w[hi - 1] else 0)
  }

  /** The weight resting on item `j` when only the items below `h` are considered. */
  function Load(sel: seq<bool>, w: seq<int>, j: int, h: int): int
    requires 0 <= j && h <= |sel| && h <= |w|
  {
    SumSel(sel, w, j + 1, h)
  }

  /** Some selected item below `h` carries more than its resistance. */
  predicate Breaks(sel: seq<bool>, w: seq<int>, r: seq<int>, h: int)
    requires 0 <= h <= |sel| && h <= |w| && h <= |r|
  {
    exists j :: 0 <= j < h && sel[j] && r[j] < Load(sel, w, j, h)
  }

  /** Number of selected items below `hi`. */
  function Count(sel: seq<bool>, hi: int): (c: int)
    requires 0 <= hi <= |sel|
    ensures 0 <= c <= hi
  {
    if hi == 0 then 0
    else Count(sel, hi - 1) + (if sel[hi - 1] then 1 else 0)
  }

  /**
   A complete selection is feasible when nothing breaks and, if `capacity` is
   set, its total weight is at most `R`.
   */
  predicate Feasible(sel: seq<bool>, w: seq<int>, r: seq<int>, R: int, capacity: bool)
    requires |sel| == |w| == |r|
  {
    (capacity ==> SumSel(sel, w, 0, |sel|) <= R) && !Breaks(sel, w, r, |sel|)
  }

  /**
   The largest count of a feasible selection that makes the same choices as
   `sel` below `i`, or -1 when there is none (BestIsUpperBound and
   BestIsAttained). The bound in the postcondition is the one the optimality
   pruning relies on: no completion selects more than the items already
   chosen plus all the items still to be decided.
   */
  function Best(sel: seq<bool>, i: int, w: seq<int>, r: seq<int>, R: int, capacity: bool): (b: int)
    requires |sel| == |w| == |r| && 0 <= i <= |sel|
    ensures -1 <= b <= Count(sel, i) + (|sel| - i)
    decreases |sel| - i
  {
    if i == |sel| then
      (if Feasible(sel, w, r, R, capacity) then Count(sel, |sel|) else -1)
    else
      CountAgree(sel[i := false], sel, i);
      CountAgree(sel[i := true], sel, i);
      Max(Best(sel[i := false], i + 1, w, r, R, capacity), Best(sel[i := true], i + 1, w, r, R, capacity))
  }

  /**
   The optimum of the instance: the largest count of a feasible selection, or
   -1 when there is none (only possible when `capacity` is set and `R` is negative).
   */
  function Optimum(w: seq<int>, r: seq<int>, R: int, capacity: bool): (o: int)
    requires |w| == |r|
    ensures -1 <= o <= |w|
  {
    Best(seq(|w|, _ => false), 0, w, r, R, capacity)
  }

  /** The count below `hi` depends only on the choices below `hi`. */
  lemma {:induction false} CountAgree(s1: seq<bool>, s2: seq<bool>, hi: int)
    requires 0 <= hi <= |s1| && hi <= |s2|
    requires Agree(s1, s2, hi)
    ensures Count(s1, hi) == Count(s2, hi)
  {
    if hi > 0 {
      CountAgree(s1, s2, hi - 1);
    }
  }

  /** Splitting a range splits its selected weight. */
  lemma {:induction false} SumSelSplit(sel: seq<bool>, w: seq<int>, lo: int, mid: int, hi: int)
    requires 0 <= lo <= mid <= hi <= |sel| && hi <= |w|
    ensures SumSel(sel, w, lo, hi) == SumSel(sel, w, lo, mid) + SumSel(sel, w, mid, hi)
    decreases hi
  {
    if mid < hi {
      SumSelSplit(sel, w, lo, mid, hi - 1);
    }
  }

  /** The selected weight of a range depends only on the choices below its end. */
  lemma {:induction false} SumSelAgree(s1: seq<bool>, s2: seq<bool>, w: seq<int>, lo: int, hi: int)
    requires 0 <= lo && 0 <= hi <= |s1| && hi <= |s2| && hi <= |w|
    requires Agree(s1, s2, hi)
    ensures SumSel(s1, w, lo, hi) == SumSel(s2, w, lo, hi)
    decreases hi - lo
  {
    if lo < hi {
      SumSelAgree(s1, s2, w, lo, hi - 1);
    }
  }

  /** With non-negative weights, widening a range upwards never lightens it. */
  lemma {:induction false} SumSelGrows(sel: seq<bool>, w: seq<int>, lo: int, hi: int, hi': int)
    requires NonNegative(w)
    requires 0 <= lo && hi <= hi' <= |sel| && hi' <= |w|
    ensures SumSel(sel, w, lo, hi) <= SumSel(sel, w, lo, hi')
    decreases hi' - hi
  {
    if hi < hi' {
      SumSelGrows(sel, w, lo, hi, hi' - 1);
      if lo < hi' {
        assert SumSel(sel, w, lo, hi') >= SumSel(sel, w, lo, hi' - 1);
      }
    }
  }

  /** A range holding no selected item weighs nothing; in particular the topmost selected item carries no load. */
  lemma {:induction false} UnselectedWeighsNothing(sel: seq<bool>, w: seq<int>, lo: int, hi: int)
    requires 0 <= lo && hi <= |sel| && hi <= |w|
    requires forall m :: lo <= m < hi ==> !sel[m]
    ensures SumSel(sel, w, lo, hi) == 0
    decreases hi - lo
  {
    if lo < hi {
      UnselectedWeighsNothing(sel, w, lo, hi - 1);
    }
  }

  /** Whether the items below `h` break depends only on the choices below `h`. */
  lemma BreaksAgree(s1: seq<bool>, s2: seq<bool>, w: seq<int>, r: seq<int>, h: int)
    requires 0 <= h <= |s1| && h <= |s2| && h <= |w| && h <= |r|
    requires Agree(s1, s2, h)
    ensures Breaks(s1, w, r, h) == Breaks(s2, w, r, h)
  {
    forall j | 0 <= j < h
      ensures Load(s1, w, j, h) == Load(s2, w, j, h)
    {
      SumSelAgree(s1, s2, w, j + 1, h);
    }
  }

  /**
   With non-negative weights, a stack that breaks keeps breaking when more
   items are placed on top of it: every load only grows.
   */
  lemma BreaksPersists(sel: seq<bool>, w: seq<int>, r: seq<int>, h: int, h': int)
    requires NonNegative(w)
    requires 0 <= h <= h' <= |sel| && h' <= |w| && h' <= |r|
    requires Breaks(sel, w, r, h)
    ensures Breaks(sel, w, r, h')
  {
    var j :| 0 <= j < h && sel[j] && r[j] < Load(sel, w, j, h);
    SumSelGrows(sel, w, j + 1, h, h');
  }

  /** No feasible selection that agrees with `sel` below `i` selects more than Best(sel, i). */
  lemma {:induction false} BestIsUpperBound(sel: seq<bool>, i: int, w: seq<int>, r: seq<int>, R: int, capacity: bool, s: seq<bool>)
    requires |sel| == |w| == |r| && 0 <= i <= |sel| && |s| == |sel|
    requires Agree(s, sel, i) && Feasible(s, w, r, R, capacity)
    ensures Count(s, |s|) <= Best(sel, i, w, r, R, capacity)
    decreases |sel| - i
  {
    if i == |sel| {
      assert s == sel;
    } else {
      var next := sel[i := s[i]];
      assert Agree(s, next, i + 1);
      BestIsUpperBound(next, i + 1, w, r, R, capacity, s);
    }
  }

  /** A non-negative Best(sel, i) is the count of some feasible selection that agrees with `sel` below `i`. */
  lemma {:induction false} BestIsAttained(sel: seq<bool>, i: int, w: seq<int>, r: seq<int>, R: int, capacity: bool)
    requires |sel| == |w| == |r| && 0 <= i <= |sel|
    requires 0 <= Best(sel, i, w, r, R, capacity)
    ensures exists s :: |s| == |sel| && Agree(s, sel, i) && Feasible(s, w, r, R, capacity)
                        && Count(s, |s|) == Best(sel, i, w, r, R, capacity)
    decreases |sel| - i
  {
    if i == |sel| {
      assert Agree(sel, sel, i);
    } else {
      var b := Best(sel[i := false], i + 1, w, r, R, capacity) < Best(sel[i := true], i + 1, w, r, R, capacity);
      var next := sel[i := b];
      BestIsAttained(next, i + 1, w, r, R, capacity);
      var s :| |s| == |sel| && Agree(s, next, i + 1) && Feasible(s, w, r, R, capacity)
               && Count(s, |s|) == Best(next, i + 1, w, r, R, capacity);
      assert Agree(s, sel, i);
    }
  }

  /**
   The feasibility pruning is sound: with non-negative weights, once the
   choices below `i` are over capacity or already break, no selection that
   makes them is feasible.
   */
  lemma FeasibilityPruneSound(sel: seq<bool>, i: int, w: seq<int>, r: seq<int>, R: int, capacity: bool)
    requires |sel| == |w| == |r| && 0 <= i <= |sel| && NonNegative(w)
    requires (capacity && SumSel(sel, w, 0, i) > R) || Breaks(sel, w, r, i)
    ensures Best(sel, i, w, r, R, capacity) == -1
  {
    if Best(sel, i, w, r, R, capacity) >= 0 {
      BestIsAttained(sel, i, w, r, R, capacity);
      var s :| |s| == |sel| && Agree(s, sel, i) && Feasible(s, w, r, R, capacity)
               && Count(s, |s|) == Best(sel, i, w, r, R, capacity);
      SumSelAgree(s, sel, w, 0, i);
      SumSelGrows(s, w, 0, i, |s|);
      BreaksAgree(s, sel, w, r, i);
      if Breaks(s, w, r, i) {
        BreaksPersists(s, w, r, i, |s|);
      }
      assert false;
    }
  }

  /** When weight is not a constraint or `R` is not negative, the empty selection is feasible, so the optimum is at least 0. */
  lemma OptimumNonNegative(sel: seq<bool>, w: seq<int>, r: seq<int>, R: int, capacity: bool)
    requires |sel| == |w| == |r|
    requires capacity ==> 0 <= R
    ensures 0 <= Best(sel, 0, w, r, R, capacity)
  {
    var none := seq(|w|, _ => false);
    UnselectedWeighsNothing(none, w, 0, |w|);
    assert !Breaks(none, w, r, |w|);
    BestIsUpperBound(sel, 0, w, r, R, capacity, none);
  }

  /** Raising the capacity never lowers the optimum. */
  lemma {:induction false} CapacityDominance(sel: seq<bool>, i: int, w: seq<int>, r: seq<int>, R: int, R': int, capacity: bool)
    requires |sel| == |w| == |r| && 0 <= i <= |sel| && R <= R'
    ensures Best(sel, i, w, r, R, capacity) <= Best(sel, i, w, r, R', capacity)
    decreases |sel| - i
  {
    if i < |sel| {
      CapacityDominance(sel[i := false], i + 1, w, r, R, R', capacity);
      CapacityDominance(sel[i := true], i + 1, w, r, R, R', capacity);
    }
  }

  /** Raising resistances never lowers the optimum. */
  lemma {:induction false} ResistanceDominance(sel: seq<bool>, i: int, w: seq<int>, r: seq<int>, r': seq<int>, R: int, capacity: bool)
    requires |sel| == |w| == |r| == |r'| && 0 <= i <= |sel|
    requires forall m :: 0 <= m < |r| ==> r[m] <= r'[m]
    ensures Best(sel, i, w, r, R, capacity) <= Best(sel, i, w, r', R, capacity)
    decreases |sel| - i
  {
    if i < |sel| {
      ResistanceDominance(sel[i := false], i + 1, w, r, r', R, capacity);
      ResistanceDominance(sel[i := true], i + 1, w, r, r', R, capacity);
    } else if Breaks(sel, w, r', i) {
      var j :| 0 <= j < i && sel[j] && r'[j] < Load(sel, w, j, i);
      assert Breaks(sel, w, r, i);
    }
  }

  /** A lone item with non-negative resistance fits exactly when weight is not checked or it weighs at most `R`. */
  lemma SingleItem(sel: seq<bool>, w: seq<int>, r: seq<int>, R: int, capacity: bool)
    requires |sel| == |w| == |r| == 1 && 0 <= r[0] && 0 <= R
    ensures Best(sel, 0, w, r, R, capacity) == if capacity && w[0] > R then 0 else 1
  {
  }

  /**
   Without the capacity test the optimum can exceed the true one: one item of
   weight 5 and resistance 0 in a jambotubo of capacity 0 counts as 1.
   */
  lemma CapacityIgnoredOverstates()
    ensures Best([false], 0, [5], [0], 0, false) == 1
    ensures Best([false], 0, [5], [0], 0, true) == 0
  {
  }
}
