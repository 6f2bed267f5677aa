/**
 The solvers of the jambotubo program. The program keeps its instance and its
 search state in globals; here they are the fields of one `Solver` object:
 the instance (`n`, `R`, `w`, `r`), the current selection `agregados`, the
 best count found so far `solucionActual`, the two pruning switches of the
 backtracking search and the memo table `M` of the dynamic programme.
 */
module JamboTubo {
  import opened Stacking

  /** Marks a memo cell that has not been computed yet. */
  const UNDEFINED: int := -1

  /** The five strategies the program can be asked to run: FB, BT, BT-F, BT-O and DP. */
  datatype Strategy =
    | BruteForce
    | Backtracking
    | BacktrackingFeasibility
    | BacktrackingOptimality
    | DynamicProgramming

  class Solver {
    const n: nat
    const R: int
    const w: seq<int>
    const r: seq<int>
    /** agregados[i]: item i is currently in the jambotubo. */
    const agregados: array<bool>
    var solucionActual: int
    var podaFactibilidad: bool
    var podaOptimalidad: bool
    var M: array2<int>

    /** The instance is well formed and the best count is a count of items. */
    ghost predicate Valid()
      reads this
    {
      |w| == n && |r| == n && agregados.Length == n && 0 <= solucionActual <= n
    }

    /** The memo table has its (n+1)×(R+1) shape and every filled cell holds a count. */
    ghost predicate MemoOk()
      reads this, M
    {
      M.Length0 == n + 1 && M.Length1 == R + 1 &&
      forall a, b :: 0 <= a < M.Length0 && 0 <= b < M.Length1 ==>
        M[a, b] == UNDEFINED || 0 <= M[a, b] <= n
    }

    /** The state of the program after reading an instance: nothing selected, best count 0, both prunings on. */
    constructor (w: seq<int>, r: seq<int>, R: int)
      requires |w| == |r|
      ensures Valid() && fresh(agregados)
      ensures this.w == w && this.r == r && this.R == R
      ensures forall j :: 0 <= j < n ==> !agregados[j]
      ensures solucionActual == 0 && podaFactibilidad && podaOptimalidad
    {
      n := |w|;
      this.R := R;
      this.w := w;
      this.r := r;
      agregados := new bool[|w|](_ => false);
      solucionActual := 0;
      podaFactibilidad := true;
      podaOptimalidad := true;
      M := new int[0, 0];
    }

    /**
     The feasibility oracle: whether some selected item below `h` carries more
     weight, from the selected items above it and below `h`, than its resistance.
     */
    method RompeResistencia(h: int) returns (rompe: bool)
      requires Valid() && 0 <= h <= n
      ensures rompe == Breaks(agregados[..], w, r, h)
      ensures (forall j :: 0 <= j < h ==> !agregados[j]) ==> !rompe
    {
      ghost var sel := agregados[..];
      var pesoTotal := 0;
      var rj: seq<int> := [];
      var wj: seq<int> := [];
      ghost var idx: seq<int> := [];
      var i := 0;
      while i < h
        invariant 0 <= i <= h
        invariant pesoTotal == SumSel(sel, w, 0, i)
        invariant |rj| == |idx| && |wj| == |idx|
        invariant forall p :: 0 <= p < |idx| ==>
          0 <= idx[p] < i && sel[idx[p]] && rj[p] == r[idx[p]] && wj[p] == SumSel(sel, w, 0, idx[p] + 1)
        invariant forall j :: 0 <= j < i && sel[j] ==> j in idx
      {
        if agregados[i] {
          pesoTotal := pesoTotal + w[i];
          rj := rj + [r[i]];
          wj := wj + [pesoTotal];
          idx := idx + [i];
        }
        i := i + 1;
      }

      var q := 0;
      while q < |rj|
        invariant 0 <= q <= |rj|
        invariant forall p :: 0 <= p < q ==> pesoTotal - wj[p] <= rj[p]
      {
        if rj[q] < pesoTotal - wj[q] {
          SumSelSplit(sel, w, 0, idx[q] + 1, h);
          return true;
        }
        q := q + 1;
      }

      forall j | 0 <= j < h && sel[j]
        ensures Load(sel, w, j, h) <= r[j]
      {
        var p :| 0 <= p < |idx| && idx[p] == j;
        SumSelSplit(sel, w, 0, j + 1, h);
      }
      return false;
    }

    /**
     Brute force: tries every way of completing the selection made below `i`
     and records the largest count of a completion that fits and breaks nothing.
     `k` and `t` are the count and the weight of the selection below `i`.
     */
    method FB(i: int, k: int, t: int)
      requires Valid() && 0 <= i <= n
      requires forall j :: i <= j < n ==> !agregados[j]
      requires k == Count(agregados[..], i) && t == SumSel(agregados[..], w, 0, i)
      modifies this`solucionActual, agregados
      ensures Valid()
      ensures agregados[..] == old(agregados[..])
      ensures solucionActual == Max(old(solucionActual), Best(old(agregados[..]), i, w, r, R, true))
      decreases n - i
    {
      if i == n {
        if t <= R {
          var rompe := RompeResistencia(n);
          if !rompe {
            solucionActual := Max(solucionActual, k);
          }
        }
      } else {
        ghost var start := agregados[..];
        assert start[i := false] == start;
        FB(i + 1, k, t);

        agregados[i] := true;
        ghost var taken := agregados[..];
        assert taken == start[i := true];
        CountAgree(taken, start, i);
        SumSelAgree(taken, start, w, 0, i);
        FB(i + 1, k + 1, t + w[i]);
        agregados[i] := false;
        assert agregados[..] == start;
      }
    }

    /**
     Backtracking: the brute-force tree, cut on entry when the feasibility
     pruning is on and the selection is over capacity or already breaks, or
     when the optimality pruning is on and even taking every remaining item
     cannot beat the best count. The leaf does not test the capacity, so with
     the feasibility pruning off the search ignores `R`.
     */
    method BT(i: int, k: int, t: int)
      requires Valid() && 0 <= i <= n
      requires forall j :: i <= j < n ==> !agregados[j]
      requires k == Count(agregados[..], i) && t == SumSel(agregados[..], w, 0, i)
      modifies this`solucionActual, agregados
      ensures Valid()
      ensures agregados[..] == old(agregados[..])
      ensures old(solucionActual) <= solucionActual
      ensures (old(podaFactibilidad) ==> NonNegative(w)) ==>
        solucionActual == Max(old(solucionActual), Best(old(agregados[..]), i, w, r, R, old(podaFactibilidad)))
      decreases n - i
    {
      ghost var start := agregados[..];
      ghost var sound := podaFactibilidad ==> NonNegative(w);
      ghost var cap := podaFactibilidad;
      ghost var best := Best(start, i, w, r, R, cap);
      if podaFactibilidad {
        if t > R {
          if NonNegative(w) {
            FeasibilityPruneSound(start, i, w, r, R, true);
          }
          return;
        }
        var rompe := RompeResistencia(i);
        if rompe {
          if NonNegative(w) {
            FeasibilityPruneSound(start, i, w, r, R, true);
          }
          return;
        }
      }
      if podaOptimalidad && k + n - i <= solucionActual {
        assert best <= solucionActual;
        return;
      }

      if i == n {
        var rompe := RompeResistencia(i);
        if !rompe {
          solucionActual := Max(solucionActual, k);
        }
      } else {
        ghost var before := solucionActual;
        assert start[i := false] == start;
        BT(i + 1, k, t);
        assert podaFactibilidad == cap;
        ghost var left := Best(start[i := false], i + 1, w, r, R, cap);
        assert sound ==> solucionActual == Max(before, left);
        ghost var middle := solucionActual;

        agregados[i] := true;
        ghost var taken := agregados[..];
        assert taken == start[i := true];
        CountAgree(taken, start, i);
        SumSelAgree(taken, start, w, 0, i);
        BT(i + 1, k + 1, t + w[i]);
        agregados[i] := false;
        assert agregados[..] == start;
        assert podaFactibilidad == cap;
        ghost var right := Best(taken, i + 1, w, r, R, cap);
        assert sound ==> solucionActual == Max(middle, right);
        assert best == Max(left, right);
      }
    }

    /**
     The memoised recursion: `rp` is the tightest resistance left to the items
     still to be placed, `acum` the count chosen so far. A cell M[i, rp] is
     filled at most once and then reused for every later call with the same
     `i` and `rp`, whatever their `t` and `acum`. Of the two calls whose maximum
     fills the cell, the one that leaves item `i` out is made first.
     */
    method PD(i: int, t: int, rp: int, acum: int) returns (res: int)
      requires Valid() && MemoOk() && NonNegative(w)
      requires 0 <= acum <= i <= n && rp <= R
      modifies M
      ensures MemoOk()
      ensures 0 <= res <= n
      ensures forall a, b ::
        0 <= a < M.Length0 && 0 <= b < M.Length1 && (a < i || old(M[a, b]) != UNDEFINED) ==>
        M[a, b] == old(M[a, b])
      ensures t > R || rp < 0 ==> res == 0 && unchanged(M)
      ensures t <= R && 0 <= rp && i == n ==> res == acum && unchanged(M)
      ensures t <= R && 0 <= rp && i < n ==> M[i, rp] != UNDEFINED && res == M[i, rp]
      ensures t <= R && 0 <= rp && i < n && old(M[i, rp]) != UNDEFINED ==>
        res == old(M[i, rp]) && unchanged(M)
      decreases n - i
    {
      if t > R || rp < 0 {
        return 0;
      }
      if i == n && t <= R {
        return acum;
      }
      if M[i, rp] == UNDEFINED {
        var excluido := PD(i + 1, t, rp, acum);
        var incluido := PD(i + 1, t + w[i], Min(r[i], rp - w[i]), acum + 1);
        M[i, rp] := Max(excluido, incluido);
      }
      res := M[i, rp];
    }

    /**
     The dynamic-programming driver: a fresh (n+1)×(R+1) table of UNDEFINED,
     a call PD(i, j, R, 0) for every cell index pair, then the answer PD(0, 0, R, 0),
     which by then is read back from the cell M[0, R].
     */
    method SolveDP() returns (optimum: int)
      requires Valid() && NonNegative(w) && -1 <= R
      modifies this`M
      ensures fresh(M) && MemoOk()
      ensures 0 <= optimum <= n
      ensures n == 0 || R < 0 ==> optimum == 0
      ensures 0 < n && 0 <= R ==> optimum == M[0, R]
    {
      M := new int[n + 1, R + 1]((_, _) => UNDEFINED);
      var i := 0;
      while i < n + 1
        invariant 0 <= i <= n + 1
        invariant fresh(M) && MemoOk()
        invariant 0 < i && 0 < n && 0 <= R ==> M[0, R] != UNDEFINED
      {
        var j := 0;
        while j < R + 1
          invariant 0 <= j <= R + 1
          invariant fresh(M) && MemoOk()
          invariant (0 < i || 0 < j) && 0 < n && 0 <= R ==> M[0, R] != UNDEFINED
        {
          var ignored := PD(i, j, R, 0);
          j := j + 1;
        }
        i := i + 1;
      }
      optimum := PD(0, 0, R, 0);
    }

    /**
     Runs one strategy on a freshly read instance and returns its answer.
     FB, BT and BT-F give the optimum over selections that fit and break
     nothing (BT and BT-F given non-negative weights); BT-O drops the
     capacity condition.
     */
    method Run(s: Strategy) returns (optimum: int)
      requires Valid() && solucionActual == 0
      requires forall j :: 0 <= j < n ==> !agregados[j]
      requires s == DynamicProgramming ==> NonNegative(w) && -1 <= R
      modifies this`solucionActual, this`podaFactibilidad, this`podaOptimalidad, this`M, agregados
      ensures Valid()
      ensures agregados[..] == old(agregados[..])
      ensures 0 <= optimum <= n
      ensures s != DynamicProgramming ==> solucionActual == optimum && M == old(M)
      ensures s == DynamicProgramming ==> solucionActual == old(solucionActual)
      ensures s == BruteForce || s == DynamicProgramming ==>
        podaFactibilidad == old(podaFactibilidad) && podaOptimalidad == old(podaOptimalidad)
      ensures s == Backtracking ==> podaFactibilidad && podaOptimalidad
      ensures s == BacktrackingFeasibility ==> podaFactibilidad && !podaOptimalidad
      ensures s == BacktrackingOptimality ==> !podaFactibilidad && podaOptimalidad
      ensures s == BruteForce ==> optimum == Max(0, Optimum(w, r, R, true))
      ensures (s == Backtracking || s == BacktrackingFeasibility) && NonNegative(w) ==>
        optimum == Max(0, Optimum(w, r, R, true))
      ensures s == BacktrackingOptimality ==> optimum == Max(0, Optimum(w, r, R, false))
    {
      assert agregados[..] == seq(n, _ => false);
      match s
      case BruteForce =>
        FB(0, 0, 0);
        optimum := solucionActual;
      case Backtracking =>
        podaOptimalidad, podaFactibilidad := true, true;
        BT(0, 0, 0);
        optimum := solucionActual;
      case BacktrackingFeasibility =>
        podaOptimalidad := false;
        podaFactibilidad := true;
        BT(0, 0, 0);
        optimum := solucionActual;
      case BacktrackingOptimality =>
        podaOptimalidad := true;
        podaFactibilidad := false;
        BT(0, 0, 0);
        optimum := solucionActual;
      case DynamicProgramming =>
        optimum := SolveDP();
    }
  }
}
