# JamboTubo solvers in Dafny

A model of the solver suite of the jambotubo program (`jambotubo.cpp`). There
are `n` items with weights `w` and resistances `r`, and a jambotubo of
capacity `R`. The program looks for the largest selection of items, kept in
index order, whose total weight is at most `R` and in which no item carries
more weight than its resistance. Item 0 sits at the bottom: the load of a
selected item `j` is the summed weight of the selected items with a larger
index.

Two modules:

- `Stacking` (stacking.dfy): the problem as pure definitions. `SumSel` is the
  selected weight of an index range, `Load` the weight resting on an item,
  `Breaks` the oracle's condition, `Feasible` a complete selection that fits,
  `Best(sel, i, …)` the largest count of a feasible selection that agrees
  with `sel` below index `i` (-1 when there is none), and `Optimum` the best
  over all selections. The lemmas give `Best` its meaning (upper bound and
  attained), prove the two prunings sound, and prove the dominance
  properties of the optimum.
- `JamboTubo` (jambotubo.dfy): the program's globals as the fields of one
  class `Solver` (`n`, `R`, `w`, `r`, `agregados`, `solucionActual`,
  `podaFactibilidad`, `podaOptimalidad`, `M`). The oracle `RompeResistencia`
  is a method that reads the current selection and changes nothing; the
  searches `FB` and `BT`, the memoised `PD`, the DP driver `SolveDP` and the
  strategy dispatch `Run` are methods that change these fields in place.

Where the code and the intended behaviour of the strategies part ways, the
model follows the code:

- The strategies are meant to agree on the optimum. BT-O does not: the BT
  leaf (jambotubo.cpp:75) tests only resistance, and with feasibility pruning
  off nothing else tests `t <= R`. BT-O therefore maximises over selections
  that break nothing, whatever their weight. `BT`'s contract is stated with a
  `capacity` flag equal to `podaFactibilidad`, and `CapacityIgnoredOverstates`
  gives an instance (one item of weight 5, resistance 0, capacity 0) where the
  two optima differ (1 against 0).
- The memo table is keyed on `(i, rp)` only, while the stored value contains
  the path-dependent count `acum` and ignores `t`; the precompute loop
  (jambotubo.cpp:168-170) even calls `PD(i, j, R, 0)` with `t = j`. PD is not
  an optimiser, and the model proves only what the code guarantees: base
  cases, bounds, and that each cell is written once.
- C++ leaves the order of the two arguments of `max` on line 101 unspecified;
  the model makes the call that leaves item `i` out first.
- `INFTY` is `10e6`, i.e. 10 000 000, not an infinity; it only marks that no
  strategy ran.

## Model

| member | source | states |
|---|---|---|
| `JamboTubo.Solver.constructor` | jambotubo.cpp:130-132 | after reading an instance nothing is selected, the best count is 0 and both prunings are on |
| `JamboTubo.Solver.RompeResistencia` | jambotubo.cpp:22-42 | returns true exactly when some selected item below `h` has a resistance smaller than the summed weight of the selected items in `(j, h)`; false when nothing below `h` is selected; changes nothing |
| `JamboTubo.Solver.FB` | jambotubo.cpp:48-60 | with `k`, `t` the count and weight of the selection below `i` and nothing selected from `i` on, leaves `agregados` as it found it and sets `solucionActual` to the maximum of its old value and the largest count of a completion that fits in `R` and breaks nothing |
| `JamboTubo.Solver.BT` | jambotubo.cpp:69-84 | restores `agregados`, never lowers `solucionActual`; with feasibility pruning on (and non-negative weights) ends exactly like `FB`; with it off, like `FB` with the capacity condition dropped; for either setting of the optimality pruning |
| `JamboTubo.Solver.PD` | jambotubo.cpp:95-105 | returns 0 when `t > R` or `rp < 0`, `acum` when `i == n`, otherwise the now filled cell `M[i, rp]`; the result lies in `[0, n]`; a filled cell and every row below `i` are never changed, and a call that finds its cell filled changes nothing |
| `JamboTubo.Solver.SolveDP` | jambotubo.cpp:166-173 | allocates a fresh `(n+1)×(R+1)` table whose filled cells all hold counts, returns a count in `[0, n]`, 0 when `n == 0` or `R < 0`, and otherwise the cell `M[0, R]` filled by the precompute loop |
| `JamboTubo.Solver.Run` | jambotubo.cpp:139-174 | FB gives the optimum over selections that fit and break nothing; BT and BT-F give the same with non-negative weights; BT-O gives the optimum without the capacity condition; every answer is in `[0, n]`; the searches leave their answer in `solucionActual` and `M` untouched, DP leaves `solucionActual` untouched; BT sets both prunings on, BT-F only feasibility, BT-O only optimality, FB and DP leave them as they were; the instance stays well formed and `agregados` ends as it started |
| `Stacking.Count` | jambotubo.cpp:46-57 | the number of selected items below `hi`, the search parameter `k`, lies in `[0, hi]` |
| `Stacking.CountAgree` | jambotubo.cpp:55-57 | the count below `hi` depends only on the choices below `hi`, so setting `agregados[i]` leaves the count below `i` as it was |
| `Stacking.Best` | jambotubo.cpp:72 | the best completion count is at least -1 and at most the count already chosen plus the number of undecided items, the bound `k + n - i` of the optimality pruning |
| `Stacking.Optimum` | jambotubo.cpp:139-174 | the answer every strategy aims at lies between -1 (no feasible selection) and `n` |
| `Stacking.BestIsUpperBound` | jambotubo.cpp:50-53 | no feasible selection that agrees with `sel` below `i` selects more items than `Best(sel, i)` |
| `Stacking.BestIsAttained` | jambotubo.cpp:50-53 | when `Best(sel, i)` is not negative some feasible selection that agrees with `sel` below `i` has exactly that count |
| `Stacking.FeasibilityPruneSound` | jambotubo.cpp:71 | with non-negative weights, when the selection below `i` is over capacity or already breaks, no selection that agrees with it below `i` is feasible |
| `Stacking.BreaksPersists` | jambotubo.cpp:71 | with non-negative weights a stack that breaks below `h` still breaks below any larger `h'` |
| `Stacking.SumSelGrows` | jambotubo.cpp:71 | with non-negative weights the selected weight of `[lo, hi)` never decreases as `hi` grows |
| `Stacking.SumSelSplit` | jambotubo.cpp:30-38 | the selected weight of `[lo, hi)` is that of `[lo, mid)` plus that of `[mid, hi)`, so the running total minus the partial sum at `j` is the load on `j` |
| `Stacking.SumSelAgree` | jambotubo.cpp:28-34 | the selected weight of a range below `hi` depends only on the selection below `hi` |
| `Stacking.BreaksAgree` | jambotubo.cpp:28-29 | whether the items below `h` break depends only on the selection below `h` |
| `Stacking.UnselectedWeighsNothing` | jambotubo.cpp:37-38 | a range with no selected item weighs 0, so the topmost selected item carries no load |
| `Stacking.OptimumNonNegative` | jambotubo.cpp:18 | when `R` is not negative (or capacity is not checked) the empty selection is feasible, so the optimum is at least 0 |
| `Stacking.CapacityDominance` | jambotubo.cpp:51 | raising `R` never lowers the best count |
| `Stacking.ResistanceDominance` | jambotubo.cpp:38 | raising resistances never lowers the best count |
| `Stacking.SingleItem` | jambotubo.cpp:50-53 | one item of non-negative resistance counts 1 when it fits (or capacity is not checked) and 0 otherwise |
| `Stacking.CapacityIgnoredOverstates` | jambotubo.cpp:74-77 | on one item of weight 5, resistance 0 and capacity 0, the optimum without the capacity condition is 1 and with it is 0 |

## Left out

- `int` arithmetic is unbounded in the model: the 32-bit overflow of `t`, `peso_total`, `k + n - i` and `t + w[i]` on huge inputs is not modelled.
- Command-line lookup of the strategy and the usage message (jambotubo.cpp:113-125), including the `argc < 2` path that reads `argv[1]`: `Run` takes the strategy as a value.
- Reading `n`, `R`, `w`, `r` from standard input (jambotubo.cpp:129-133): the constructor takes them as parameters.
- Wall-clock timing with `chrono` (floating point) and printing with `clog`/`cout`, including the mapping of `INFTY` to -1 (jambotubo.cpp:138, 175-182).
- JamboTubo.Solver.BT: with feasibility pruning on and some negative weight, states only that `agregados` is restored and `solucionActual` does not decrease, because the pruning is then unsound.
- JamboTubo.Solver.Run: for BT and BT-F with a negative weight, states only the `[0, n]` bound, for the same reason.
- JamboTubo.Solver.PD: its result is not related to the optimum, because the code does not compute it (see above); it requires non-negative weights, since otherwise `rp - w[i]` can exceed `R` and index outside the table.
- JamboTubo.Solver.SolveDP: requires `R >= -1`, since the table's rows have `R + 1` cells.
