# CurrencyGraph edge construction, in Dafny

`currency_graph.dfy` (module `CurrencyExchange`) models the constructor of
`CurrencyGraph` in `CurrencyExchange.py`. The constructor takes a matrix of
exchange rates and:

- stores `n`, the number of rows;
- stores the matrix itself;
- stores the fixed index-to-label dictionary `{0: 'A', 1: 'B', 2: 'C', 3: 'D'}`;
- builds the node list from a comprehension;
- builds the directed edge list with a nested row-major loop. The loop appends
  `(label[i], label[j], -log(rates[i][j]))` for every ordered pair `i != j`.

The graph is a class, `CurrencyGraph`:

- `n`, `exchangeRates`, `currencyIndex` and `nodes` are `const` fields, because
  the constructor assigns each of them once.
- `edges` is a `var` field, which the nested loop grows one edge at a time.
- The outer loop is `AddEdges`. The inner loop, over one row, is
  `AppendRowEdges`. Each of them is proved against one specification function.

The specification functions are:

- `CellStep`: one pass of the loop body at a cell. It gives the edge appended
  or the exception raised. Python evaluates the tuple left to right, so the
  label lookups come first, then the matrix index, then `log`.
- `RunCells`: the loop body run over a sequence of cells. The first exception
  stops it.
- `InitEdges`: the whole constructor. The node comprehension (`NodeLabels`)
  runs first, then every off-diagonal cell in row-major order (`Pairs`).

The constructor can raise three exceptions, modelled by `InitError`:

- `KeyError(4)` from the node comprehension, when there are more than four
  rows;
- `IndexError` at the first cell whose row is too short;
- `ValueError`, the math domain error of `log`, at the first cell whose rate
  is not positive.

`Admissible` states exactly when none of these happens. The constructor
requires it, and `Create` models a call of `CurrencyGraph(rates)` that may
raise.

`math.log` is the parameter `log: real -> real`. It is applied only to
positive rates. The properties proved are about the structure of the graph,
not about the numerical values of the weights.

The matrix need not be square. The code reads row `i` only at off-diagonal
columns, so diagonal entries are never read and the last row needs only
`n - 1` entries. Any other row needs `n` entries, since a column follows its
diagonal cell; extra entries are never read. `Admissible` and `WidthNeeded`
state this.

## Model

| member | source | states |
|---|---|---|
| CurrencyExchange.CurrencyIndexLiteral | CurrencyExchange.py:9 | the label dictionary is exactly {0: 'A', 1: 'B', 2: 'C', 3: 'D'} |
| CurrencyExchange.CurrencyIndexFacts | CurrencyExchange.py:9 | the dictionary's keys are exactly 0..3, its labels are 'A'..'D', and labels are distinct and increase with the index |
| CurrencyExchange.NodeLabels | CurrencyExchange.py:12 | the node comprehension succeeds iff n <= 4, otherwise raises KeyError(4); on success there are n nodes and node i is the label of index i |
| CurrencyExchange.RowPairs | CurrencyExchange.py:18-19 | the first j columns of row i yield j - 1 off-diagonal cells when the diagonal is among them, else j |
| CurrencyExchange.PairsBefore | CurrencyExchange.py:17-19 | the first i rows yield RowStart(n, i) off-diagonal cells |
| CurrencyExchange.RowPairsCells | CurrencyExchange.py:18-19 | every cell visited in row i lies in row i, before column j, off the diagonal |
| CurrencyExchange.PairsBeforeCells | CurrencyExchange.py:17-19 | every cell visited in rows before i lies in such a row, inside the matrix, off the diagonal |
| CurrencyExchange.RowStartProduct | CurrencyExchange.py:17-19 | i rows hold i*(n-1) off-diagonal cells |
| CurrencyExchange.RowColumn | CurrencyExchange.py:18-19 | the k-th off-diagonal column of row i is never i, and lies left of i exactly when k < i |
| CurrencyExchange.RowPairsClosed | CurrencyExchange.py:18-19 | the k-th cell the inner loop visits is (i, RowColumn(i, k)) |
| CurrencyExchange.RowPairsAt | CurrencyExchange.py:18-19 | the off-diagonal cell (i, c) with c < j is visited at position c, or c - 1 when c > i |
| CurrencyExchange.RowPairsSorted | CurrencyExchange.py:18-19 | within a row, cells are visited in strictly increasing column order |
| CurrencyExchange.PairsBeforeAt | CurrencyExchange.py:17-19 | the off-diagonal cell (r, c) of an earlier row sits at position PairIndex(n, r, c) |
| CurrencyExchange.RowMajorBound | CurrencyExchange.py:17-18 | every cell of row r comes before the first cell of a later row i |
| CurrencyExchange.PairsBeforeSorted | CurrencyExchange.py:17-19 | the cells of the first i rows are visited in strictly row-major order |
| CurrencyExchange.PairsShape | CurrencyExchange.py:17-19 | the loop visits n*(n-1) cells, all inside the matrix and off the diagonal |
| CurrencyExchange.PairsRowMajor | CurrencyExchange.py:17-19 | all cells are visited in strictly row-major order |
| CurrencyExchange.PairVisitedOnce | CurrencyExchange.py:17-19 | each off-diagonal cell (i, j) is visited exactly once, at position PairIndex(n, i, j) |
| CurrencyExchange.RunCellsSnoc | CurrencyExchange.py:20 | one more successful step appends exactly that step's edge |
| CurrencyExchange.RunCellsSuccess | CurrencyExchange.py:17-20 | the loop completes iff every step succeeds |
| CurrencyExchange.RunCellsAppend | CurrencyExchange.py:17-20 | running two cell sequences in turn appends the first's edges and then the second's |
| CurrencyExchange.RunCellsLength | CurrencyExchange.py:17-20 | a completed loop appends one edge per visited cell |
| CurrencyExchange.RunCellsPointwise | CurrencyExchange.py:17-20 | the loop produces es iff es has one edge per cell and edge k is what the step at cell k appends (both directions) |
| CurrencyExchange.RunCellsAt | CurrencyExchange.py:17-20 | in a completed loop, edge k is the edge of the k-th visited cell |
| CurrencyExchange.RunCellsFailure | CurrencyExchange.py:17-20 | a failed loop raises the exception of some cell, and every cell before it succeeded |
| CurrencyExchange.RunCellsSameSteps | CurrencyExchange.py:17-20 | two matrices whose steps agree on every visited cell give the same run |
| CurrencyExchange.AdmissibleCellStep | CurrencyExchange.py:20 | on an admissible matrix, the step at an off-diagonal cell appends (label i, label j, -log(rates[i][j])) |
| CurrencyExchange.CellStepFailure | CurrencyExchange.py:20 | when n <= 4, a failing in-range cell raises IndexError iff its entry is missing, and ValueError iff the entry exists and is not positive, never KeyError |
| CurrencyExchange.RowRun | CurrencyExchange.py:18-20 | the inner loop over row i appends row exactly when row has one edge per off-diagonal column and row[k] is the edge of the row's k-th off-diagonal cell (both directions) |
| CurrencyExchange.RowAppended | CurrencyExchange.py:17-20 | extending the edges of rows before i by row i's edges gives the edges of rows 0..i |
| CurrencyExchange.RowDone | CurrencyExchange.py:17-19 | the cells of rows before i, then those of row i, are the cells of rows 0..i |
| CurrencyExchange.InitSucceedsIffAdmissible | CurrencyExchange.py:6-20 | the constructor completes iff n <= 4, every row has its off-diagonal entries, and every off-diagonal rate is positive |
| CurrencyExchange.InitFailsAtFirstBadCell | CurrencyExchange.py:12-20 | a KeyError happens iff n > 4, with key 4; otherwise the exception names an off-diagonal cell that is missing (IndexError) or not positive (ValueError), and every earlier cell in row-major order succeeds |
| CurrencyExchange.InitEdgesAt | CurrencyExchange.py:16-20 | on success there are n*(n-1) edges, and edge k is (label i, label j, -log(rates[i][j])) for the k-th off-diagonal cell (i, j) |
| CurrencyExchange.NoSelfEdges | CurrencyExchange.py:19-20 | no edge has equal source and target |
| CurrencyExchange.EdgeExactlyOnce | CurrencyExchange.py:17-20 | each ordered pair i != j has exactly one edge from label i to label j, at PairIndex(n, i, j), weighted -log(rates[i][j]) |
| CurrencyExchange.EdgesRowMajor | CurrencyExchange.py:17-20 | the edges are strictly ordered by source label, then by target label |
| CurrencyExchange.DiagonalIgnored | CurrencyExchange.py:19-20 | matrices that agree off the diagonal build the same edges or raise the same exception |
| CurrencyExchange.CurrencyGraph.constructor | CurrencyExchange.py:6-20 | n and the matrix are stored unchanged, the dictionary is the fixed one, node i is label i, and edges are exactly InitEdges |
| CurrencyExchange.CurrencyGraph.AddEdges | CurrencyExchange.py:16-20 | the nested loop, starting from an empty list, leaves in `edges` exactly the edge list InitEdges specifies |
| CurrencyExchange.CurrencyGraph.AppendRowEdges | CurrencyExchange.py:18-20 | the inner loop keeps the existing edges and appends exactly the edges of row i's off-diagonal cells, in column order |
| CurrencyExchange.Create | CurrencyExchange.py:6-20 | constructing raises iff InitEdges raises, with the same exception; otherwise a fresh graph with the stored fields and the specified edges |
| CurrencyExchange.Rates1Edges | CurrencyExchange.py:38-42 | the module's first test matrix yields the six edges A→B, A→C, B→A, B→C, C→A, C→B weighted -log of their rates |
| CurrencyExchange.ShortLastRowAccepted | CurrencyExchange.py:17-20 | a last row one entry short, and a zero on the diagonal, are accepted |
| CurrencyExchange.ZeroRateFails | CurrencyExchange.py:17-20 | a zero off-diagonal rate raises ValueError at the first such cell, before a later short row is reached |

## Left out

- `print_graph` (CurrencyExchange.py:24-34) is left out because it only writes to the console.
- The module-level test matrices, graph constructions and print calls (CurrencyExchange.py:38-63) are left out. `Rates1` reproduces `exchange_rates1` for the example lemma `Rates1Edges`.
- `bellman_ford` (CurrencyExchange.py:66-67) is left out because its body is `pass`. The code has no relaxation, negative-cycle detection or path reconstruction, so none is modelled.
- `math.log` has no numerical model. It is the parameter `log`, so floating-point rounding, infinities and NaN are not modelled. Python's int and float entries are both `real`.
- Entries that are not numbers, which would raise `TypeError`, are not modelled: the matrix holds reals.
- The stored matrix is a value. Aliasing of the caller's list is not modelled: a later mutation of it would show through `self.exchange_rates` in Python.
- CurrencyGraph.constructor: requires `Admissible`, so it models only calls that do not raise. A call that raises is modelled by `Create`, because after the exception the half-built object is unreachable. The loop methods `AddEdges` and `AppendRowEdges` run only on calls that succeed; the exception a failing call raises is the one `RunCells`, the functional form of the same loop, raises at the first bad cell.
