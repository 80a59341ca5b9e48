/** A model of `CurrencyGraph` (CurrencyExchange.py): an n×n exchange-rate
    matrix becomes a list of node labels and a directed edge list with one
    edge (label i, label j, -log(rate[i][j])) per ordered pair i != j, built
    by a nested row-major loop. `math.log` is not modelled numerically: it is
    the parameter `log` of the construction, applied only to positive rates. */
module CurrencyExchange {

  datatype Result<T, E> = Success(value: T) | Failure(error: E)

  /** The exception that `CurrencyGraph(exchange_rates)` raises. */
  datatype InitError =
    | KeyError(key: int)               // `currency_index` has no label for this index
    | IndexError(row: nat, col: nat)   // `exchange_rates[row]` has no entry `col`
    | ValueError(row: nat, col: nat)   // math domain error: `log` of a rate that is not positive

  /** A directed edge (u, v, w) of the graph. */
  datatype Edge = Edge(source: char, target: char, weight: real)

  type Matrix = seq<seq<real>>

  /** A (row, column) index pair of the matrix. */
  type Pair = (nat, nat)

  /** The fixed index-to-label dictionary of the constructor: index i has the
      i-th letter of the alphabet, for i in 0..3. It is written as a
      comprehension because the proofs reason about it more cheaply that way;
      CurrencyIndexLiteral proves it equal to the literal dictionary. */
  const CurrencyIndex: map<int, char> := map i | 0 <= i < 4 :: ('A' as int + i) as char

  /** The dictionary is {0: 'A', 1: 'B', 2: 'C', 3: 'D'}. */
  lemma CurrencyIndexLiteral()
    ensures CurrencyIndex == map[0 := 'A', 1 := 'B', 2 := 'C', 3 := 'D']
  {
    var lit := map[0 := 'A', 1 := 'B', 2 := 'C', 3 := 'D'];
    assert CurrencyIndex.Keys == lit.Keys;
  }

  /** The dictionary's keys are 0 .. 3; its labels are 'A' .. 'D', distinct
      and in index order. */
  lemma CurrencyIndexFacts()
    ensures forall i :: i in CurrencyIndex <==> 0 <= i < 4
    ensures CurrencyIndex[0] == 'A' && CurrencyIndex[1] == 'B' &&
            CurrencyIndex[2] == 'C' && CurrencyIndex[3] == 'D'
    ensures forall i, j {:trigger CurrencyIndex[i], CurrencyIndex[j]} ::
      i in CurrencyIndex && j in CurrencyIndex && i < j ==> CurrencyIndex[i] < CurrencyIndex[j]
  {
  }

  // ---------------------------------------------------------------------
  // The order in which the nested loop visits off-diagonal cells
  // ---------------------------------------------------------------------

  /** The off-diagonal cells (i, c) of row i with c < j, in column order:
      what the inner loop has visited once `j` columns are done. */
  function RowPairs(i: nat, j: nat): (ps: seq<Pair>)
    ensures |ps| == if i < j then j - 1 else j
  {
    if j == 0 then []
    else if j - 1 == i then RowPairs(i, j - 1)
    else RowPairs(i, j - 1) + [(i, j - 1)]
  }

  /** The off-diagonal cells of rows 0 .. i-1 of an n×n matrix, row by row:
      what the outer loop has visited once `i` rows are done. */
  function PairsBefore(n: nat, i: nat): (ps: seq<Pair>)
    requires i <= n
    ensures |ps| == RowStart(n, i)
  {
    if i == 0 then []
    else
      PairsBefore(n, i - 1) + RowPairs(i - 1, n)
  }

  /** Row i visits only cells of row i, left of column j, off the diagonal. */
  lemma {:induction false} RowPairsCells(i: nat, j: nat)
    ensures forall k :: 0 <= k < |RowPairs(i, j)| ==>
      RowPairs(i, j)[k].0 == i && RowPairs(i, j)[k].1 < j && RowPairs(i, j)[k].1 != i
  {
    if j > 0 {
      RowPairsCells(i, j - 1);
    }
  }

  /** The first i rows visit only cells of those rows, inside the matrix and
      off the diagonal. */
  lemma {:induction false} PairsBeforeCells(n: nat, i: nat)
    requires i <= n
    ensures forall k :: 0 <= k < |PairsBefore(n, i)| ==>
      PairsBefore(n, i)[k].0 < i && PairsBefore(n, i)[k].1 < n &&
      PairsBefore(n, i)[k].0 != PairsBefore(n, i)[k].1
  {
    if i > 0 {
      PairsBeforeCells(n, i - 1);
      RowPairsCells(i - 1, n);
    }
  }

  /** Every off-diagonal cell of an n×n matrix, in row-major order. */
  function Pairs(n: nat): seq<Pair>
  {
    PairsBefore(n, n)
  }

  /** The number of off-diagonal cells in the first i rows of an n×n matrix:
      i rows of n - 1 cells each (kept as a sum, see RowStartProduct). */
  function RowStart(n: nat, i: nat): int
  {
    if i == 0 then 0 else RowStart(n, i - 1) + (n - 1)
  }

  lemma {:induction false} RowStartProduct(n: nat, i: nat)
    ensures RowStart(n, i) == i * (n - 1)
  {
    if i > 0 {
      RowStartProduct(n, i - 1);
      assert (i - 1) * (n - 1) + (n - 1) == i * (n - 1);
    }
  }

  /** Position of the off-diagonal cell (i, j) in row-major order: i full rows
      of n - 1 cells come before it, and the diagonal cell of row i is skipped. */
  function PairIndex(n: nat, i: nat, j: nat): int
  {
    RowStart(n, i) + (if j < i then j else j - 1)
  }

  /** Strict row-major (lexicographic) order on cells. */
  predicate Before(p: Pair, q: Pair)
  {
    p.0 < q.0 || (p.0 == q.0 && p.1 < q.1)
  }

  /** The column of the k-th off-diagonal cell of row i: the diagonal
      column i is skipped. */
  function RowColumn(i: nat, k: nat): (c: nat)
    ensures c != i && (c < i <==> k < i)
  {
    if k < i then k else k + 1
  }

  /** The k-th cell row i visits is (i, RowColumn(i, k)). */
  lemma {:induction false} RowPairsClosed(i: nat, j: nat)
    ensures forall k :: 0 <= k < |RowPairs(i, j)| ==> RowPairs(i, j)[k] == (i, RowColumn(i, k))
  {
    if j > 0 {
      RowPairsClosed(i, j - 1);
    }
  }

  lemma {:induction false} RowPairsAt(i: nat, j: nat, c: nat)
    requires c < j && c != i
    ensures var k := if c < i then c else c - 1;
      k < |RowPairs(i, j)| && RowPairs(i, j)[k] == (i, c)
  {
    if c < j - 1 {
      RowPairsAt(i, j - 1, c);
    }
  }

  lemma {:induction false} RowPairsSorted(i: nat, j: nat)
    ensures forall a, b :: 0 <= a < b < |RowPairs(i, j)| ==>
      Before(RowPairs(i, j)[a], RowPairs(i, j)[b])
  {
    if j > 0 {
      RowPairsSorted(i, j - 1);
      RowPairsCells(i, j - 1);
    }
  }

  lemma {:induction false} PairsBeforeAt(n: nat, i: nat, r: nat, c: nat)
    requires r < i <= n && c < n && r != c
    ensures 0 <= PairIndex(n, r, c) < |PairsBefore(n, i)|
    ensures PairsBefore(n, i)[PairIndex(n, r, c)] == (r, c)
  {
    var off := if c < r then c else c - 1;
    assert PairsBefore(n, i) == PairsBefore(n, i - 1) + RowPairs(i - 1, n);
    if r == i - 1 {
      RowPairsAt(r, n, c);
    } else {
      PairsBeforeAt(n, i - 1, r, c);
      RowMajorBound(n - 1, r, i - 1, off);
    }
  }

  /** A cell of row r lies before the first cell of any later row i; m is
      the number of off-diagonal cells per row, n - 1 for an n×n matrix. */
  lemma {:induction false} RowMajorBound(m: nat, r: nat, i: nat, off: nat)
    requires r < i && off < m
    ensures RowStart(m + 1, r) + off < RowStart(m + 1, i)
  {
    if r < i - 1 {
      RowMajorBound(m, r, i - 1, off);
    }
  }

  lemma {:induction false} PairsBeforeSorted(n: nat, i: nat)
    requires i <= n
    ensures forall a, b :: 0 <= a < b < |PairsBefore(n, i)| ==>
      Before(PairsBefore(n, i)[a], PairsBefore(n, i)[b])
  {
    if i > 0 {
      PairsBeforeSorted(n, i - 1);
      RowPairsSorted(i - 1, n);
      PairsBeforeCells(n, i - 1);
      RowPairsCells(i - 1, n);
    }
  }

  /** There are n*(n-1) off-diagonal cells, none of them on the diagonal. */
  lemma PairsShape(n: nat)
    ensures |Pairs(n)| == n * (n - 1)
    ensures forall k :: 0 <= k < |Pairs(n)| ==>
      Pairs(n)[k].0 < n && Pairs(n)[k].1 < n && Pairs(n)[k].0 != Pairs(n)[k].1
  {
    RowStartProduct(n, n);
    PairsBeforeCells(n, n);
  }

  /** Row-major order: each cell is visited strictly after every cell of an
      earlier row and every earlier cell of its own row. */
  lemma PairsRowMajor(n: nat)
    ensures forall a, b :: 0 <= a < b < |Pairs(n)| ==> Before(Pairs(n)[a], Pairs(n)[b])
  {
    PairsBeforeSorted(n, n);
  }

  /** Every off-diagonal cell (i, j) is visited exactly once, at position
      PairIndex(n, i, j). */
  lemma PairVisitedOnce(n: nat, i: nat, j: nat)
    requires i < n && j < n && i != j
    ensures 0 <= PairIndex(n, i, j) < |Pairs(n)| && Pairs(n)[PairIndex(n, i, j)] == (i, j)
    ensures forall k :: 0 <= k < |Pairs(n)| && Pairs(n)[k] == (i, j) ==> k == PairIndex(n, i, j)
  {
    PairsBeforeAt(n, n, i, j);
    PairsBeforeSorted(n, n);
  }

  // ---------------------------------------------------------------------
  // What the constructor does: the edge list, or the exception it raises
  // ---------------------------------------------------------------------

  /** One pass of the inner loop body at cell p: the edge it appends, or the
      exception it raises. The tuple is built left to right, so the two label
      lookups come before the matrix is indexed, and the index before `log`. */
  function CellStep(rates: Matrix, log: real -> real, p: Pair): Result<Edge, InitError>
  {
    if p.0 !in CurrencyIndex then Failure(KeyError(p.0))
    else if p.1 !in CurrencyIndex then Failure(KeyError(p.1))
    else if p.0 >= |rates| || p.1 >= |rates[p.0]| then Failure(IndexError(p.0, p.1))
    else if rates[p.0][p.1] <= 0.0 then Failure(ValueError(p.0, p.1))
    else Success(Edge(CurrencyIndex[p.0], CurrencyIndex[p.1], -log(rates[p.0][p.1])))
  }

  /** The loop body run on the cells ps in order, appending to an empty edge
      list: the edges appended, or the first exception raised. */
  function RunCells(rates: Matrix, log: real -> real, ps: seq<Pair>): Result<seq<Edge>, InitError>
  {
    if ps == [] then Success([])
    else
      var prev := RunCells(rates, log, ps[..|ps| - 1]);
      var step := CellStep(rates, log, ps[|ps| - 1]);
      if prev.Failure? then prev
      else if step.Failure? then Failure(step.error)
      else Success(prev.value + [step.value])
  }

  /** `CurrencyGraph(rates)`: the node list comprehension raises KeyError(4)
      when there are more than four rows; otherwise the nested loop runs over
      every off-diagonal cell in row-major order. */
  function InitEdges(rates: Matrix, log: real -> real): Result<seq<Edge>, InitError>
  {
    var nodes := NodeLabels(|rates|);
    if nodes.Failure? then Failure(nodes.error) else RunCells(rates, log, Pairs(|rates|))
  }

  /** The node list comprehension: the labels of indices 0 .. n-1, looked up
      in index order; the first index without a label raises KeyError. There
      are labels for 0 .. 3 only, so that is KeyError(4) exactly when n > 4. */
  function NodeLabels(n: nat): (r: Result<seq<char>, InitError>)
    ensures r.Success? <==> n <= 4
    ensures r.Failure? ==> r.error == KeyError(4)
    ensures r.Success? ==>
      |r.value| == n && forall i :: 0 <= i < n ==> i in CurrencyIndex && r.value[i] == CurrencyIndex[i]
  {
    CurrencyIndexFacts();
    if n == 0 then Success([])
    else
      var prev := NodeLabels(n - 1);
      if prev.Failure? then prev
      else if n - 1 !in CurrencyIndex then Failure(KeyError(n - 1))
      else Success(prev.value + [CurrencyIndex[n - 1]])
  }

  /** The number of entries row i of an n-row matrix needs so that every
      off-diagonal cell of the row exists. The diagonal cell is skipped, so
      the last row may lack its final entry. */
  function WidthNeeded(n: nat, i: nat): nat
  {
    if i == n - 1 then i else n
  }

  /** A closed-form description of the matrices the constructor accepts: at
      most four rows, every row has its off-diagonal entries and they are
      positive. Diagonal entries are never read. */
  predicate Admissible(rates: Matrix)
  {
    |rates| <= 4 &&
    (forall i :: 0 <= i < |rates| ==> WidthNeeded(|rates|, i) <= |rates[i]|) &&
    forall i, j :: 0 <= i < |rates| && 0 <= j < |rates| && i != j ==> rates[i][j] > 0.0
  }

  /** Running ps and then one more cell p: the loop appends p's edge or stops. */
  lemma RunCellsSnoc(rates: Matrix, log: real -> real, ps: seq<Pair>, p: Pair)
    ensures RunCells(rates, log, ps).Success? && CellStep(rates, log, p).Success? ==>
      RunCells(rates, log, ps + [p]) ==
        Success(RunCells(rates, log, ps).value + [CellStep(rates, log, p).value])
  {
    assert (ps + [p])[..|ps|] == ps;
  }

  /** The loop completes exactly when every step does. */
  lemma {:induction false} RunCellsSuccess(rates: Matrix, log: real -> real, ps: seq<Pair>)
    ensures RunCells(rates, log, ps).Success? <==>
      forall k :: 0 <= k < |ps| ==> CellStep(rates, log, ps[k]).Success?
  {
    if ps != [] {
      RunCellsSuccess(rates, log, ps[..|ps| - 1]);
    }
  }

  /** Running a and then b appends a's edges and then b's. */
  lemma {:induction false} RunCellsAppend(rates: Matrix, log: real -> real, a: seq<Pair>, b: seq<Pair>)
    ensures RunCells(rates, log, a).Success? && RunCells(rates, log, b).Success? ==>
      RunCells(rates, log, a + b) == Success(RunCells(rates, log, a).value + RunCells(rates, log, b).value)
  {
    if b == [] {
      assert a + b == a;
      if RunCells(rates, log, a).Success? {
        assert RunCells(rates, log, a).value + [] == RunCells(rates, log, a).value;
      }
    } else if RunCells(rates, log, a).Success? && RunCells(rates, log, b).Success? {
      var front, last := b[..|b| - 1], b[|b| - 1];
      RunCellsAppend(rates, log, a, front);
      assert a + b == (a + front) + [last];
      RunCellsSnoc(rates, log, a + front, last);
      var x, y := RunCells(rates, log, a).value, RunCells(rates, log, front).value;
      assert x + (y + [CellStep(rates, log, last).value]) == (x + y) + [CellStep(rates, log, last).value];
    }
  }

  /** When the loop completes, it has appended one edge per cell. */
  lemma {:induction false} RunCellsLength(rates: Matrix, log: real -> real, ps: seq<Pair>)
    requires RunCells(rates, log, ps).Success?
    ensures |RunCells(rates, log, ps).value| == |ps|
  {
    if ps != [] {
      RunCellsLength(rates, log, ps[..|ps| - 1]);
    }
  }

  /** The loop appends exactly es over ps when es has one edge per cell and
      each step at a cell appends the matching edge. */
  lemma {:induction false} RunCellsPointwise(rates: Matrix, log: real -> real, ps: seq<Pair>, es: seq<Edge>)
    ensures RunCells(rates, log, ps) == Success(es) <==>
      |es| == |ps| && forall k :: 0 <= k < |ps| ==> CellStep(rates, log, ps[k]) == Success(es[k])
  {
    if ps != [] {
      var front := ps[..|ps| - 1];
      if es == [] {
        if RunCells(rates, log, ps).Success? {
          RunCellsLength(rates, log, ps);
        }
      } else {
        var eFront := es[..|es| - 1];
        RunCellsPointwise(rates, log, front, eFront);
        assert es == eFront + [es[|es| - 1]];
        assert forall k :: 0 <= k < |front| ==> front[k] == ps[k];
      }
    }
  }

  /** When the loop completes, edge k is the edge of cell k. */
  lemma {:induction false} RunCellsAt(rates: Matrix, log: real -> real, ps: seq<Pair>, k: nat)
    requires RunCells(rates, log, ps).Success? && k < |ps|
    ensures k < |RunCells(rates, log, ps).value|
    ensures CellStep(rates, log, ps[k]).Success?
    ensures RunCells(rates, log, ps).value[k] == CellStep(rates, log, ps[k]).value
  {
    var front := ps[..|ps| - 1];
    RunCellsLength(rates, log, front);
    if k < |front| {
      RunCellsAt(rates, log, front, k);
    }
  }

  /** When the loop raises e, some cell raised e and every cell before it
      appended its edge. */
  lemma {:induction false} RunCellsFailure(rates: Matrix, log: real -> real, ps: seq<Pair>)
    requires RunCells(rates, log, ps).Failure?
    ensures exists k :: 0 <= k < |ps| &&
                        CellStep(rates, log, ps[k]) == Failure(RunCells(rates, log, ps).error) &&
                        forall m :: 0 <= m < k ==> CellStep(rates, log, ps[m]).Success?
  {
    var front := ps[..|ps| - 1];
    if RunCells(rates, log, front).Failure? {
      RunCellsFailure(rates, log, front);
      var k :| 0 <= k < |front| &&
        CellStep(rates, log, front[k]) == Failure(RunCells(rates, log, front).error) &&
        forall m :: 0 <= m < k ==> CellStep(rates, log, front[m]).Success?;
      assert ps[k] == front[k];
      assert forall m :: 0 <= m < k ==> ps[m] == front[m];
    } else {
      RunCellsSuccess(rates, log, front);
      assert forall m :: 0 <= m < |front| ==> ps[m] == front[m];
    }
  }

  /** Every off-diagonal cell of an admissible matrix appends its edge. */
  lemma AdmissibleCellStep(rates: Matrix, log: real -> real, i: nat, j: nat)
    requires Admissible(rates) && i < |rates| && j < |rates| && i != j
    ensures i in CurrencyIndex && j in CurrencyIndex && j < |rates[i]|
    ensures CellStep(rates, log, (i, j)) ==
      Success(Edge(CurrencyIndex[i], CurrencyIndex[j], -log(rates[i][j])))
  {
    CurrencyIndexFacts();
  }

  /** Appending row i's edges to those of the rows before it gives the edges
      of rows 0 .. i. */
  lemma RowAppended(rates: Matrix, log: real -> real, n: nat, i: nat, before: seq<Edge>, after: seq<Edge>)
    requires i < n
    requires RunCells(rates, log, PairsBefore(n, i)) == Success(before)
    requires |before| <= |after| && after[..|before|] == before
    requires RunCells(rates, log, RowPairs(i, n)) == Success(after[|before|..])
    ensures RunCells(rates, log, PairsBefore(n, i + 1)) == Success(after)
  {
    assert after == before + after[|before|..];
    RunCellsAppend(rates, log, PairsBefore(n, i), RowPairs(i, n));
    RowDone(n, i);
  }

  /** The inner loop over row i, read off column by column: it appends row
      exactly when row has one edge per off-diagonal column and row[k] is the
      edge of the row's k-th off-diagonal cell. */
  lemma RowRun(rates: Matrix, log: real -> real, i: nat, j: nat, row: seq<Edge>)
    ensures RunCells(rates, log, RowPairs(i, j)) == Success(row) <==>
      |row| == (if i < j then j - 1 else j) &&
      forall k :: 0 <= k < |row| ==> CellStep(rates, log, (i, RowColumn(i, k))) == Success(row[k])
  {
    RowPairsClosed(i, j);
    RunCellsPointwise(rates, log, RowPairs(i, j), row);
  }

  /** Once row i is done, the cells visited are those of rows 0 .. i. */
  lemma RowDone(n: nat, i: nat)
    requires i < n
    ensures PairsBefore(n, i) + RowPairs(i, n) == PairsBefore(n, i + 1)
  {
  }

  /** The constructor completes exactly when the matrix is admissible. */
  lemma InitSucceedsIffAdmissible(rates: Matrix, log: real -> real)
    ensures InitEdges(rates, log).Success? <==> Admissible(rates)
  {
    var n := |rates|;
    if n <= 4 {
      var ps := Pairs(n);
      PairsShape(n);
      RunCellsSuccess(rates, log, ps);
      if InitEdges(rates, log).Success? {
        forall i | 0 <= i < n
          ensures WidthNeeded(n, i) <= |rates[i]|
        {
          if WidthNeeded(n, i) > 0 {
            var j := WidthNeeded(n, i) - 1;
            PairVisitedOnce(n, i, j);
            assert CellStep(rates, log, ps[PairIndex(n, i, j)]).Success?;
          }
        }
        forall i, j | 0 <= i < n && 0 <= j < n && i != j
          ensures rates[i][j] > 0.0
        {
          PairVisitedOnce(n, i, j);
          assert CellStep(rates, log, ps[PairIndex(n, i, j)]).Success?;
        }
      } else {
        var k :| 0 <= k < |ps| && !CellStep(rates, log, ps[k]).Success?;
        if Admissible(rates) {
          AdmissibleCellStep(rates, log, ps[k].0, ps[k].1);
        }
      }
    }
  }

  /** More than four rows fail on the label lookup of the node list, before
      any cell is read. Otherwise the exception names an off-diagonal cell
      whose entry is missing (IndexError) or not positive (ValueError), and
      every cell the loop visits before it appends its edge. */
  lemma InitFailsAtFirstBadCell(rates: Matrix, log: real -> real)
    requires InitEdges(rates, log).Failure?
    ensures InitEdges(rates, log).error.KeyError? <==> |rates| > 4
    ensures InitEdges(rates, log).error.KeyError? ==> InitEdges(rates, log).error.key == 4
    ensures !InitEdges(rates, log).error.KeyError? ==>
      var e := InitEdges(rates, log).error;
      e.row < |rates| && e.col < |rates| && e.row != e.col &&
      (e.IndexError? <==> e.col >= |rates[e.row]|) &&
      (e.ValueError? <==> e.col < |rates[e.row]| && rates[e.row][e.col] <= 0.0) &&
      PairIndex(|rates|, e.row, e.col) < |Pairs(|rates|)| &&
      forall k :: 0 <= k < PairIndex(|rates|, e.row, e.col) ==>
        CellStep(rates, log, Pairs(|rates|)[k]).Success?
  {
    var n := |rates|;
    if n <= 4 {
      var ps := Pairs(n);
      PairsShape(n);
      RunCellsFailure(rates, log, ps);
      var k :| 0 <= k < |ps| && CellStep(rates, log, ps[k]) == Failure(InitEdges(rates, log).error) &&
        forall m :: 0 <= m < k ==> CellStep(rates, log, ps[m]).Success?;
      CellStepFailure(rates, log, ps[k]);
      PairVisitedOnce(n, ps[k].0, ps[k].1);
    }
  }

  /** A cell inside a matrix of at most four rows fails only on the matrix:
      IndexError when its entry is missing, ValueError when it is not
      positive. */
  lemma CellStepFailure(rates: Matrix, log: real -> real, p: Pair)
    requires |rates| <= 4 && p.0 < |rates| && p.1 < |rates|
    requires CellStep(rates, log, p).Failure?
    ensures var e := CellStep(rates, log, p).error;
      !e.KeyError? && e.row == p.0 && e.col == p.1 &&
      (e.IndexError? <==> p.1 >= |rates[p.0]|) &&
      (e.ValueError? <==> p.1 < |rates[p.0]| && rates[p.0][p.1] <= 0.0)
  {
    CurrencyIndexFacts();
  }

  /** Edge k is built from the k-th off-diagonal cell in row-major order:
      its source and target are the labels of the cell's row and column and
      its weight is -log of the rate there. There are n*(n-1) edges. */
  lemma InitEdgesAt(rates: Matrix, log: real -> real)
    requires InitEdges(rates, log).Success?
    ensures |InitEdges(rates, log).value| == |Pairs(|rates|)| == |rates| * (|rates| - 1)
    ensures forall k :: 0 <= k < |InitEdges(rates, log).value| ==>
      var p := Pairs(|rates|)[k];
      p.0 != p.1 && p.0 < |rates| && p.1 < |rates| &&
      p.0 in CurrencyIndex && p.1 in CurrencyIndex && p.1 < |rates[p.0]| &&
      InitEdges(rates, log).value[k] ==
        Edge(CurrencyIndex[p.0], CurrencyIndex[p.1], -log(rates[p.0][p.1]))
  {
    var n, ps := |rates|, Pairs(|rates|);
    PairsShape(n);
    RunCellsLength(rates, log, ps);
    forall k | 0 <= k < |InitEdges(rates, log).value|
      ensures ps[k].0 in CurrencyIndex && ps[k].1 in CurrencyIndex && ps[k].1 < |rates[ps[k].0]| &&
        InitEdges(rates, log).value[k] ==
          Edge(CurrencyIndex[ps[k].0], CurrencyIndex[ps[k].1], -log(rates[ps[k].0][ps[k].1]))
    {
      RunCellsAt(rates, log, ps, k);
    }
  }

  /** No edge joins a currency to itself. */
  lemma NoSelfEdges(rates: Matrix, log: real -> real)
    requires InitEdges(rates, log).Success?
    ensures forall k :: 0 <= k < |InitEdges(rates, log).value| ==>
      InitEdges(rates, log).value[k].source != InitEdges(rates, log).value[k].target
  {
    InitEdgesAt(rates, log);
    CurrencyIndexFacts();
  }

  /** Each ordered pair of distinct currencies i, j gets exactly one edge: the
      one at position PairIndex(n, i, j), weighted -log(rates[i][j]). */
  lemma EdgeExactlyOnce(rates: Matrix, log: real -> real, i: nat, j: nat)
    requires InitEdges(rates, log).Success? && i < |rates| && j < |rates| && i != j
    ensures i in CurrencyIndex && j in CurrencyIndex && j < |rates[i]|
    ensures 0 <= PairIndex(|rates|, i, j) < |InitEdges(rates, log).value|
    ensures InitEdges(rates, log).value[PairIndex(|rates|, i, j)] ==
      Edge(CurrencyIndex[i], CurrencyIndex[j], -log(rates[i][j]))
    ensures forall k ::
      (0 <= k < |InitEdges(rates, log).value| &&
       InitEdges(rates, log).value[k].source == CurrencyIndex[i] &&
       InitEdges(rates, log).value[k].target == CurrencyIndex[j]) ==>
      k == PairIndex(|rates|, i, j)
  {
    InitEdgesAt(rates, log);
    PairVisitedOnce(|rates|, i, j);
    CurrencyIndexFacts();
  }

  /** The edges come in row-major order: ordered by source label, then by
      target label. */
  lemma EdgesRowMajor(rates: Matrix, log: real -> real)
    requires InitEdges(rates, log).Success?
    ensures forall a, b :: 0 <= a < b < |InitEdges(rates, log).value| ==>
      var ea, eb := InitEdges(rates, log).value[a], InitEdges(rates, log).value[b];
      ea.source < eb.source || (ea.source == eb.source && ea.target < eb.target)
  {
    var n, es := |rates|, InitEdges(rates, log).value;
    InitEdgesAt(rates, log);
    PairsRowMajor(n);
    CurrencyIndexFacts();
    forall a, b | 0 <= a < b < |es|
      ensures es[a].source < es[b].source || (es[a].source == es[b].source && es[a].target < es[b].target)
    {
      assert Before(Pairs(n)[a], Pairs(n)[b]);
    }
  }

  /** The diagonal of the matrix is never read: two matrices that agree off
      the diagonal, entry for entry, raise the same exception or build the
      same edges. */
  lemma DiagonalIgnored(r1: Matrix, r2: Matrix, log: real -> real)
    requires |r1| == |r2|
    requires forall i, j :: 0 <= i < |r1| && 0 <= j < |r1| && i != j ==>
      (j < |r1[i]| <==> j < |r2[i]|) && (j < |r1[i]| ==> r1[i][j] == r2[i][j])
    ensures InitEdges(r1, log) == InitEdges(r2, log)
  {
    var n := |r1|;
    if n <= 4 {
      PairsShape(n);
      RunCellsSameSteps(r1, r2, log, Pairs(n));
    }
  }

  /** Two matrices on which every step of ps does the same run the same. */
  lemma {:induction false} RunCellsSameSteps(r1: Matrix, r2: Matrix, log: real -> real, ps: seq<Pair>)
    requires forall k :: 0 <= k < |ps| ==> CellStep(r1, log, ps[k]) == CellStep(r2, log, ps[k])
    ensures RunCells(r1, log, ps) == RunCells(r2, log, ps)
  {
    if ps != [] {
      var front := ps[..|ps| - 1];
      assert forall k :: 0 <= k < |front| ==> front[k] == ps[k];
      RunCellsSameSteps(r1, r2, log, front);
    }
  }

  // ---------------------------------------------------------------------
  // The graph object
  // ---------------------------------------------------------------------

  class CurrencyGraph {
    const n: nat
    const exchangeRates: Matrix
    const currencyIndex: map<int, char>
    const nodes: seq<char>
    var edges: seq<Edge>

    /** Builds the graph from an admissible matrix; `log` stands for math.log. */
    constructor (exchangeRates: Matrix, log: real -> real)
      requires Admissible(exchangeRates)
      ensures n == |exchangeRates| && this.exchangeRates == exchangeRates
      ensures currencyIndex == CurrencyIndex
      ensures |nodes| == n && forall i :: 0 <= i < n ==> nodes[i] == CurrencyIndex[i]
      ensures InitEdges(exchangeRates, log) == Success(edges)
    {
      n := |exchangeRates|;
      this.exchangeRates := exchangeRates;
      currencyIndex := CurrencyIndex;
      nodes := NodeLabels(|exchangeRates|).value;
      edges := [];
      new;
      AddEdges(log);
    }

    /** The nested loop of the constructor: appends, row by row, the edge of
        every off-diagonal cell to the empty edge list. */
    method AddEdges(log: real -> real)
      requires Admissible(exchangeRates) && n == |exchangeRates|
      requires currencyIndex == CurrencyIndex && edges == []
      modifies this`edges
      ensures InitEdges(exchangeRates, log) == Success(edges)
    {
      var i := 0;
      while i < n
        invariant i <= n
        invariant RunCells(exchangeRates, log, PairsBefore(n, i)) == Success(edges)
      {
        ghost var before := edges;
        AppendRowEdges(log, i);
        RowAppended(exchangeRates, log, n, i, before, edges);
        i := i + 1;
      }
    }

    /** The inner loop of the constructor for row i: appends to `edges` the
        edge of every off-diagonal cell of the row, in column order. */
    method AppendRowEdges(log: real -> real, i: nat)
      requires Admissible(exchangeRates) && i < n == |exchangeRates|
      requires currencyIndex == CurrencyIndex
      modifies this`edges
      ensures |old(edges)| <= |edges| && edges[..|old(edges)|] == old(edges)
      ensures RunCells(exchangeRates, log, RowPairs(i, n)) == Success(edges[|old(edges)|..])
    {
      ghost var start := |edges|;
      var j := 0;
      while j < n
        invariant j <= n
        invariant |edges| == start + if i < j then j - 1 else j
        invariant edges[..start] == old(edges)
        invariant forall k :: 0 <= k < |edges| - start ==>
          CellStep(exchangeRates, log, (i, RowColumn(i, k))) == Success(edges[start + k])
      {
        if i != j {
          AdmissibleCellStep(exchangeRates, log, i, j);
          edges := edges + [Edge(currencyIndex[i], currencyIndex[j], -log(exchangeRates[i][j]))];
        }
        j := j + 1;
      }
      RowRun(exchangeRates, log, i, n, edges[start..]);
    }
  }

  /** Calling `CurrencyGraph(rates)`: either the exception it raises, or the
      new graph. */
  method Create(rates: Matrix, log: real -> real) returns (r: Result<CurrencyGraph, InitError>)
    ensures r.Failure? <==> InitEdges(rates, log).Failure?
    ensures r.Failure? ==> r.error == InitEdges(rates, log).error
    ensures r.Success? ==>
      fresh(r.value) &&
      r.value.n == |rates| && r.value.exchangeRates == rates &&
      r.value.currencyIndex == CurrencyIndex &&
      |r.value.nodes| == |rates| &&
      (forall i :: 0 <= i < |rates| ==> r.value.nodes[i] == CurrencyIndex[i]) &&
      InitEdges(rates, log) == Success(r.value.edges)
  {
    InitSucceedsIffAdmissible(rates, log);
    if InitEdges(rates, log).Failure? {
      r := Failure(InitEdges(rates, log).error);
    } else {
      var g := new CurrencyGraph(rates, log);
      r := Success(g);
    }
  }

  // ---------------------------------------------------------------------
  // The module's first test matrix, and two boundary cases
  // ---------------------------------------------------------------------

  function Rates1(): Matrix
  {
    [[1.0, 0.651, 0.581], [1.531, 1.0, 0.952], [1.711, 1.049, 1.0]]
  }

  /** The first test matrix yields six edges, row by row, skipping the diagonal. */
  lemma Rates1Edges(log: real -> real)
    ensures InitEdges(Rates1(), log) == Success(
      [Edge('A', 'B', -log(0.651)), Edge('A', 'C', -log(0.581)),
       Edge('B', 'A', -log(1.531)), Edge('B', 'C', -log(0.952)),
       Edge('C', 'A', -log(1.711)), Edge('C', 'B', -log(1.049))])
  {
    var r := Rates1();
    var ps := [(0, 1), (0, 2), (1, 0), (1, 2), (2, 0), (2, 1)];
    var es := [Edge('A', 'B', -log(0.651)), Edge('A', 'C', -log(0.581)),
               Edge('B', 'A', -log(1.531)), Edge('B', 'C', -log(0.952)),
               Edge('C', 'A', -log(1.711)), Edge('C', 'B', -log(1.049))];
    assert Admissible(r);
    InitSucceedsIffAdmissible(r, log);
    InitEdgesAt(r, log);
    CurrencyIndexFacts();
    assert Pairs(3) == ps;
    var v := InitEdges(r, log).value;
    assert |v| == |es|;
    forall k | 0 <= k < 6
      ensures v[k] == es[k]
    {
    }
    assert v == es;
  }

  /** The last row may lack its diagonal entry, and diagonal entries need not
      be positive: neither is ever read. */
  lemma ShortLastRowAccepted(log: real -> real)
    ensures InitEdges([[0.0, 2.0], [0.5]], log).Success?
  {
    InitSucceedsIffAdmissible([[0.0, 2.0], [0.5]], log);
  }

  /** A zero off-diagonal rate fails in `log` at the first such cell in
      row-major order, even if a later row is too short. */
  lemma ZeroRateFails(log: real -> real)
    ensures InitEdges([[1.0, 2.0, 3.0], [0.0, 1.0, -1.0], [1.0]], log) == Failure(ValueError(1, 0))
  {
    var r := [[1.0, 2.0, 3.0], [0.0, 1.0, -1.0], [1.0]];
    var ps := [(0, 1), (0, 2), (1, 0), (1, 2), (2, 0), (2, 1)];
    CurrencyIndexFacts();
    assert Pairs(3) == ps;
    assert ps[..1] == [(0, 1)] && [(0, 1)][..0] == [];
    assert RunCells(r, log, ps[..1]).Success?;
    assert ps[..2][..1] == ps[..1];
    assert RunCells(r, log, ps[..2]).Success?;
    assert ps[..3][..2] == ps[..2];
    assert RunCells(r, log, ps[..3]) == Failure(ValueError(1, 0));
    assert ps[..4][..3] == ps[..3];
    assert RunCells(r, log, ps[..4]) == Failure(ValueError(1, 0));
    assert ps[..5][..4] == ps[..4];
    assert RunCells(r, log, ps[..5]) == Failure(ValueError(1, 0));
    assert ps[..5] == ps[..|ps| - 1];
  }
}
