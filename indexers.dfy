/**
 * funcyou/indexers.py: views of a matrix (a sequence of rows) that, indexed
 * by an integer, give a column, a wrapped diagonal or a wrapped anti-diagonal.
 * Each function here is `indexer(mtx)[idx]` consumed to the end; an index the
 * Python indexing rejects gives None (IndexError).
 *
 * The diagonal indexers compute `(i + idx) % l` and `(idx - i) % l` with
 * Python's `%`, which for a positive `l` is in [0, l); Dafny's `%` agrees with
 * it for a positive divisor.
 */
module Indexers {
  import opened Wrappers

  /** Python's `row[idx]`: a negative index counts from the end. */
  function PyIndex<T>(row: seq<T>, idx: int): (r: Option<T>)
  {
    if 0 <= idx < |row| then Some(row[idx])
    else if -|row| <= idx < 0 then Some(row[|row| + idx])
    else None
  }

  /** `column(mtx)[idx]`: the `idx`-th entry of every row, in row order. */
  function Column<T>(mtx: seq<seq<T>>, idx: int): (r: Option<seq<T>>)
    ensures r.Some? <==> forall i :: 0 <= i < |mtx| ==> -|mtx[i]| <= idx < |mtx[i]|
    ensures r.Some? ==> |r.value| == |mtx|
    ensures r.Some? ==> forall i :: 0 <= i < |mtx| ==>
      r.value[i] == mtx[i][if idx < 0 then |mtx[i]| + idx else idx]
  {
    if mtx == [] then Some([])
    else
      match (PyIndex(mtx[0], idx), Column(mtx[1..], idx))
      case (Some(x), Some(xs)) => Some([x] + xs)
      case _ => None
  }

  /** The column index `diag` (anti = false) or `adiag` (anti = true) uses in row `i`. */
  function WrappedIndex(l: nat, i: int, idx: int, anti: bool): (j: int)
    requires l > 0
  {
    if anti then (idx - i) % l else (i + idx) % l
  }

  /** Rows `i` to the end of a wrapped diagonal. */
  function WrappedFrom<T>(mtx: seq<seq<T>>, i: nat, idx: int, anti: bool): (r: Option<seq<T>>)
    requires 0 < |mtx| && i <= |mtx|
    ensures r.Some? <==> forall k :: i <= k < |mtx| ==> WrappedIndex(|mtx|, k, idx, anti) < |mtx[k]|
    ensures r.Some? ==> |r.value| == |mtx| - i
    ensures r.Some? ==> forall k :: i <= k < |mtx| ==>
      r.value[k - i] == mtx[k][WrappedIndex(|mtx|, k, idx, anti)]
    decreases |mtx| - i
  {
    if i == |mtx| then Some([])
    else
      var j := WrappedIndex(|mtx|, i, idx, anti);
      match WrappedFrom(mtx, i + 1, idx, anti)
      case Some(xs) => if j < |mtx[i]| then Some([mtx[i][j]] + xs) else None
      case None => None
  }

  /** `diag(mtx)[idx]`: row `i` contributes its entry `(i + idx) mod len(mtx)`. */
  function Diag<T>(mtx: seq<seq<T>>, idx: int): (r: Option<seq<T>>)
    ensures r.Some? <==> forall i :: 0 <= i < |mtx| ==> (i + idx) % |mtx| < |mtx[i]|
    ensures r.Some? ==> |r.value| == |mtx|
    ensures r.Some? ==> forall i :: 0 <= i < |mtx| ==> r.value[i] == mtx[i][(i + idx) % |mtx|]
  {
    if |mtx| == 0 then Some([]) else WrappedFrom(mtx, 0, idx, false)
  }

  /** `adiag(mtx)[idx]`: row `i` contributes its entry `(idx - i) mod len(mtx)`. */
  function Adiag<T>(mtx: seq<seq<T>>, idx: int): (r: Option<seq<T>>)
    ensures r.Some? <==> forall i :: 0 <= i < |mtx| ==> (idx - i) % |mtx| < |mtx[i]|
    ensures r.Some? ==> |r.value| == |mtx|
    ensures r.Some? ==> forall i :: 0 <= i < |mtx| ==> r.value[i] == mtx[i][(idx - i) % |mtx|]
  {
    if |mtx| == 0 then Some([]) else WrappedFrom(mtx, 0, idx, true)
  }

  /** Every row has length `n`. */
  predicate Rectangular<T>(mtx: seq<seq<T>>, n: nat) {
    forall i :: 0 <= i < |mtx| ==> |mtx[i]| == n
  }

  /** On rows of equal width, index `-k` is the column `width - k`. */
  lemma ColumnNegativeIndex<T>(mtx: seq<seq<T>>, width: nat, idx: int)
    requires Rectangular(mtx, width) && 0 <= width + idx && idx < 0
    ensures Column(mtx, idx) == Column(mtx, width + idx)
  {
    assert Column(mtx, idx).Some? && Column(mtx, width + idx).Some?;
    assert Column(mtx, idx).value == Column(mtx, width + idx).value;
  }

  /** Division by a positive `l` is unique: quotient `q` and remainder `r` in [0, l) are the only ones. */
  lemma {:induction false} ModUnique(a: int, l: int, q: int, r: int)
    requires l > 0 && a == l * q + r && 0 <= r < l
    ensures a % l == r
  {
    var q', r' := a / l, a % l;
    assert a == l * q' + r';
    if q' < q {
      assert l * (q - q') >= l by { MulAtLeast(l, q - q'); }
    } else if q < q' {
      assert l * (q' - q) >= l by { MulAtLeast(l, q' - q); }
    }
    assert l * q == l * q';
  }

  lemma MulAtLeast(l: int, k: int)
    requires l > 0 && k >= 1
    ensures l * k >= l
  {
  }

  lemma ModShift(a: int, l: int)
    requires l > 0
    ensures (a + l) % l == a % l
  {
    ModUnique(a + l, l, a / l + 1, a % l);
  }

  /** The diagonal indexers only use `idx` modulo `len(mtx)`. */
  lemma DiagonalsArePeriodic<T>(mtx: seq<seq<T>>, idx: int)
    requires |mtx| > 0
    ensures Diag(mtx, idx + |mtx|) == Diag(mtx, idx)
    ensures Adiag(mtx, idx + |mtx|) == Adiag(mtx, idx)
  {
    var l := |mtx|;
    forall i | 0 <= i < l
      ensures WrappedIndex(l, i, idx + l, false) == WrappedIndex(l, i, idx, false)
      ensures WrappedIndex(l, i, idx + l, true) == WrappedIndex(l, i, idx, true)
    {
      assert i + (idx + l) == (i + idx) + l && (idx + l) - i == (idx - i) + l;
      ModShift(i + idx, l);
      ModShift(idx - i, l);
    }
    if Diag(mtx, idx).Some? {
      assert Diag(mtx, idx + l).value == Diag(mtx, idx).value;
    }
    if Adiag(mtx, idx).Some? {
      assert Adiag(mtx, idx + l).value == Adiag(mtx, idx).value;
    }
  }

  /** In a square matrix, entry (i, j) lies at position i of diagonal j - i and of anti-diagonal i + j. */
  lemma EveryEntryOnOneDiagonal<T>(mtx: seq<seq<T>>, i: nat, j: nat)
    requires Rectangular(mtx, |mtx|) && i < |mtx| && j < |mtx|
    ensures Diag(mtx, j - i).Some? && Diag(mtx, j - i).value[i] == mtx[i][j]
    ensures Adiag(mtx, i + j).Some? && Adiag(mtx, i + j).value[i] == mtx[i][j]
  {
    ModUnique(j, |mtx|, 0, j);
    assert i + (j - i) == j && (i + j) - i == j;
  }

  const Sample: seq<seq<int>> := [[1, 2, 3], [4, 5, 6], [7, 8, 9]]

  /** The doctests of `column`, `diag` and `adiag`. */
  lemma Doctests()
    ensures Column(Sample, 0) == Some([1, 4, 7]) && Column(Sample, -1) == Some([3, 6, 9])
    ensures Diag(Sample, 0) == Some([1, 5, 9]) && Diag(Sample, 1) == Some([2, 6, 7])
    ensures Adiag(Sample, 0) == Some([1, 6, 8]) && Adiag(Sample, 2) == Some([3, 5, 7])
  {
    assert Rectangular(Sample, 3);
    assert Column(Sample, 0).value == [1, 4, 7];
    assert Column(Sample, -1).value == [3, 6, 9];
    assert Diag(Sample, 0).value == [1, 5, 9];
    assert Diag(Sample, 1).value == [2, 6, 7];
    assert Adiag(Sample, 0).value == [1, 6, 8];
    assert Adiag(Sample, 2).value == [3, 5, 7];
  }
}
