/** Labelled real matrices (the pandas DataFrames of the pipeline) and the
    "drop all-zero rows, then all-zero columns" step used three times. */
module Frames {
  import opened Labels

  /** Row labels, column labels, and one row of cells per row label. */
  datatype Frame = Frame(index: seq<string>, columns: seq<string>, values: seq<seq<real>>)

  /** Why a stage of the pipeline gives up. */
  datatype Error =
    | NoLengthRow       // the gene-length table has no row to read lengths from
    | WrongOrientation  // the normalised mutation matrix came out 0 x 0
    | EmptyGraph        // networkx: the pathway graph has no node at all
    | DuplicateNode     // networkx: the node list names a node twice

  datatype Result<T> = Ok(value: T) | Err(error: Error)

  predicate Shaped(f: Frame)
  {
    |f.values| == |f.index| && forall i :: 0 <= i < |f.values| ==> |f.values[i]| == |f.columns|
  }

  /** Shaped, with unique row labels and unique column labels. */
  predicate Labelled(f: Frame)
  {
    Shaped(f) && Distinct(f.index) && Distinct(f.columns)
  }

  predicate NonNegative(f: Frame)
    requires Shaped(f)
  {
    forall i, j :: 0 <= i < |f.values| && 0 <= j < |f.columns| ==> f.values[i][j] >= 0.0
  }

  predicate ZeroRow(row: seq<real>)
  {
    forall j :: 0 <= j < |row| ==> row[j] == 0.0
  }

  predicate ZeroColumn(f: Frame, j: nat)
    requires Shaped(f) && j < |f.columns|
  {
    forall i :: 0 <= i < |f.values| ==> f.values[i][j] == 0.0
  }

  predicate NoZeroRows(f: Frame)
  {
    forall i :: 0 <= i < |f.values| ==> !ZeroRow(f.values[i])
  }

  predicate NoZeroColumns(f: Frame)
    requires Shaped(f)
  {
    forall j :: 0 <= j < |f.columns| ==> !ZeroColumn(f, j)
  }

  /** Sum of a row, added up from the left. */
  function Sum(xs: seq<real>): real
  {
    if |xs| == 0 then 0.0 else Sum(xs[..|xs| - 1]) + xs[|xs| - 1]
  }

  lemma {:induction false} SumBounds(xs: seq<real>)
    requires forall j :: 0 <= j < |xs| ==> xs[j] >= 0.0
    ensures Sum(xs) >= 0.0
    ensures forall j :: 0 <= j < |xs| ==> Sum(xs) >= xs[j]
  {
    if |xs| != 0 {
      var init := xs[..|xs| - 1];
      SumBounds(init);
      assert forall j :: 0 <= j < |init| ==> xs[j] == init[j];
    }
  }

  /** A non-negative row that is not all zero has a positive sum. */
  lemma SumPositive(xs: seq<real>)
    requires forall j :: 0 <= j < |xs| ==> xs[j] >= 0.0
    requires !ZeroRow(xs)
    ensures Sum(xs) > 0.0
  {
    SumBounds(xs);
  }

  /** Every cell of a row divided by `c`. */
  function Scale(xs: seq<real>, c: real): (r: seq<real>)
    requires c != 0.0
    ensures |r| == |xs|
  {
    seq(|xs|, j requires 0 <= j < |xs| => xs[j] / c)
  }

  lemma {:induction false} SumScaled(xs: seq<real>, c: real)
    requires c != 0.0
    ensures Sum(Scale(xs, c)) == Sum(xs) / c
  {
    var ys := Scale(xs, c);
    if |xs| != 0 {
      var init := xs[..|xs| - 1];
      SumScaled(init, c);
      assert ys[..|ys| - 1] == Scale(init, c);
    }
  }

  /** A non-negative row that is not all zero, divided by its own sum, sums to 1. */
  lemma SumNormalised(xs: seq<real>)
    requires forall j :: 0 <= j < |xs| ==> xs[j] >= 0.0
    requires !ZeroRow(xs)
    ensures Sum(xs) > 0.0 && Sum(Scale(xs, Sum(xs))) == 1.0
  {
    SumPositive(xs);
    SumScaled(xs, Sum(xs));
    DivSelf(Sum(xs));
  }

  lemma DivByPositive(a: real, c: real)
    requires c > 0.0
    ensures a / c == 0.0 <==> a == 0.0
    ensures a >= 0.0 ==> a / c >= 0.0
  {
  }

  lemma DivSelf(x: real)
    requires x != 0.0
    ensures x / x == 1.0
  {
  }

  lemma {:induction false} SumOfZeros(xs: seq<real>)
    requires ZeroRow(xs)
    ensures Sum(xs) == 0.0
  {
    if |xs| != 0 {
      SumOfZeros(xs[..|xs| - 1]);
    }
  }

  function Transpose(f: Frame): (t: Frame)
    requires Shaped(f)
    ensures Shaped(t) && t.index == f.columns && t.columns == f.index
    ensures forall j, i :: 0 <= j < |t.values| && 0 <= i < |t.columns| ==> t.values[j][i] == f.values[i][j]
  {
    Frame(f.columns, f.index,
          seq(|f.columns|, j requires 0 <= j < |f.columns| =>
            seq(|f.index|, i requires 0 <= i < |f.index| => f.values[i][j])))
  }

  lemma TransposeTwice(f: Frame)
    requires Shaped(f)
    ensures Transpose(Transpose(f)) == f
  {
    var t := Transpose(Transpose(f));
    assert |t.values| == |f.values|;
    forall i | 0 <= i < |f.values|
      ensures t.values[i] == f.values[i]
    {
    }
  }

  /** Positions, in increasing order, of the rows that are not all zero. */
  function LiveRows(rows: seq<seq<real>>): (p: seq<nat>)
    ensures forall k :: 0 <= k < |p| ==> p[k] < |rows|
    ensures forall k, l :: 0 <= k < l < |p| ==> p[k] < p[l]
    ensures forall i :: 0 <= i < |rows| ==> (i in p <==> !ZeroRow(rows[i]))
    decreases |rows|
  {
    if |rows| == 0 then []
    else
      var p := LiveRows(rows[..|rows| - 1]);
      if ZeroRow(rows[|rows| - 1]) then p else p + [|rows| - 1]
  }

  /** Positions of the columns of `f` that are not all zero. */
  function LiveColumns(f: Frame): (q: seq<nat>)
    requires Shaped(f)
    ensures forall l :: 0 <= l < |q| ==> q[l] < |f.columns|
    ensures forall l, m :: 0 <= l < m < |q| ==> q[l] < q[m]
    ensures forall j :: 0 <= j < |f.columns| ==> (j in q <==> !ZeroColumn(f, j))
  {
    var t := Transpose(f);
    var q := LiveRows(t.values);
    assert forall j :: 0 <= j < |f.columns| ==> (ZeroRow(t.values[j]) <==> ZeroColumn(f, j));
    q
  }

  function Range(n: nat): (r: seq<nat>)
  {
    seq(n, i requires 0 <= i < n => i)
  }

  lemma {:induction false} LiveRowsAll(rows: seq<seq<real>>)
    requires forall i :: 0 <= i < |rows| ==> !ZeroRow(rows[i])
    ensures LiveRows(rows) == Range(|rows|)
  {
    if |rows| != 0 {
      LiveRowsAll(rows[..|rows| - 1]);
      assert Range(|rows|) == Range(|rows| - 1) + [|rows| - 1];
    }
  }

  /** No row survives when every row is all zero. */
  lemma {:induction false} LiveRowsNone(rows: seq<seq<real>>)
    requires forall i :: 0 <= i < |rows| ==> ZeroRow(rows[i])
    ensures LiveRows(rows) == []
    decreases |rows|
  {
    if |rows| > 0 {
      LiveRowsNone(rows[..|rows| - 1]);
    }
  }

  /** `LiveRows` looks at nothing but which rows are all zero. */
  lemma {:induction false} LiveRowsSameZeros(rows: seq<seq<real>>, rows': seq<seq<real>>)
    requires |rows| == |rows'|
    requires forall i :: 0 <= i < |rows| ==> (ZeroRow(rows[i]) <==> ZeroRow(rows'[i]))
    ensures LiveRows(rows) == LiveRows(rows')
  {
    if |rows| != 0 {
      LiveRowsSameZeros(rows[..|rows| - 1], rows'[..|rows| - 1]);
    }
  }

  /** The rows at positions `p`, in that order. */
  function SelectRows(f: Frame, p: seq<nat>): (r: Frame)
    requires Shaped(f)
    requires forall k :: 0 <= k < |p| ==> p[k] < |f.index|
    ensures Shaped(r) && r.columns == f.columns && |r.index| == |p|
    ensures forall k :: 0 <= k < |p| ==> r.index[k] == f.index[p[k]] && r.values[k] == f.values[p[k]]
  {
    Frame(seq(|p|, k requires 0 <= k < |p| => f.index[p[k]]), f.columns,
          seq(|p|, k requires 0 <= k < |p| => f.values[p[k]]))
  }

  /** The block of `f` at row positions `p` and column positions `q`. */
  function Submatrix(f: Frame, p: seq<nat>, q: seq<nat>): (r: Frame)
    requires Shaped(f)
    requires forall k :: 0 <= k < |p| ==> p[k] < |f.index|
    requires forall l :: 0 <= l < |q| ==> q[l] < |f.columns|
    ensures Shaped(r) && |r.index| == |p| && |r.columns| == |q|
  {
    Frame(seq(|p|, k requires 0 <= k < |p| => f.index[p[k]]),
          seq(|q|, l requires 0 <= l < |q| => f.columns[q[l]]),
          seq(|p|, k requires 0 <= k < |p| =>
            seq(|q|, l requires 0 <= l < |q| => f.values[p[k]][q[l]])))
  }

  /** `frame.drop(rows that are all zero)`: the surviving rows keep their order. */
  function DropZeroRows(f: Frame): (r: Frame)
    requires Shaped(f)
    ensures Shaped(r) && r.columns == f.columns && NoZeroRows(r)
    ensures NonNegative(f) ==> NonNegative(r)
  {
    SelectRows(f, LiveRows(f.values))
  }

  /** A row label survives `DropZeroRows` exactly when its row is not all zero. */
  lemma DropZeroRowsIndex(f: Frame, i: nat)
    requires Shaped(f) && Distinct(f.index) && i < |f.index|
    ensures f.index[i] in DropZeroRows(f).index <==> !ZeroRow(f.values[i])
  {
    var p := LiveRows(f.values);
    var r := DropZeroRows(f);
    if f.index[i] in r.index {
      var k :| 0 <= k < |r.index| && r.index[k] == f.index[i];
      assert p[k] == i;
    }
    if !ZeroRow(f.values[i]) {
      var k :| 0 <= k < |p| && p[k] == i;
      assert r.index[k] == f.index[i];
    }
  }

  /** The surviving rows keep their original relative order. */
  lemma DropZeroRowsOrder(f: Frame)
    requires Shaped(f) && Distinct(f.index)
    ensures var r := DropZeroRows(f);
            forall k, l :: 0 <= k < l < |r.index| ==> IndexOf(f.index, r.index[k]) < IndexOf(f.index, r.index[l])
  {
    var p := LiveRows(f.values);
    var r := DropZeroRows(f);
    forall k | 0 <= k < |r.index|
      ensures IndexOf(f.index, r.index[k]) == p[k]
    {
      IndexOfDistinct(f.index, p[k]);
    }
  }

  lemma DropZeroRowsNoOp(f: Frame)
    requires Shaped(f) && NoZeroRows(f)
    ensures DropZeroRows(f) == f
  {
    LiveRowsAll(f.values);
    var r := DropZeroRows(f);
    assert r.index == f.index;
    assert r.values == f.values;
  }

  /** Dropping all-zero rows leaves exactly the same columns all zero. */
  lemma DropZeroRowsKeepsZeroColumns(f: Frame, j: nat)
    requires Shaped(f) && j < |f.columns|
    ensures ZeroColumn(DropZeroRows(f), j) <==> ZeroColumn(f, j)
  {
    var p := LiveRows(f.values);
    var g := DropZeroRows(f);
    if !ZeroColumn(f, j) {
      var i :| 0 <= i < |f.values| && f.values[i][j] != 0.0;
      assert !ZeroRow(f.values[i]);
      var k :| 0 <= k < |p| && p[k] == i;
      assert g.values[k][j] != 0.0;
    }
  }

  /** Drop the all-zero rows, then (through a transpose) the all-zero columns,
      as the pipeline does at its three pruning points. */
  function Prune(f: Frame): (r: Frame)
    requires Shaped(f)
    ensures Shaped(r) && NoZeroRows(r) && NoZeroColumns(r)
  {
    var g := DropZeroRows(f);
    var h := DropZeroRows(Transpose(g));
    var r := Transpose(h);
    assert NoZeroColumns(r) by {
      forall l | 0 <= l < |r.columns|
        ensures !ZeroColumn(r, l)
      {
        assert !ZeroRow(h.values[l]);
        var k :| 0 <= k < |h.values[l]| && h.values[l][k] != 0.0;
        assert r.values[k][l] == h.values[l][k];
      }
    }
    assert NoZeroRows(r) by {
      forall k | 0 <= k < |r.values|
        ensures !ZeroRow(r.values[k])
      {
        var j :| 0 <= j < |g.columns| && g.values[k][j] != 0.0;
        var t := Transpose(g);
        assert !ZeroRow(t.values[j]);
        var q := LiveRows(t.values);
        var l :| 0 <= l < |q| && q[l] == j;
        assert r.values[k][l] == g.values[k][j];
      }
    }
    r
  }

  /** Pruning keeps exactly the rows of `f` that are not all zero and the
      columns of `f` that are not all zero, each in its original order, with
      every surviving cell unchanged. */
  lemma PruneSelects(f: Frame)
    requires Shaped(f)
    ensures Prune(f) == Submatrix(f, LiveRows(f.values), LiveColumns(f))
  {
    var p := LiveRows(f.values);
    var g := DropZeroRows(f);
    var tg := Transpose(g);
    var tf := Transpose(f);
    forall j | 0 <= j < |f.columns|
      ensures ZeroRow(tg.values[j]) <==> ZeroRow(tf.values[j])
    {
      DropZeroRowsKeepsZeroColumns(f, j);
      assert ZeroRow(tg.values[j]) <==> ZeroColumn(g, j);
      assert ZeroRow(tf.values[j]) <==> ZeroColumn(f, j);
    }
    LiveRowsSameZeros(tg.values, tf.values);
    var q := LiveColumns(f);
    assert LiveRows(tg.values) == q;
    var r := Prune(f);
    var s := Submatrix(f, p, q);
    assert r.index == s.index;
    assert r.columns == s.columns;
    forall k | 0 <= k < |p|
      ensures r.values[k] == s.values[k]
    {
      forall l | 0 <= l < |q|
        ensures r.values[k][l] == s.values[k][l]
      {
      }
    }
    assert r.values == s.values;
  }

  /** A frame with no all-zero row and no all-zero column is left alone. */
  lemma PruneNoOp(f: Frame)
    requires Shaped(f) && NoZeroRows(f) && NoZeroColumns(f)
    ensures Prune(f) == f
  {
    DropZeroRowsNoOp(f);
    var t := Transpose(f);
    forall j | 0 <= j < |t.values|
      ensures !ZeroRow(t.values[j])
    {
      assert !ZeroColumn(f, j);
      var i :| 0 <= i < |f.values| && f.values[i][j] != 0.0;
      assert t.values[j][i] != 0.0;
    }
    DropZeroRowsNoOp(t);
    TransposeTwice(f);
    calc {
      Prune(f);
      Transpose(DropZeroRows(Transpose(DropZeroRows(f))));
      Transpose(DropZeroRows(t));
      Transpose(t);
      f;
    }
  }

  /** Pruning twice is pruning once. */
  lemma PruneIdempotent(f: Frame)
    requires Shaped(f)
    ensures Prune(Prune(f)) == Prune(f)
  {
    PruneNoOp(Prune(f));
  }

  /** A frame with no all-zero column loses only its all-zero rows. */
  lemma PruneKeepsColumns(f: Frame)
    requires Shaped(f) && NoZeroColumns(f)
    ensures Prune(f) == DropZeroRows(f)
  {
    var g := DropZeroRows(f);
    forall j | 0 <= j < |g.columns|
      ensures !ZeroColumn(g, j)
    {
      DropZeroRowsKeepsZeroColumns(f, j);
    }
    PruneNoOp(g);
    DropZeroRowsNoOp(g);
  }

  /** Pruning only removes labels. */
  lemma PruneLabelsFrom(f: Frame)
    requires Shaped(f)
    ensures forall x :: x in Prune(f).index ==> x in f.index
    ensures forall x :: x in Prune(f).columns ==> x in f.columns
  {
    PruneSelects(f);
    var r := Prune(f);
    var p := LiveRows(f.values);
    var q := LiveColumns(f);
    assert forall k :: 0 <= k < |p| ==> r.index[k] == f.index[p[k]];
    assert forall l :: 0 <= l < |q| ==> r.columns[l] == f.columns[q[l]];
  }

  /** `f[labels]`: the columns named by `labels`, in that order. */
  function SelectColumns(f: Frame, labels: seq<string>): (r: Frame)
    requires Shaped(f) && forall l :: 0 <= l < |labels| ==> labels[l] in f.columns
    ensures Shaped(r) && r.index == f.index && r.columns == labels
    ensures forall i, l :: 0 <= i < |r.values| && 0 <= l < |labels| ==>
              r.values[i][l] == f.values[i][IndexOf(f.columns, labels[l])]
  {
    Frame(f.index, labels,
          seq(|f.index|, i requires 0 <= i < |f.index| =>
            seq(|labels|, l requires 0 <= l < |labels| => f.values[i][IndexOf(f.columns, labels[l])])))
  }

  /** `f.sum()`: the total of each column. */
  function ColumnTotals(f: Frame): (totals: seq<real>)
    requires Shaped(f)
    ensures |totals| == |f.columns|
  {
    var t := Transpose(f);
    seq(|f.columns|, j requires 0 <= j < |f.columns| => Sum(t.values[j]))
  }

  /** A non-negative column that is not all zero has a positive total. */
  lemma ColumnTotalsPositive(f: Frame)
    requires Shaped(f) && NonNegative(f) && NoZeroColumns(f)
    ensures forall j :: 0 <= j < |f.columns| ==> ColumnTotals(f)[j] > 0.0
  {
    var t := Transpose(f);
    forall j | 0 <= j < |f.columns|
      ensures ColumnTotals(f)[j] > 0.0
    {
      assert !ZeroColumn(f, j);
      var i :| 0 <= i < |f.values| && f.values[i][j] != 0.0;
      assert t.values[j][i] != 0.0;
      SumPositive(t.values[j]);
    }
  }

  /** `f.div(d)`: column `j` divided by `d[j]`. */
  function DivideColumns(f: Frame, d: seq<real>): (r: Frame)
    requires Shaped(f) && |d| == |f.columns| && forall j :: 0 <= j < |d| ==> d[j] != 0.0
    ensures Shaped(r) && r.index == f.index && r.columns == f.columns
  {
    Frame(f.index, f.columns,
          seq(|f.index|, i requires 0 <= i < |f.index| =>
            seq(|f.columns|, j requires 0 <= j < |f.columns| => f.values[i][j] / d[j])))
  }

  /** `f.div(d, axis=0)`: row `i` divided by `d[i]`. */
  function DivideRows(f: Frame, d: seq<real>): (r: Frame)
    requires Shaped(f) && |d| == |f.index| && forall i :: 0 <= i < |d| ==> d[i] != 0.0
    ensures Shaped(r) && r.index == f.index && r.columns == f.columns
  {
    Frame(f.index, f.columns,
          seq(|f.index|, i requires 0 <= i < |f.index| => Scale(f.values[i], d[i])))
  }

  /** `a.dot(b)`: the matrix product, with the columns of `a` matched to the
      rows of `b` by label. */
  function Dot(a: Frame, b: Frame): (r: Frame)
    requires Shaped(a) && Shaped(b) && a.columns == b.index
    ensures Shaped(r) && r.index == a.index && r.columns == b.columns
  {
    Frame(a.index, b.columns,
          seq(|a.index|, k requires 0 <= k < |a.index| =>
            seq(|b.columns|, s requires 0 <= s < |b.columns| =>
              Sum(seq(|a.columns|, j requires 0 <= j < |a.columns| => a.values[k][j] * b.values[j][s])))))
  }

  lemma DivideColumnsCell(f: Frame, d: seq<real>, i: nat, j: nat)
    requires Shaped(f) && |d| == |f.columns| && forall j :: 0 <= j < |d| ==> d[j] != 0.0
    requires i < |f.index| && j < |f.columns|
    ensures DivideColumns(f, d).values[i][j] == f.values[i][j] / d[j]
  {
  }

  lemma DivideRowsCell(f: Frame, d: seq<real>, i: nat, j: nat)
    requires Shaped(f) && |d| == |f.index| && forall i :: 0 <= i < |d| ==> d[i] != 0.0
    requires i < |f.index| && j < |f.columns|
    ensures DivideRows(f, d).values[i][j] == f.values[i][j] / d[i]
  {
  }

  lemma DotCell(a: Frame, b: Frame, k: nat, s: nat)
    requires Shaped(a) && Shaped(b) && a.columns == b.index
    requires k < |a.index| && s < |b.columns|
    ensures Dot(a, b).values[k][s] ==
            Sum(seq(|a.columns|, j requires 0 <= j < |a.columns| => a.values[k][j] * b.values[j][s]))
  {
  }

  /** The products summed into cell `(k, s)` of `a.dot(b.div(d).transpose())`. */
  function Weighted(a: Frame, b: Frame, d: seq<real>, k: nat, s: nat): (terms: seq<real>)
    requires Shaped(a) && Shaped(b) && a.columns == b.columns
    requires |d| == |b.columns| && forall j :: 0 <= j < |d| ==> d[j] != 0.0
    requires k < |a.index| && s < |b.index|
    ensures |terms| == |b.columns|
  {
    seq(|b.columns|, j requires 0 <= j < |b.columns| => a.values[k][j] * (b.values[s][j] / d[j]))
  }

  /** A cell of `a.dot(b.div(d).transpose()).div(e, axis=0)`, written out. */
  lemma WeightedCell(a: Frame, b: Frame, d: seq<real>, e: seq<real>, k: nat, s: nat)
    requires Shaped(a) && Shaped(b) && a.columns == b.columns
    requires |d| == |b.columns| && forall j :: 0 <= j < |d| ==> d[j] != 0.0
    requires |e| == |a.index| && forall i :: 0 <= i < |e| ==> e[i] != 0.0
    requires k < |a.index| && s < |b.index|
    ensures DivideRows(Dot(a, Transpose(DivideColumns(b, d))), e).values[k][s] == Sum(Weighted(a, b, d, k, s)) / e[k]
  {
    var shared := DivideColumns(b, d);
    var rates := Transpose(shared);
    var dot := Dot(a, rates);
    DivideRowsCell(dot, e, k, s);
    DotCell(a, rates, k, s);
    var products := seq(|a.columns|, j requires 0 <= j < |a.columns| => a.values[k][j] * rates.values[j][s]);
    var terms := Weighted(a, b, d, k, s);
    forall j | 0 <= j < |b.columns|
      ensures products[j] == terms[j]
    {
      DivideColumnsCell(b, d, s, j);
      assert rates.values[j][s] == shared.values[s][j];
    }
    assert products == terms;
  }
}
