/** `corgenelength`: mutation counts (samples x genes) normalised by gene
    length and, optionally, by each sample's total length-normalised burden. */
module GeneLength {
  import opened Labels
  import opened Frames

  /** Name of the temporary per-sample total column. */
  const SumColumn: string := "sum"

  /** The genes kept: cancer genes that are columns of both tables. */
  function CommonGenes(mut: Frame, cangenes: set<string>, esize: Frame): (genes: set<string>)
    ensures forall g :: g in genes <==> g in cangenes && g in mut.columns && g in esize.columns
  {
    cangenes * Elems(mut.columns) * Elems(esize.columns)
  }

  /** Every gene length in the first row of the length table is positive. */
  predicate PositiveLengths(esize: Frame)
  {
    Shaped(esize) && |esize.index| > 0 && forall j :: 0 <= j < |esize.columns| ==> esize.values[0][j] > 0.0
  }

  /** What the pipeline takes for granted about its two tables: unique labels,
      counts that are never negative and lengths that are positive. */
  predicate ValidTables(mut: Frame, esize: Frame)
  {
    Labelled(mut) && Labelled(esize) && NonNegative(mut) && (|esize.index| > 0 ==> PositiveLengths(esize))
  }

  /** Raw count of gene `g` in the sample at row `i`. */
  function Count(mut: Frame, i: nat, g: string): real
    requires Shaped(mut) && i < |mut.index| && g in mut.columns
  {
    mut.values[i][IndexOf(mut.columns, g)]
  }

  /** Length of gene `g`, read from the first row of the length table. */
  function Length(esize: Frame, g: string): (len: real)
    requires PositiveLengths(esize) && g in esize.columns
    ensures len > 0.0
  {
    esize.values[0][IndexOf(esize.columns, g)]
  }

  /** A sample has a non-zero count for some gene of `genes`. */
  predicate Mutated(mut: Frame, i: nat, genes: set<string>)
    requires Shaped(mut) && i < |mut.index|
  {
    exists j :: 0 <= j < |mut.columns| && mut.columns[j] in genes && mut.values[i][j] != 0.0
  }

  /** Every count divided by its gene's length, over the columns `genes`. */
  function PerLength(mut: Frame, esize: Frame, genes: seq<string>): (r: Frame)
    requires ValidTables(mut, esize) && PositiveLengths(esize)
    requires forall l :: 0 <= l < |genes| ==> genes[l] in mut.columns && genes[l] in esize.columns
    ensures Shaped(r) && r.index == mut.index && r.columns == genes && NonNegative(r)
  {
    Frame(mut.index, genes,
          seq(|mut.index|, i requires 0 <= i < |mut.index| =>
            seq(|genes|, l requires 0 <= l < |genes| => Count(mut, i, genes[l]) / Length(esize, genes[l]))))
  }

  /** Length-normalised rates of the samples that have at least one mutation
      among the kept genes (lines 19-31), with the genes in sorted order. */
  function Rates(mut: Frame, cangenes: set<string>, esize: Frame): (r: Frame)
    requires ValidTables(mut, esize) && PositiveLengths(esize)
    ensures Shaped(r) && NoZeroRows(r) && NonNegative(r)
  {
    var genes := SortSet(CommonGenes(mut, cangenes, esize));
    DropZeroRows(PerLength(mut, esize, genes))
  }

  /** Each row divided by its own total (lines 34-37, with the temporary
      column kept apart from the genes). */
  function NormaliseRows(f: Frame): (r: Frame)
    requires Shaped(f) && NonNegative(f) && NoZeroRows(f)
    ensures Shaped(r) && r.index == f.index && r.columns == f.columns
    ensures NoZeroRows(r)
    ensures forall i :: 0 <= i < |r.values| ==> Sum(r.values[i]) == 1.0
  {
    var r := Frame(f.index, f.columns,
                   seq(|f.index|, i requires 0 <= i < |f.index| =>
                     SumPositive(f.values[i]);
                     Scale(f.values[i], Sum(f.values[i]))));
    assert forall i :: 0 <= i < |r.values| ==> Sum(r.values[i]) == 1.0 by {
      forall i | 0 <= i < |r.values|
        ensures Sum(r.values[i]) == 1.0
      {
        SumNormalised(f.values[i]);
        assert r.values[i] == Scale(f.values[i], Sum(f.values[i]));
      }
    }
    assert NoZeroRows(r) by {
      forall i | 0 <= i < |r.values|
        ensures !ZeroRow(r.values[i])
      {
        SumPositive(f.values[i]);
        var j :| 0 <= j < |f.values[i]| && f.values[i][j] != 0.0;
        assert r.values[i][j] == f.values[i][j] / Sum(f.values[i]);
      }
    }
    r
  }

  /** Lines 34-37 as written: the temporary column is named "sum", so a gene of
      that name is overwritten by the row total and then dropped with it. */
  function NormaliseRowsAsWritten(f: Frame): (r: Frame)
    requires Shaped(f) && NonNegative(f) && NoZeroRows(f)
    ensures Shaped(r) && r.index == f.index
    ensures SumColumn !in f.columns ==> r == NormaliseRows(f)
    ensures SumColumn in f.columns && Distinct(f.columns) ==> SumColumn !in r.columns
  {
    var scaled := NormaliseRows(f);
    if SumColumn in f.columns then
      var k := IndexOf(f.columns, SumColumn);
      var r := Frame(f.index, f.columns[..k] + f.columns[k + 1..],
                     seq(|f.index|, i requires 0 <= i < |f.index| =>
                       scaled.values[i][..k] + scaled.values[i][k + 1..]));
      assert Distinct(f.columns) ==> SumColumn !in r.columns by {
        if Distinct(f.columns) {
          forall m | 0 <= m < |r.columns|
            ensures r.columns[m] != SumColumn
          {
            if m < k {
              assert r.columns[m] == f.columns[m];
            } else {
              assert r.columns[m] == f.columns[m + 1];
            }
          }
        }
      }
      r
    else
      scaled
  }

  /** A sample with a count of 1.0 for `TP53` and 1.0 for a gene named "sum":
      as written, the "sum" column is lost and the remaining row totals 0.5;
      the corrected step keeps both genes and the row totals 1. */
  lemma SumGeneClobbered()
    ensures var f := Frame(["s1"], ["TP53", SumColumn], [[1.0, 1.0]]);
            && Shaped(f) && NonNegative(f) && NoZeroRows(f)
            && NormaliseRowsAsWritten(f).columns == ["TP53"]
            && Sum(NormaliseRowsAsWritten(f).values[0]) == 0.5
            && NormaliseRows(f).columns == ["TP53", SumColumn]
            && Sum(NormaliseRows(f).values[0]) == 1.0
  {
    var f := Frame(["s1"], ["TP53", SumColumn], [[1.0, 1.0]]);
    assert f.values[0][0] != 0.0;
    assert IndexOf(f.columns, SumColumn) == 1;
    var row := NormaliseRows(f).values[0];
    assert Sum(f.values[0]) == 2.0;
    assert row == [0.5, 0.5];
    assert NormaliseRowsAsWritten(f).values[0] == [0.5];
    assert Sum([0.5]) == Sum([]) + 0.5;
  }

  /** `corgenelength(mut, cangenes, esize, normbysample)`. */
  function CorGeneLength(mut: Frame, cangenes: set<string>, esize: Frame, normBySample: bool): (r: Result<Frame>)
    requires ValidTables(mut, esize)
    ensures r.Ok? ==> Shaped(r.value) && NoZeroRows(r.value)
  {
    if |esize.index| == 0 then Err(NoLengthRow)
    else
      var rates := Rates(mut, cangenes, esize);
      var f := if normBySample then NormaliseRows(rates) else rates;
      if |f.index| == 0 && |f.columns| == 0 then Err(WrongOrientation) else Ok(f)
  }

  /** Reading the first length row fails exactly when the table has no rows, and
      the orientation assertion fails exactly when no gene is kept: then every
      sample is dropped as all zero and the result is 0 x 0; with one gene or
      more it never fails, even when every sample is dropped. */
  lemma CorGeneLengthFails(mut: Frame, cangenes: set<string>, esize: Frame, normBySample: bool)
    requires ValidTables(mut, esize)
    ensures CorGeneLength(mut, cangenes, esize, normBySample) == Err(NoLengthRow) <==> |esize.index| == 0
    ensures CorGeneLength(mut, cangenes, esize, normBySample) == Err(WrongOrientation)
            <==> |esize.index| > 0 && CommonGenes(mut, cangenes, esize) == {}
  {
    if |esize.index| > 0 {
      var genes := SortSet(CommonGenes(mut, cangenes, esize));
      var scaled := PerLength(mut, esize, genes);
      var p := LiveRows(scaled.values);
      if CommonGenes(mut, cangenes, esize) == {} {
        assert forall i :: 0 <= i < |scaled.values| ==> ZeroRow(scaled.values[i]);
        LiveRowsNone(scaled.values);
      } else {
        assert |Rates(mut, cangenes, esize).columns| > 0;
      }
    }
  }

  /** The columns are exactly the sorted cancer genes that both tables have. */
  lemma CorGeneLengthColumns(mut: Frame, cangenes: set<string>, esize: Frame, normBySample: bool)
    requires ValidTables(mut, esize)
    requires CorGeneLength(mut, cangenes, esize, normBySample).Ok?
    ensures var f := CorGeneLength(mut, cangenes, esize, normBySample).value;
            && Sorted(f.columns)
            && forall g :: g in f.columns <==> g in cangenes && g in mut.columns && g in esize.columns
  {
  }

  /** A sample's length-normalised row is all zero exactly when it has no
      non-zero count among the kept genes (lengths are positive). */
  lemma PerLengthZeroRow(mut: Frame, cangenes: set<string>, esize: Frame, i: nat)
    requires ValidTables(mut, esize) && PositiveLengths(esize) && i < |mut.index|
    ensures var scaled := PerLength(mut, esize, SortSet(CommonGenes(mut, cangenes, esize)));
            !ZeroRow(scaled.values[i]) <==> Mutated(mut, i, CommonGenes(mut, cangenes, esize))
  {
    var common := CommonGenes(mut, cangenes, esize);
    PerLengthRowLive(mut, esize, SortSet(common), common, i);
  }

  lemma PerLengthRowLive(mut: Frame, esize: Frame, genes: seq<string>, common: set<string>, i: nat)
    requires ValidTables(mut, esize) && PositiveLengths(esize) && i < |mut.index|
    requires forall l :: 0 <= l < |genes| ==> genes[l] in mut.columns && genes[l] in esize.columns
    requires forall g :: g in common <==> g in genes
    ensures !ZeroRow(PerLength(mut, esize, genes).values[i]) <==> Mutated(mut, i, common)
  {
    if !ZeroRow(PerLength(mut, esize, genes).values[i]) {
      LiveRowMutated(mut, esize, genes, common, i);
    }
    if Mutated(mut, i, common) {
      MutatedRowLive(mut, esize, genes, common, i);
    }
  }

  lemma LiveRowMutated(mut: Frame, esize: Frame, genes: seq<string>, common: set<string>, i: nat)
    requires ValidTables(mut, esize) && PositiveLengths(esize) && i < |mut.index|
    requires forall l :: 0 <= l < |genes| ==> genes[l] in mut.columns && genes[l] in esize.columns
    requires forall g :: g in common <==> g in genes
    requires !ZeroRow(PerLength(mut, esize, genes).values[i])
    ensures Mutated(mut, i, common)
  {
    var row := PerLength(mut, esize, genes).values[i];
    var l :| 0 <= l < |genes| && row[l] != 0.0;
    var j := IndexOf(mut.columns, genes[l]);
    assert row[l] == mut.values[i][j] / Length(esize, genes[l]);
    assert mut.columns[j] in common && mut.values[i][j] != 0.0;
  }

  lemma MutatedRowLive(mut: Frame, esize: Frame, genes: seq<string>, common: set<string>, i: nat)
    requires ValidTables(mut, esize) && PositiveLengths(esize) && i < |mut.index|
    requires forall l :: 0 <= l < |genes| ==> genes[l] in mut.columns && genes[l] in esize.columns
    requires forall g :: g in common <==> g in genes
    requires Mutated(mut, i, common)
    ensures !ZeroRow(PerLength(mut, esize, genes).values[i])
  {
    var row := PerLength(mut, esize, genes).values[i];
    var j :| 0 <= j < |mut.columns| && mut.columns[j] in common && mut.values[i][j] != 0.0;
    var l :| 0 <= l < |genes| && genes[l] == mut.columns[j];
    IndexOfDistinct(mut.columns, j);
    DivByPositive(mut.values[i][j], Length(esize, genes[l]));
    assert row[l] != 0.0;
  }

  /** A sample survives exactly when it has a non-zero count for a kept gene,
      and the survivors keep their relative order. */
  lemma RatesSamples(mut: Frame, cangenes: set<string>, esize: Frame)
    requires ValidTables(mut, esize) && PositiveLengths(esize)
    ensures var f := Rates(mut, cangenes, esize);
            && (forall k :: 0 <= k < |f.index| ==> f.index[k] in mut.index)
            && (forall i :: 0 <= i < |mut.index| ==>
                  (mut.index[i] in f.index <==> Mutated(mut, i, CommonGenes(mut, cangenes, esize))))
            && (forall k, l :: 0 <= k < l < |f.index| ==> IndexOf(mut.index, f.index[k]) < IndexOf(mut.index, f.index[l]))
  {
    var common := CommonGenes(mut, cangenes, esize);
    var scaled := PerLength(mut, esize, SortSet(common));
    DropZeroRowsOrder(scaled);
    forall i | 0 <= i < |mut.index|
      ensures mut.index[i] in Rates(mut, cangenes, esize).index <==> Mutated(mut, i, common)
    {
      PerLengthZeroRow(mut, cangenes, esize, i);
      DropZeroRowsIndex(scaled, i);
    }
  }

  /** Each cell is the sample's raw count divided by the gene's length. */
  lemma RatesCells(mut: Frame, cangenes: set<string>, esize: Frame)
    requires ValidTables(mut, esize) && PositiveLengths(esize)
    ensures var f := Rates(mut, cangenes, esize);
            forall k, l :: 0 <= k < |f.index| && 0 <= l < |f.columns| ==>
              f.index[k] in mut.index && f.columns[l] in mut.columns && f.columns[l] in esize.columns &&
              f.values[k][l] == Count(mut, IndexOf(mut.index, f.index[k]), f.columns[l]) / Length(esize, f.columns[l])
  {
    var genes := SortSet(CommonGenes(mut, cangenes, esize));
    var p := LiveRows(PerLength(mut, esize, genes).values);
    var f := Rates(mut, cangenes, esize);
    forall k | 0 <= k < |f.index|
      ensures IndexOf(mut.index, f.index[k]) == p[k]
    {
      IndexOfDistinct(mut.index, p[k]);
    }
  }

  /** Without per-sample normalisation, the surviving samples, in their original
      order, hold count / length for every kept gene. */
  lemma CorGeneLengthRates(mut: Frame, cangenes: set<string>, esize: Frame)
    requires ValidTables(mut, esize)
    requires CorGeneLength(mut, cangenes, esize, false).Ok?
    ensures var f := CorGeneLength(mut, cangenes, esize, false).value;
            && (forall i :: 0 <= i < |mut.index| ==>
                  (mut.index[i] in f.index <==> Mutated(mut, i, CommonGenes(mut, cangenes, esize))))
            && (forall k, l :: 0 <= k < l < |f.index| ==>
                  f.index[k] in mut.index && f.index[l] in mut.index &&
                  IndexOf(mut.index, f.index[k]) < IndexOf(mut.index, f.index[l]))
            && (forall k, l :: 0 <= k < |f.index| && 0 <= l < |f.columns| ==>
                  f.index[k] in mut.index && f.columns[l] in mut.columns && f.columns[l] in esize.columns &&
                  f.values[k][l] == Count(mut, IndexOf(mut.index, f.index[k]), f.columns[l]) / Length(esize, f.columns[l]))
  {
    RatesSamples(mut, cangenes, esize);
    RatesCells(mut, cangenes, esize);
  }

  /** Per-sample normalisation keeps the same samples and genes and divides each
      rate by the sample's total, so that every row sums to exactly 1. */
  lemma CorGeneLengthProfiles(mut: Frame, cangenes: set<string>, esize: Frame)
    requires ValidTables(mut, esize)
    ensures CorGeneLength(mut, cangenes, esize, true).Ok? == CorGeneLength(mut, cangenes, esize, false).Ok?
    ensures CorGeneLength(mut, cangenes, esize, false).Ok? ==>
            var u := CorGeneLength(mut, cangenes, esize, false).value;
            var n := CorGeneLength(mut, cangenes, esize, true).value;
            && n.index == u.index && n.columns == u.columns
            && (forall k :: 0 <= k < |n.values| ==> Sum(n.values[k]) == 1.0)
            && (forall k, l :: 0 <= k < |n.values| && 0 <= l < |n.columns| ==>
                  Sum(u.values[k]) > 0.0 && n.values[k][l] == u.values[k][l] / Sum(u.values[k]))
  {
    if CorGeneLength(mut, cangenes, esize, false).Ok? {
      var u := CorGeneLength(mut, cangenes, esize, false).value;
      forall k | 0 <= k < |u.values|
        ensures Sum(u.values[k]) > 0.0
      {
        SumPositive(u.values[k]);
      }
    }
  }

  /** The kept samples are distinct, as the samples of the mutation table are. */
  lemma CorGeneLengthSamplesDistinct(mut: Frame, cangenes: set<string>, esize: Frame, normBySample: bool)
    requires ValidTables(mut, esize)
    requires CorGeneLength(mut, cangenes, esize, normBySample).Ok?
    ensures Distinct(CorGeneLength(mut, cangenes, esize, normBySample).value.index)
  {
    CorGeneLengthProfiles(mut, cangenes, esize);
    CorGeneLengthRates(mut, cangenes, esize);
  }
}
