/** `desparsify`: spreads each sample's gene mutation rates over the pathways
    that list the genes, giving one score per pathway and sample. */
module Desparsify {
  import opened Labels
  import opened Frames
  import GeneLength
  import Gmt

  /** What the aggregation needs of the pathway matrix: unique labels,
      non-negative cells, and a non-zero entry in every gene column. */
  predicate ValidSignature(sign: Frame)
  {
    Labelled(sign) && NonNegative(sign) && NoZeroColumns(sign)
  }

  /** `genes_ms`: the genes that have both a mutation rate and a pathway
      column, sorted. */
  function MatchedGenes(mutrate: Frame, sign: Frame): (genes: seq<string>)
    ensures Sorted(genes)
    ensures forall g :: g in genes <==> g in mutrate.columns && g in sign.columns
  {
    SortSet(Elems(mutrate.columns) * Elems(sign.columns))
  }

  /** `sm[p]`: the number of genes of pathway `p`, taken from the pathway
      matrix before it is matched with the mutation data. */
  function PathwaySize(sign: Frame, p: string): (size: real)
    requires Shaped(sign) && p in sign.index
    ensures NonNegative(sign) ==> size >= 0.0
  {
    var row := sign.values[IndexOf(sign.index, p)];
    assert NonNegative(sign) ==> Sum(row) >= 0.0 by {
      if NonNegative(sign) {
        SumBounds(row);
      }
    }
    Sum(row)
  }

  /** `mt`: the mutation rates restricted to the matched genes. */
  function MatchedRates(mutrate: Frame, sign: Frame): (mt: Frame)
    requires Shaped(mutrate)
    ensures Shaped(mt) && mt.index == mutrate.index && mt.columns == MatchedGenes(mutrate, sign)
  {
    SelectColumns(mutrate, MatchedGenes(mutrate, sign))
  }

  /** The pathway matrix restricted to the matched genes. */
  function MatchedSignature(mutrate: Frame, sign: Frame): (ms: Frame)
    requires ValidSignature(sign)
    ensures Shaped(ms) && ms.index == sign.index && ms.columns == MatchedGenes(mutrate, sign)
    ensures NonNegative(ms) && NoZeroColumns(ms)
  {
    var genes := MatchedGenes(mutrate, sign);
    var ms := SelectColumns(sign, genes);
    assert NoZeroColumns(ms) by {
      forall l | 0 <= l < |genes|
        ensures !ZeroColumn(ms, l)
      {
        var j := IndexOf(sign.columns, genes[l]);
        assert !ZeroColumn(sign, j);
        var i :| 0 <= i < |sign.values| && sign.values[i][j] != 0.0;
        assert ms.values[i][l] != 0.0;
      }
    }
    ms
  }

  /** `genefreq`: for each matched gene, the total of its pathway column. */
  function GeneFrequency(mutrate: Frame, sign: Frame): (freq: seq<real>)
    requires ValidSignature(sign)
    ensures |freq| == |MatchedGenes(mutrate, sign)|
    ensures forall l :: 0 <= l < |freq| ==> freq[l] > 0.0
  {
    var ms := MatchedSignature(mutrate, sign);
    ColumnTotalsPositive(ms);
    ColumnTotals(ms)
  }

  /** `mutrate.div(genefreq).transpose()`: genes by samples, each rate shared
      out among the pathways that list the gene. */
  function SharedRates(mutrate: Frame, sign: Frame): (r: Frame)
    requires Shaped(mutrate) && ValidSignature(sign)
    ensures Shaped(r) && r.index == MatchedGenes(mutrate, sign) && r.columns == mutrate.index
  {
    Transpose(DivideColumns(MatchedRates(mutrate, sign), GeneFrequency(mutrate, sign)))
  }

  /** Every pathway that keeps a matched gene has a positive size. */
  lemma LivePathwaySizes(mutrate: Frame, sign: Frame)
    requires ValidSignature(sign)
    ensures var m := DropZeroRows(MatchedSignature(mutrate, sign));
            forall k :: 0 <= k < |m.index| ==> m.index[k] in sign.index && PathwaySize(sign, m.index[k]) > 0.0
  {
    var genes := MatchedGenes(mutrate, sign);
    var ms := MatchedSignature(mutrate, sign);
    var p := LiveRows(ms.values);
    var m := DropZeroRows(ms);
    forall k | 0 <= k < |m.index|
      ensures m.index[k] in sign.index && PathwaySize(sign, m.index[k]) > 0.0
    {
      var i := p[k];
      assert m.index[k] == sign.index[i];
      IndexOfDistinct(sign.index, i);
      assert !ZeroRow(ms.values[i]);
      var l :| 0 <= l < |genes| && ms.values[i][l] != 0.0;
      assert sign.values[i][IndexOf(sign.columns, genes[l])] != 0.0;
      SumPositive(sign.values[i]);
    }
  }

  /** The matched pathway matrix without its all-zero rows and columns; since
      every matched gene has a pathway, only pathways are dropped. */
  function Members(mutrate: Frame, sign: Frame): (m: Frame)
    requires ValidSignature(sign)
    ensures Shaped(m) && m.columns == MatchedGenes(mutrate, sign) && NoZeroRows(m)
    ensures forall k :: 0 <= k < |m.index| ==> m.index[k] in sign.index && PathwaySize(sign, m.index[k]) > 0.0
  {
    var ms := MatchedSignature(mutrate, sign);
    PruneKeepsColumns(ms);
    LivePathwaySizes(mutrate, sign);
    Prune(ms)
  }

  /** `sm` looked up for each pathway that keeps a matched gene. */
  function PathwaySizes(mutrate: Frame, sign: Frame): (sizes: seq<real>)
    requires ValidSignature(sign)
    ensures |sizes| == |Members(mutrate, sign).index|
    ensures forall k :: 0 <= k < |sizes| ==> sizes[k] > 0.0
  {
    var members := Members(mutrate, sign);
    seq(|members.index|, k requires 0 <= k < |members.index| => PathwaySize(sign, members.index[k]))
  }

  /** `sign_matrix.dot(mutrate).div(sm, axis=0)` before the final pruning:
      pathways by samples. */
  function Scores(mutrate: Frame, sign: Frame): (raw: Frame)
    requires Shaped(mutrate) && ValidSignature(sign)
    ensures Shaped(raw) && raw.index == Members(mutrate, sign).index && raw.columns == mutrate.index
  {
    DivideRows(Dot(Members(mutrate, sign), SharedRates(mutrate, sign)), PathwaySizes(mutrate, sign))
  }

  /** The two tables `desparsify` returns: the matched mutation rates and the
      pathway scores without all-zero rows and columns. */
  function Aggregate(mutrate: Frame, sign: Frame): (r: (Frame, Frame))
    requires Shaped(mutrate) && ValidSignature(sign)
    ensures Shaped(r.0) && Shaped(r.1) && NoZeroRows(r.1) && NoZeroColumns(r.1)
  {
    (MatchedRates(mutrate, sign), Prune(Scores(mutrate, sign)))
  }

  /** `desparsify(mut, esize, gmt lines, cangenes, normMut)`. */
  function Desparsify(mut: Frame, esize: Frame, lines: seq<string>, cangenes: set<string>, normMut: bool)
    : (r: Result<(Frame, Frame)>)
    requires GeneLength.ValidTables(mut, esize)
    ensures r.Ok? ==> Shaped(r.value.1) && NoZeroRows(r.value.1) && NoZeroColumns(r.value.1)
    ensures r.Ok? ==> Prune(r.value.1) == r.value.1
  {
    match GeneLength.CorGeneLength(mut, cangenes, esize, normMut)
    case Err(e) => Err(e)
    case Ok(mutrate) =>
      match Gmt.SignMatrix(lines, cangenes)
      case Err(e) => Err(e)
      case Ok(sign) =>
        IncidenceSpec(Gmt.ParseGmt(lines), cangenes);
        PruneIdempotent(Scores(mutrate, sign));
        Ok(Aggregate(mutrate, sign))
  }

  /** `desparsify` fails as `corgenelength` does (line 90) and, after it
      succeeds, as `convertgmt` does (line 92). */
  lemma DesparsifyFails(mut: Frame, esize: Frame, lines: seq<string>, cangenes: set<string>, normMut: bool)
    requires GeneLength.ValidTables(mut, esize)
    ensures Desparsify(mut, esize, lines, cangenes, normMut) == Err(NoLengthRow) <==> |esize.index| == 0
    ensures Desparsify(mut, esize, lines, cangenes, normMut) == Err(WrongOrientation)
            <==> |esize.index| > 0 && GeneLength.CommonGenes(mut, cangenes, esize) == {}
    ensures Desparsify(mut, esize, lines, cangenes, normMut) == Err(EmptyGraph)
            <==> |esize.index| > 0 && GeneLength.CommonGenes(mut, cangenes, esize) != {} && |lines| == 0
    ensures Desparsify(mut, esize, lines, cangenes, normMut) == Err(DuplicateNode)
            <==> && |esize.index| > 0 && GeneLength.CommonGenes(mut, cangenes, esize) != {}
                 && |lines| > 0 && Gmt.IdListedAsGene(lines)
  {
    GeneLength.CorGeneLengthFails(mut, cangenes, esize, normMut);
    Gmt.SignMatrixFails(lines, cangenes);
  }

  /** The genes of `mt` are the cancer genes that have a count, a length and a
      pathway in the GMT lines, sorted. */
  lemma DesparsifyGenes(mut: Frame, esize: Frame, lines: seq<string>, cangenes: set<string>, normMut: bool)
    requires GeneLength.ValidTables(mut, esize)
    requires Desparsify(mut, esize, lines, cangenes, normMut).Ok?
    ensures var mt := Desparsify(mut, esize, lines, cangenes, normMut).value.0;
            var a := Gmt.ParseGmt(lines);
            && Sorted(mt.columns)
            && forall g :: g in mt.columns <==>
                 g in cangenes && g in mut.columns && g in esize.columns && exists id :: id in a && g in a[id]
  {
    var mutrate := GeneLength.CorGeneLength(mut, cangenes, esize, normMut).value;
    var a := Gmt.ParseGmt(lines);
    GeneLength.CorGeneLengthColumns(mut, cangenes, esize, normMut);
    IncidenceSpec(a, cangenes);
    MatchedRatesGenes(mutrate, Gmt.Incidence(a, cangenes), a, cangenes);
  }

  /** Cell `(k, s)` of the scores `pt` is the sum of the shares its pathway
      receives in its sample, divided by the pathway's number of cancer genes,
      for the dictionary `a` and the rates `mt`. */
  predicate ScoreIsShares(pt: Frame, mt: Frame, a: map<string, seq<string>>, cangenes: set<string>, k: nat, s: nat)
  {
    && Shaped(pt) && Shaped(mt) && k < |pt.index| && s < |pt.columns|
    && pt.index[k] in a
    && pt.columns[s] in mt.index
    && |cangenes * Elems(a[pt.index[k]])| > 0
    && pt.values[k][s] ==
         Sum(Shares(a, pt.index[k], mt, IndexOf(mt.index, pt.columns[s]))) / |cangenes * Elems(a[pt.index[k]])| as real
  }

  /** Every returned pathway score `pt` is given by the shares formula, where
      the pathways and genes are those the GMT lines give and the rates are
      the returned `mt`. */
  lemma DesparsifyScores(mut: Frame, esize: Frame, lines: seq<string>, cangenes: set<string>, normMut: bool)
    requires GeneLength.ValidTables(mut, esize)
    requires Desparsify(mut, esize, lines, cangenes, normMut).Ok?
    ensures var r := Desparsify(mut, esize, lines, cangenes, normMut).value;
            forall k, s :: 0 <= k < |r.1.index| && 0 <= s < |r.1.columns| ==>
              ScoreIsShares(r.1, r.0, Gmt.ParseGmt(lines), cangenes, k, s)
  {
    var mutrate := GeneLength.CorGeneLength(mut, cangenes, esize, normMut).value;
    var a := Gmt.ParseGmt(lines);
    var sign := Gmt.Incidence(a, cangenes);
    GeneLength.CorGeneLengthSamplesDistinct(mut, cangenes, esize, normMut);
    IncidenceSpec(a, cangenes);
    assert Desparsify(mut, esize, lines, cangenes, normMut).value
           == (MatchedRates(mutrate, sign), Prune(Scores(mutrate, sign)));
    ReturnedScores(mutrate, sign, a, cangenes);
  }

  lemma ReturnedScores(mutrate: Frame, sign: Frame, a: map<string, seq<string>>, cangenes: set<string>)
    requires Shaped(mutrate) && Distinct(mutrate.index) && IncidenceOf(sign, a, cangenes)
    ensures var pt := Prune(Scores(mutrate, sign));
            forall k, s :: 0 <= k < |pt.index| && 0 <= s < |pt.columns| ==>
              ScoreIsShares(pt, MatchedRates(mutrate, sign), a, cangenes, k, s)
  {
    var pt := Prune(Scores(mutrate, sign));
    forall k, s | 0 <= k < |pt.index| && 0 <= s < |pt.columns|
      ensures ScoreIsShares(pt, MatchedRates(mutrate, sign), a, cangenes, k, s)
    {
      ReturnedScoreAt(mutrate, sign, a, cangenes, k, s);
    }
  }

  /** One cell of the pruned scores, traced back to the raw score at the same
      pathway and sample. */
  lemma ReturnedScoreAt(mutrate: Frame, sign: Frame, a: map<string, seq<string>>, cangenes: set<string>, k: nat, s: nat)
    requires Shaped(mutrate) && Distinct(mutrate.index) && IncidenceOf(sign, a, cangenes)
    requires k < |Prune(Scores(mutrate, sign)).index| && s < |Prune(Scores(mutrate, sign)).columns|
    ensures ScoreIsShares(Prune(Scores(mutrate, sign)), MatchedRates(mutrate, sign), a, cangenes, k, s)
  {
    var raw := Scores(mutrate, sign);
    PruneSelects(raw);
    var i := LiveRows(raw.values)[k];
    var j := LiveColumns(raw)[s];
    ScoreFormulaAt(mutrate, sign, a, cangenes, i, j);
    IndexOfDistinct(mutrate.index, j);
  }

  /** What `convertgmt` promises about its matrix, stated in terms of the
      parsed dictionary `a`: sorted pathway rows and cancer-gene columns,
      0/1 membership cells, and the row and column totals. */
  ghost predicate IncidenceOf(sign: Frame, a: map<string, seq<string>>, cangenes: set<string>)
  {
    Sorted(sign.index) && Sorted(sign.columns) && IncidenceFacts(sign, a, cangenes)
  }

  /** The same description, apart from the order of rows and columns. */
  ghost predicate IncidenceFacts(sign: Frame, a: map<string, seq<string>>, cangenes: set<string>)
  {
    && ValidSignature(sign)
    && PathwayRows(sign, a)
    && CancerGeneColumns(sign, a, cangenes)
    && MembershipCells(sign, a)
    && MembershipTotals(sign, a, cangenes)
  }

  /** One row per pathway id. */
  ghost predicate PathwayRows(sign: Frame, a: map<string, seq<string>>)
  {
    forall p :: p in sign.index <==> p in a
  }

  /** One column per cancer gene listed by some pathway. */
  ghost predicate CancerGeneColumns(sign: Frame, a: map<string, seq<string>>, cangenes: set<string>)
  {
    forall g :: g in sign.columns <==> g in cangenes && exists id :: id in a && g in a[id]
  }

  /** A cell is 1 when the row's pathway lists the column's gene, else 0. */
  ghost predicate MembershipCells(sign: Frame, a: map<string, seq<string>>)
    requires Shaped(sign)
  {
    forall i, j :: 0 <= i < |sign.index| && 0 <= j < |sign.columns| ==>
      sign.index[i] in a &&
      (sign.values[i][j] == 1.0 <==> sign.columns[j] in a[sign.index[i]]) &&
      (sign.values[i][j] == 0.0 <==> sign.columns[j] !in a[sign.index[i]])
  }

  /** Row totals count a pathway's cancer genes; column totals count the
      pathways listing a gene. */
  ghost predicate MembershipTotals(sign: Frame, a: map<string, seq<string>>, cangenes: set<string>)
    requires Shaped(sign)
  {
    && (forall i :: 0 <= i < |sign.index| ==>
          sign.index[i] in a && Sum(sign.values[i]) == |cangenes * Elems(a[sign.index[i]])| as real)
    && (forall j :: 0 <= j < |sign.columns| ==>
          Sum(Transpose(sign).values[j]) == |Gmt.PathwaysOf(a, sign.columns[j])| as real)
  }

  /** The matrix built from `a` meets that description. */
  lemma IncidenceSpec(a: map<string, seq<string>>, cangenes: set<string>)
    ensures IncidenceOf(Gmt.Incidence(a, cangenes), a, cangenes)
  {
    IncidenceValid(a, cangenes);
    IncidenceSorted(a, cangenes);
    IncidenceLabels(a, cangenes);
    IncidenceMemberships(a, cangenes);
    IncidenceTotals(a, cangenes);
  }

  lemma IncidenceValid(a: map<string, seq<string>>, cangenes: set<string>)
    ensures ValidSignature(Gmt.Incidence(a, cangenes))
  {
    IncidenceLabelled(a, cangenes);
    IncidenceNonNegative(a, cangenes);
    Gmt.IncidenceColumnsUsed(a, cangenes);
  }

  lemma IncidenceLabelled(a: map<string, seq<string>>, cangenes: set<string>)
    ensures Labelled(Gmt.Incidence(a, cangenes))
  {
    Gmt.IncidenceRows(a, cangenes);
    Gmt.IncidenceColumns(a, cangenes);
  }

  lemma IncidenceNonNegative(a: map<string, seq<string>>, cangenes: set<string>)
    ensures NonNegative(Gmt.Incidence(a, cangenes))
  {
    Gmt.IncidenceCells(a, cangenes);
  }

  lemma IncidenceSorted(a: map<string, seq<string>>, cangenes: set<string>)
    ensures var m := Gmt.Incidence(a, cangenes);
            Sorted(m.index) && Sorted(m.columns)
  {
    Gmt.IncidenceRows(a, cangenes);
    Gmt.IncidenceColumns(a, cangenes);
  }

  lemma IncidenceLabels(a: map<string, seq<string>>, cangenes: set<string>)
    ensures var m := Gmt.Incidence(a, cangenes);
            PathwayRows(m, a) && CancerGeneColumns(m, a, cangenes)
  {
    Gmt.IncidenceRows(a, cangenes);
    Gmt.IncidenceColumns(a, cangenes);
  }

  lemma IncidenceMemberships(a: map<string, seq<string>>, cangenes: set<string>)
    ensures MembershipCells(Gmt.Incidence(a, cangenes), a)
  {
    Gmt.IncidenceCells(a, cangenes);
  }

  lemma IncidenceTotals(a: map<string, seq<string>>, cangenes: set<string>)
    ensures MembershipTotals(Gmt.Incidence(a, cangenes), a, cangenes)
  {
    Gmt.IncidenceRowSums(a, cangenes);
    Gmt.IncidenceColumnSums(a, cangenes);
  }

  /** `mt` keeps every sample and exactly the cancer genes that have a rate and
      are listed by some pathway, sorted, with their rates unchanged. */
  lemma MatchedRatesGenes(mutrate: Frame, sign: Frame, a: map<string, seq<string>>, cangenes: set<string>)
    requires Shaped(mutrate) && IncidenceOf(sign, a, cangenes)
    ensures var mt := MatchedRates(mutrate, sign);
            && mt.index == mutrate.index
            && Sorted(mt.columns)
            && (forall g :: g in mt.columns <==>
                  g in mutrate.columns && g in cangenes && exists id :: id in a && g in a[id])
            && (forall i, l :: 0 <= i < |mt.index| && 0 <= l < |mt.columns| ==>
                  mt.values[i][l] == mutrate.values[i][IndexOf(mutrate.columns, mt.columns[l])])
  {
  }

  /** `genefreq` counts, for each matched gene, the pathways that list it;
      the count is never zero. */
  lemma GeneFrequencyCount(mutrate: Frame, sign: Frame, a: map<string, seq<string>>, cangenes: set<string>, l: nat)
    requires IncidenceFacts(sign, a, cangenes)
    requires l < |MatchedGenes(mutrate, sign)|
    ensures var g := MatchedGenes(mutrate, sign)[l];
            && GeneFrequency(mutrate, sign)[l] == |Gmt.PathwaysOf(a, g)| as real
            && |Gmt.PathwaysOf(a, g)| >= 1
  {
    var genes := MatchedGenes(mutrate, sign);
    MatchedColumn(mutrate, sign, l);
    var id :| id in a && genes[l] in a[id];
    assert id in Gmt.PathwaysOf(a, genes[l]);
  }

  lemma MatchedColumn(mutrate: Frame, sign: Frame, l: nat)
    requires ValidSignature(sign) && l < |MatchedGenes(mutrate, sign)|
    ensures var g := MatchedGenes(mutrate, sign)[l];
            g in sign.columns &&
            Transpose(MatchedSignature(mutrate, sign)).values[l] == Transpose(sign).values[IndexOf(sign.columns, g)]
  {
    var ms := MatchedSignature(mutrate, sign);
    var j := IndexOf(sign.columns, MatchedGenes(mutrate, sign)[l]);
    var col := Transpose(ms).values[l];
    forall i | 0 <= i < |col|
      ensures col[i] == Transpose(sign).values[j][i]
    {
      assert col[i] == ms.values[i][l];
    }
  }

  /** `sm[p]` counts the distinct cancer genes pathway `p` lists, matched with
      the mutation data or not. */
  lemma PathwaySizeCount(sign: Frame, a: map<string, seq<string>>, cangenes: set<string>, p: string)
    requires IncidenceFacts(sign, a, cangenes) && p in a
    ensures p in sign.index
    ensures PathwaySize(sign, p) == |cangenes * Elems(a[p])| as real
  {
    var i := IndexOf(sign.index, p);
    assert sign.index[i] == p;
  }

  /** A pathway row of the matched matrix is not all zero exactly when the
      pathway lists a matched gene. */
  lemma PathwayRowLive(mutrate: Frame, sign: Frame, a: map<string, seq<string>>, cangenes: set<string>, i: nat)
    requires IncidenceFacts(sign, a, cangenes) && i < |sign.index|
    ensures var p := sign.index[i];
            p in a &&
            (!ZeroRow(MatchedSignature(mutrate, sign).values[i]) <==>
               exists g :: g in a[p] && g in cangenes && g in mutrate.columns)
  {
    assert sign.index[i] in sign.index;
    if !ZeroRow(MatchedSignature(mutrate, sign).values[i]) {
      LiveRowListsGene(mutrate, sign, a, cangenes, i);
    }
    if g :| g in a[sign.index[i]] && g in cangenes && g in mutrate.columns {
      ListedGeneKeepsRow(mutrate, sign, a, cangenes, i, g);
    }
  }

  lemma LiveRowListsGene(mutrate: Frame, sign: Frame, a: map<string, seq<string>>, cangenes: set<string>, i: nat)
    requires ValidSignature(sign) && CancerGeneColumns(sign, a, cangenes) && MembershipCells(sign, a)
    requires i < |sign.index|
    requires !ZeroRow(MatchedSignature(mutrate, sign).values[i])
    ensures sign.index[i] in a
    ensures exists g :: g in a[sign.index[i]] && g in cangenes && g in mutrate.columns
  {
    var genes := MatchedGenes(mutrate, sign);
    var ms := MatchedSignature(mutrate, sign);
    var l :| 0 <= l < |genes| && ms.values[i][l] != 0.0;
    var j := IndexOf(sign.columns, genes[l]);
    assert sign.values[i][j] != 0.0;
    assert genes[l] in a[sign.index[i]];
  }

  lemma ListedGeneKeepsRow(mutrate: Frame, sign: Frame, a: map<string, seq<string>>, cangenes: set<string>, i: nat, g: string)
    requires ValidSignature(sign) && CancerGeneColumns(sign, a, cangenes) && MembershipCells(sign, a)
    requires i < |sign.index|
    requires sign.index[i] in a && g in a[sign.index[i]] && g in cangenes && g in mutrate.columns
    ensures !ZeroRow(MatchedSignature(mutrate, sign).values[i])
  {
    var genes := MatchedGenes(mutrate, sign);
    var ms := MatchedSignature(mutrate, sign);
    assert g in sign.columns;
    var l := IndexOf(genes, g);
    var j := IndexOf(sign.columns, g);
    assert ms.values[i][l] == sign.values[i][j];
    assert sign.values[i][j] == 1.0;
  }

  /** The scored pathways are, in sorted order, exactly the pathways that list
      a cancer gene present in the mutation rates. */
  lemma ScoredPathways(mutrate: Frame, sign: Frame, a: map<string, seq<string>>, cangenes: set<string>)
    requires Shaped(mutrate) && IncidenceOf(sign, a, cangenes)
    ensures var raw := Scores(mutrate, sign);
            && Sorted(raw.index)
            && forall p :: p in raw.index <==>
                 p in a && exists g :: g in a[p] && g in cangenes && g in mutrate.columns
  {
    var raw := Scores(mutrate, sign);
    ScoredRowsSorted(mutrate, sign);
    forall p
      ensures p in raw.index <==> p in a && exists g :: g in a[p] && g in cangenes && g in mutrate.columns
    {
      if p in a {
        ScoredPathway(mutrate, sign, a, cangenes, p);
      } else {
        ScoredRowsFromSignature(mutrate, sign);
      }
    }
  }

  /** Row `k` of the scores is the pathway at the `k`-th live row of the
      matched pathway matrix. */
  lemma ScoredRowsFromSignature(mutrate: Frame, sign: Frame)
    requires Shaped(mutrate) && ValidSignature(sign)
    ensures var pos := LiveRows(MatchedSignature(mutrate, sign).values);
            var raw := Scores(mutrate, sign);
            && |raw.index| == |pos|
            && (forall k :: 0 <= k < |pos| ==> raw.index[k] == sign.index[pos[k]])
            && (forall p :: p in raw.index ==> p in sign.index)
  {
    PruneKeepsColumns(MatchedSignature(mutrate, sign));
  }

  lemma ScoredRowsSorted(mutrate: Frame, sign: Frame)
    requires Shaped(mutrate) && ValidSignature(sign) && Sorted(sign.index)
    ensures Sorted(Scores(mutrate, sign).index)
  {
    ScoredRowsFromSignature(mutrate, sign);
  }

  lemma ScoredPathway(mutrate: Frame, sign: Frame, a: map<string, seq<string>>, cangenes: set<string>, p: string)
    requires Shaped(mutrate) && IncidenceFacts(sign, a, cangenes) && p in a
    ensures p in Scores(mutrate, sign).index <==> exists g :: g in a[p] && g in cangenes && g in mutrate.columns
  {
    var ms := MatchedSignature(mutrate, sign);
    var pos := LiveRows(ms.values);
    var raw := Scores(mutrate, sign);
    ScoredRowsFromSignature(mutrate, sign);
    var i := IndexOf(sign.index, p);
    PathwayRowLive(mutrate, sign, a, cangenes, i);
    if p in raw.index {
      var k :| 0 <= k < |pos| && raw.index[k] == p;
      IndexOfDistinct(sign.index, pos[k]);
    } else {
      assert ZeroRow(ms.values[i]);
    }
  }

  /** What matched gene `mt.columns[l]` passes to pathway `p` in sample `s`:
      its rate split evenly among the pathways that list it, if `p` is one of
      them, and nothing otherwise. */
  function Share(a: map<string, seq<string>>, p: string, mt: Frame, s: nat, l: nat): real
    requires Shaped(mt) && p in a && s < |mt.index| && l < |mt.columns|
  {
    var g := mt.columns[l];
    if g in a[p] then
      assert p in Gmt.PathwaysOf(a, g);
      mt.values[s][l] / |Gmt.PathwaysOf(a, g)| as real
    else 0.0
  }

  /** The shares pathway `p` receives in sample `s`, one per matched gene. */
  function Shares(a: map<string, seq<string>>, p: string, mt: Frame, s: nat): (shares: seq<real>)
    requires Shaped(mt) && p in a && s < |mt.index|
    ensures |shares| == |mt.columns|
  {
    seq(|mt.columns|, l requires 0 <= l < |mt.columns| => Share(a, p, mt, s, l))
  }

  /** A pathway's score in a sample is the sum of the shares it receives from
      its matched genes, divided by its number of cancer genes. */
  lemma ScoreFormula(mutrate: Frame, sign: Frame, a: map<string, seq<string>>, cangenes: set<string>)
    requires Shaped(mutrate) && IncidenceOf(sign, a, cangenes)
    ensures var raw := Scores(mutrate, sign);
            var mt := MatchedRates(mutrate, sign);
            forall k, s :: 0 <= k < |raw.index| && 0 <= s < |raw.columns| ==>
              && raw.index[k] in a
              && |cangenes * Elems(a[raw.index[k]])| > 0
              && raw.values[k][s] == Sum(Shares(a, raw.index[k], mt, s)) / |cangenes * Elems(a[raw.index[k]])| as real
  {
    var raw := Scores(mutrate, sign);
    var mt := MatchedRates(mutrate, sign);
    forall k, s | 0 <= k < |raw.index| && 0 <= s < |raw.columns|
      ensures && raw.index[k] in a
              && |cangenes * Elems(a[raw.index[k]])| > 0
              && raw.values[k][s] == Sum(Shares(a, raw.index[k], mt, s)) / |cangenes * Elems(a[raw.index[k]])| as real
    {
      ScoreFormulaAt(mutrate, sign, a, cangenes, k, s);
    }
  }

  lemma ScoreFormulaAt(mutrate: Frame, sign: Frame, a: map<string, seq<string>>, cangenes: set<string>, k: nat, s: nat)
    requires Shaped(mutrate) && IncidenceFacts(sign, a, cangenes)
    requires k < |Scores(mutrate, sign).index| && s < |mutrate.index|
    ensures var raw := Scores(mutrate, sign);
            && raw.index[k] in a
            && |cangenes * Elems(a[raw.index[k]])| > 0
            && raw.values[k][s] ==
                 Sum(Shares(a, raw.index[k], MatchedRates(mutrate, sign), s)) / |cangenes * Elems(a[raw.index[k]])| as real
  {
    var members := Members(mutrate, sign);
    var p := members.index[k];
    MemberPathway(mutrate, sign, a, k);
    ScoreCell(mutrate, sign, k, s);
    WeightedShares(mutrate, sign, a, cangenes, k, s);
    PathwaySizeCount(sign, a, cangenes, p);
  }

  lemma WeightedShares(mutrate: Frame, sign: Frame, a: map<string, seq<string>>, cangenes: set<string>, k: nat, s: nat)
    requires Shaped(mutrate) && IncidenceFacts(sign, a, cangenes)
    requires k < |Members(mutrate, sign).index| && s < |mutrate.index|
    ensures var members := Members(mutrate, sign);
            && members.index[k] in a
            && Weighted(members, MatchedRates(mutrate, sign), GeneFrequency(mutrate, sign), k, s) ==
               Shares(a, members.index[k], MatchedRates(mutrate, sign), s)
  {
    var members := Members(mutrate, sign);
    var mt := MatchedRates(mutrate, sign);
    var freq := GeneFrequency(mutrate, sign);
    var p := members.index[k];
    MemberPathway(mutrate, sign, a, k);
    forall j | 0 <= j < |mt.columns|
      ensures members.values[k][j] == if mt.columns[j] in a[p] then 1.0 else 0.0
      ensures freq[j] == |Gmt.PathwaysOf(a, mt.columns[j])| as real
    {
      MemberCell(mutrate, sign, a, k, j);
      GeneFrequencyCount(mutrate, sign, a, cangenes, j);
    }
    SharesFromWeights(members, mt, freq, a, p, k, s);
  }

  /** The weighted terms of one score cell are the shares, once the
      membership row is an indicator and the divisors count pathways. */
  lemma SharesFromWeights(members: Frame, mt: Frame, freq: seq<real>, a: map<string, seq<string>>, p: string, k: nat, s: nat)
    requires Shaped(members) && Shaped(mt) && members.columns == mt.columns
    requires |freq| == |mt.columns| && forall j :: 0 <= j < |freq| ==> freq[j] != 0.0
    requires k < |members.index| && s < |mt.index| && p in a
    requires forall j :: 0 <= j < |mt.columns| ==>
               members.values[k][j] == if mt.columns[j] in a[p] then 1.0 else 0.0
    requires forall j :: 0 <= j < |mt.columns| ==> freq[j] == |Gmt.PathwaysOf(a, mt.columns[j])| as real
    ensures Weighted(members, mt, freq, k, s) == Shares(a, p, mt, s)
  {
    var terms := Weighted(members, mt, freq, k, s);
    var shares := Shares(a, p, mt, s);
    forall j | 0 <= j < |mt.columns|
      ensures terms[j] == shares[j]
    {
      assert shares[j] == Share(a, p, mt, s, j);
    }
  }

  lemma ScoreCell(mutrate: Frame, sign: Frame, k: nat, s: nat)
    requires Shaped(mutrate) && ValidSignature(sign)
    requires k < |Scores(mutrate, sign).index| && s < |mutrate.index|
    ensures var members := Members(mutrate, sign);
            Scores(mutrate, sign).values[k][s] ==
              Sum(Weighted(members, MatchedRates(mutrate, sign), GeneFrequency(mutrate, sign), k, s))
              / PathwaySize(sign, members.index[k])
  {
    WeightedCell(Members(mutrate, sign), MatchedRates(mutrate, sign), GeneFrequency(mutrate, sign),
                 PathwaySizes(mutrate, sign), k, s);
  }

  /** Row `k` of the pruned matched matrix is the `k`-th live row. */
  lemma MembersRows(mutrate: Frame, sign: Frame)
    requires ValidSignature(sign)
    ensures var ms := MatchedSignature(mutrate, sign);
            var pos := LiveRows(ms.values);
            var m := Members(mutrate, sign);
            && |m.index| == |pos|
            && forall k :: 0 <= k < |pos| ==> m.index[k] == sign.index[pos[k]] && m.values[k] == ms.values[pos[k]]
  {
    PruneKeepsColumns(MatchedSignature(mutrate, sign));
  }

  lemma MemberPathway(mutrate: Frame, sign: Frame, a: map<string, seq<string>>, k: nat)
    requires ValidSignature(sign) && PathwayRows(sign, a)
    requires k < |Members(mutrate, sign).index|
    ensures Members(mutrate, sign).index[k] in a
  {
    MembersRows(mutrate, sign);
    var i := LiveRows(MatchedSignature(mutrate, sign).values)[k];
    assert sign.index[i] in sign.index;
  }

  /** A cell of the pruned matched matrix is 1 when its pathway lists its
      gene, 0 otherwise. */
  lemma MemberCell(mutrate: Frame, sign: Frame, a: map<string, seq<string>>, k: nat, j: nat)
    requires ValidSignature(sign) && MembershipCells(sign, a)
    requires k < |Members(mutrate, sign).index| && j < |MatchedGenes(mutrate, sign)|
    ensures var m := Members(mutrate, sign);
            && m.index[k] in a
            && m.values[k][j] == if MatchedGenes(mutrate, sign)[j] in a[m.index[k]] then 1.0 else 0.0
  {
    var ms := MatchedSignature(mutrate, sign);
    MembersRows(mutrate, sign);
    MatchedCell(mutrate, sign, a, LiveRows(ms.values)[k], j);
  }

  lemma MatchedCell(mutrate: Frame, sign: Frame, a: map<string, seq<string>>, i: nat, l: nat)
    requires ValidSignature(sign) && MembershipCells(sign, a)
    requires i < |sign.index| && l < |MatchedGenes(mutrate, sign)|
    ensures sign.index[i] in a
    ensures MatchedSignature(mutrate, sign).values[i][l] ==
            if MatchedGenes(mutrate, sign)[l] in a[sign.index[i]] then 1.0 else 0.0
  {
    var genes := MatchedGenes(mutrate, sign);
    var c := IndexOf(sign.columns, genes[l]);
    assert MatchedSignature(mutrate, sign).values[i][l] == sign.values[i][c];
  }

  /** A cell of a pandas table whose value may be missing. */
  datatype Cell = Num(x: real) | NaN

  /** `sign_matrix.dot(mutrate).div(sm, axis=0)` as pandas evaluates it: the
      division aligns the product's pathways with all the pathways of `sm`
      (an outer join; the union is `sign.index`, since the product's rows are
      some of its rows), so every pathway gets a row, and a pathway pruned
      before the product gets a row of NaN. */
  function AlignedScoresAsWritten(mutrate: Frame, sign: Frame): (cells: seq<seq<Cell>>)
    requires Shaped(mutrate) && ValidSignature(sign)
    ensures |cells| == |sign.index|
    ensures forall i :: 0 <= i < |cells| ==> |cells[i]| == |mutrate.index|
  {
    var raw := Scores(mutrate, sign);
    seq(|sign.index|, i requires 0 <= i < |sign.index| => AlignedRow(raw, sign.index[i]))
  }

  /** The row of `raw` labelled `p`, or a row of NaN when there is none. */
  function AlignedRow(raw: Frame, p: string): (row: seq<Cell>)
    requires Shaped(raw)
    ensures |row| == |raw.columns|
  {
    if p in raw.index then
      var cells := raw.values[IndexOf(raw.index, p)];
      seq(|raw.columns|, s requires 0 <= s < |raw.columns| => Num(cells[s]))
    else
      seq(|raw.columns|, s requires 0 <= s < |raw.columns| => NaN)
  }

  /** The row test of the final pruning: a row is dropped when every cell
      equals 0, and NaN equals nothing. */
  predicate AllZeroAsWritten(row: seq<Cell>)
  {
    forall s :: 0 <= s < |row| ==> row[s] == Num(0.0)
  }

  /** A pathway that lists no cancer gene with a mutation rate is pruned before
      the product, comes back from the aligned division as a row of NaN, and
      survives the final all-zero test, although the intended scores do not
      contain it. */
  lemma DroppedPathwayReturns(mutrate: Frame, sign: Frame, a: map<string, seq<string>>, cangenes: set<string>, p: string)
    requires Shaped(mutrate) && IncidenceFacts(sign, a, cangenes) && |mutrate.index| > 0
    requires p in a && forall g :: g in a[p] && g in cangenes ==> g !in mutrate.columns
    ensures p in sign.index
    ensures var row := AlignedScoresAsWritten(mutrate, sign)[IndexOf(sign.index, p)];
            && (forall s :: 0 <= s < |row| ==> row[s] == NaN)
            && !AllZeroAsWritten(row)
    ensures p !in Scores(mutrate, sign).index
    ensures p !in Aggregate(mutrate, sign).1.index
  {
    ScoredPathway(mutrate, sign, a, cangenes, p);
    var raw := Scores(mutrate, sign);
    PruneLabelsFrom(raw);
    AlignedRowAt(mutrate, sign, IndexOf(sign.index, p));
    AlignedRowMissing(raw, p);
  }

  lemma AlignedRowAt(mutrate: Frame, sign: Frame, i: nat)
    requires Shaped(mutrate) && ValidSignature(sign) && i < |sign.index|
    ensures AlignedScoresAsWritten(mutrate, sign)[i] == AlignedRow(Scores(mutrate, sign), sign.index[i])
  {
  }

  lemma AlignedRowMissing(raw: Frame, p: string)
    requires Shaped(raw) && p !in raw.index && |raw.columns| > 0
    ensures var row := AlignedRow(raw, p);
            (forall s :: 0 <= s < |row| ==> row[s] == NaN) && !AllZeroAsWritten(row)
  {
    assert AlignedRow(raw, p)[0] == NaN;
  }
}
