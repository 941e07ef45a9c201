# sambar de-sparsification core in Dafny

This project models the part of sambar that turns sparse somatic mutation
counts into pathway mutation scores (`sambar/sambar.py`):

- `corgenelength` (`GeneLength`): keeps the cancer genes that both the
  mutation table and the gene-length table know. It divides every count by
  the gene's length and drops samples with no mutation left. It can also
  rescale every sample to a profile that sums to 1. It fails when the length
  table has no row, or when the result is 0 x 0 (the orientation assertion).
- `convertgmt` (`Gmt`): reads gene-set lines in the GMT layout (pathway id,
  link, genes, separated by tabs). The dictionary it builds has the last
  line winning for a repeated id. From it comes the binary pathway x gene
  incidence matrix: rows are all pathways, sorted; columns are the listed
  cancer genes, sorted. The networkx call at line 67 refuses an empty file
  and a gene name that is also a pathway id. `ConvertGmt` is the loop-based
  implementation and is proved equal to the functional definition
  `SignMatrix`.
- `desparsify` (`Desparsify`): matches genes between the rate matrix and the
  incidence matrix, and records each pathway's size before matching. It
  divides each gene's rate by the number of pathways listing it, prunes empty
  pathways and genes, multiplies, and divides by pathway size. Finally it
  prunes all-zero rows and columns.

Shared pieces:

- `Labels`: Python's string order, `sorted(set)` and label lookup.
- `Frames`: a labelled real matrix (a pandas `DataFrame` with exact
  arithmetic), with transpose, selection, the "drop all-zero rows" idiom, the
  row-then-column prune, the dot product and row/column division.

The main results:

- the failure conditions of both pipelines, as if-and-only-if statements;
- the exact gene and pathway label sets of every output;
- each score cell as a sum of shares divided by pathway size, where a gene
  passes its rate, split evenly among the pathways that list it, to each of
  those pathways;
- the properties of the prune: it selects exactly the live rows and columns,
  it is idempotent, and it changes nothing when there is nothing to prune;
- the round trips of the GMT line format;
- three discrepancies in the source (see Findings).

Where the code and its design description disagree, the model follows the
code:

- The returned gene-rate matrix `mt` is captured at line 102, before the
  frequency division at line 105. It is the matched rates only, not
  frequency-adjusted (`Desparsify.Aggregate`, `Desparsify.MatchedRatesGenes`).
- No emptiness check is made in `desparsify` itself. It fails only through
  the functions it calls: `corgenelength` at line 90 (the missing length row
  at line 28, the 0 x 0 assertion at line 41), then `convertgmt` at line 92.
  The networkx `adjacency_matrix` call at line 67 raises `NetworkXError` for
  a graph with no node, which an empty GMT file gives. It also raises one for
  a node list `C + P` that names a node twice, which happens when a gene name
  is also a pathway id. A result with samples but no genes, or genes but no
  samples, is returned as it is (`GeneLength.CorGeneLengthFails`,
  `Gmt.SignMatrixFails`, `Desparsify.DesparsifyFails`).

One place where the model does not follow the code: at line 55 a line's last
character is removed whether or not it is a newline. Only
`Gmt.ParseLineAsWritten` reads lines that way. `Gmt.ParseGmt`,
`Gmt.ReadPathways`, `Gmt.ConvertGmt` and `Desparsify.Desparsify` strip only a
trailing newline (`Gmt.ParseLine`); see Findings.

## Model

| member | source | states |
|---|---|---|
| Labels.SortSet | sambar/sambar.py:63-64 | `sorted(set)`: strictly increasing in code-point order, with exactly the set's elements and its size |
| Frames.DropZeroRows | sambar/sambar.py:31 | dropping all-zero rows leaves no all-zero row, keeps the columns and keeps non-negativity |
| Frames.DropZeroRowsIndex | sambar/sambar.py:31 | a row label survives exactly when its row is not all zero |
| Frames.DropZeroRowsOrder | sambar/sambar.py:31 | the surviving rows keep their original relative order |
| Frames.Prune | sambar/sambar.py:108-111 | pruning rows and then columns leaves neither an all-zero row nor an all-zero column |
| Frames.PruneSelects | sambar/sambar.py:108-111 | the pruned matrix is exactly the block of non-zero rows and non-zero columns of the input |
| Frames.PruneIdempotent | sambar/sambar.py:117-120 | pruning a pruned matrix changes nothing |
| Frames.PruneNoOp | sambar/sambar.py:117-120 | a matrix with no all-zero row or column is its own prune |
| Frames.PruneKeepsColumns | sambar/sambar.py:108-111 | when no column is all zero, the prune only drops rows |
| Frames.PruneLabelsFrom | sambar/sambar.py:117-120 | the prune introduces no new row or column label |
| Frames.TransposeTwice | sambar/sambar.py:109-111 | transposing twice gives back the matrix |
| Frames.SumNormalised | sambar/sambar.py:35-36 | a non-negative row that is not all zero, divided by its total, adds up to 1 |
| Frames.ColumnTotalsPositive | sambar/sambar.py:104 | column totals of a non-negative matrix without zero columns are positive |
| Frames.WeightedCell | sambar/sambar.py:104-114 | a score cell is the sum of membership times rate over frequency, divided by the row's size |
| GeneLength.CorGeneLength | sambar/sambar.py:9-42 | a successful result has consistent shape and no all-zero sample |
| GeneLength.CorGeneLengthFails | sambar/sambar.py:28-41 | fails with the missing length row exactly when the length table has no row, and with the orientation error exactly when there is a row but no gene is common to the cancer set and both tables |
| GeneLength.CorGeneLengthColumns | sambar/sambar.py:19-42 | the columns are sorted and are exactly the cancer genes present in both tables |
| GeneLength.CorGeneLengthRates | sambar/sambar.py:19-31 | without normalisation: a sample is kept exactly when it has a non-zero count for a kept gene, kept samples keep their order, and each cell is the count divided by the gene's length |
| GeneLength.CorGeneLengthProfiles | sambar/sambar.py:34-37 | with normalisation: the same success, samples and genes as without, every row adds up to 1, and each cell is the unnormalised cell over its row total |
| GeneLength.PerLength | sambar/sambar.py:23-28 | dividing each kept gene's counts by its length keeps every sample and the genes in order, and gives no negative rate |
| GeneLength.Rates | sambar/sambar.py:19-31 | the length-normalised rates without all-zero samples: no zero row and no negative rate; the samples and cells are stated in `RatesSamples` and `RatesCells` |
| GeneLength.CorGeneLengthSamplesDistinct | sambar/sambar.py:28-42 | the returned samples are distinct, as those of the mutation table are |
| GeneLength.RatesSamples | sambar/sambar.py:28-31 | the kept samples are exactly the mutated ones, in their original order |
| GeneLength.RatesCells | sambar/sambar.py:28 | each rate is the sample's count for the gene divided by the gene's length |
| GeneLength.PerLengthZeroRow | sambar/sambar.py:28-31 | after division by length, a sample's row is non-zero exactly when it has a non-zero count for a kept gene |
| GeneLength.NormaliseRows | sambar/sambar.py:34-37 | per-sample normalisation keeps the labels, leaves no zero row and makes every row add up to 1 |
| GeneLength.NormaliseRowsAsWritten | sambar/sambar.py:35-37 | the code as written: equal to the intended normalisation when no gene is named "sum", and loses that gene's column when one is |
| GeneLength.SumGeneClobbered | sambar/sambar.py:35-37 | on a sample with genes TP53 and "sum", the code as written returns only TP53 with a row total of 0.5, while the intended result keeps both and totals 1 |
| Gmt.Split | sambar/sambar.py:55 | `str.split`: at least one piece, and no piece contains the separator |
| Gmt.JoinSplit | sambar/sambar.py:55 | joining the pieces of a split gives back the string |
| Gmt.SplitJoin | sambar/sambar.py:55 | splitting a join of separator-free pieces gives back the pieces |
| Gmt.ParseLineAsWritten | sambar/sambar.py:55-56 | the code as written: the id and genes contain no tab; `LastLineTruncated` shows where it differs from the intended reading |
| Gmt.ParseLine | sambar/sambar.py:55-56 | the parsed id and genes contain no tab |
| Gmt.ParseFormatted | sambar/sambar.py:54-56 | a GMT line written with its newline reads back as its id and gene list, both as written and as intended |
| Gmt.ParseLineAgrees | sambar/sambar.py:55 | on a line ending in a newline, the code as written and the intended reading agree |
| Gmt.LastLineTruncated | sambar/sambar.py:55 | on a final line without a newline, the code as written cuts the last character of the last gene; the intended reading keeps it |
| Gmt.ParseGmt | sambar/sambar.py:53-56 | the last line always wins: its id is a key and holds that line's genes |
| Gmt.ParseGmtKeys | sambar/sambar.py:53-56 | the dictionary's ids are exactly the ids of the lines |
| Gmt.ParseGmtLastWins | sambar/sambar.py:53-56 | each id holds the genes of the last line that carries it |
| Gmt.ReadPathways | sambar/sambar.py:53-56 | the loop over the lines builds exactly the parsed dictionary |
| Gmt.ListedGenes | sambar/sambar.py:58-61 | the loop over the ids collects exactly the genes listed under some id |
| Gmt.SignMatrix | sambar/sambar.py:44-83 | when the networkx call succeeds, the result is the incidence matrix of the parsed lines |
| Gmt.SignMatrixFails | sambar/sambar.py:66-67 | the conversion fails with the empty-graph error exactly when there is no line, and with the repeated-node error exactly when there are lines and some line's id is listed as a gene by the line that gives a pathway its genes |
| Gmt.ConvertGmt | sambar/sambar.py:44-83 | the loop-based conversion gives the same errors and the same matrix as `SignMatrix` |
| Gmt.Incidence | sambar/sambar.py:59-83 | the reference pathway x gene matrix is shaped: one row per pathway, one cell per gene column; its labels and cells are stated in `IncidenceRows`, `IncidenceColumns` and `IncidenceCells` |
| Gmt.IncidenceRows | sambar/sambar.py:64-77 | the rows are every pathway id, sorted |
| Gmt.IncidenceColumns | sambar/sambar.py:59-83 | the columns are the cancer genes listed under some pathway, sorted |
| Gmt.IncidenceCells | sambar/sambar.py:66-73 | a cell is 1 when the pathway lists the gene and 0 otherwise |
| Gmt.IncidenceColumnsUsed | sambar/sambar.py:59-83 | no gene column is all zero |
| Gmt.IndicatorSum | sambar/sambar.py:97 | adding up an indicator row over distinct labels counts the member labels |
| Gmt.IncidenceRowSums | sambar/sambar.py:97 | a pathway's row adds up to the number of distinct cancer genes it lists |
| Gmt.IncidenceColumnSums | sambar/sambar.py:104 | a gene's column adds up to the number of pathways listing it, which is at least 1 |
| Desparsify.MatchedGenes | sambar/sambar.py:95 | the matched genes are sorted and are exactly those in both matrices |
| Desparsify.PathwaySize | sambar/sambar.py:97 | `sm[p]`, the row total of pathway `p`, is non-negative for a non-negative matrix; its value is stated in `PathwaySizeCount` |
| Desparsify.MatchedRates | sambar/sambar.py:100-102 | `mt` keeps every sample and has exactly the matched genes as columns |
| Desparsify.MatchedSignature | sambar/sambar.py:101 | the incidence matrix restricted to the matched genes keeps every pathway, stays non-negative and has no all-zero gene column |
| Desparsify.GeneFrequency | sambar/sambar.py:104 | every matched gene's frequency is positive |
| Desparsify.SharedRates | sambar/sambar.py:104-105 | the frequency-divided rates, transposed: one row per matched gene, one column per sample |
| Desparsify.Members | sambar/sambar.py:108-111 | the pruned incidence keeps the matched genes, has no zero pathway, and every kept pathway has positive size |
| Desparsify.Scores | sambar/sambar.py:113-114 | the raw scores have a row per kept pathway and a column per sample |
| Desparsify.Aggregate | sambar/sambar.py:100-120 | the final pathway scores have no all-zero row or column |
| Desparsify.Desparsify | sambar/sambar.py:85-125 | a successful run returns pathway scores with no all-zero row or column, which the final prune leaves unchanged |
| Desparsify.DesparsifyFails | sambar/sambar.py:88-92 | the pipeline fails with the missing length row exactly when the length table has no row; with the orientation error exactly when no gene is common; and, when `corgenelength` succeeds, with the empty-graph error exactly when there is no GMT line, and with the repeated-node error exactly when some pathway id is also listed as a gene |
| Desparsify.DesparsifyScores | sambar/sambar.py:85-125 | every returned score is the sum of the shares its pathway receives from the returned rates `mt` in that sample, divided by the pathway's number of distinct cancer genes, with pathways and genes as the GMT lines give them |
| Desparsify.DesparsifyGenes | sambar/sambar.py:94-102 | the returned rates' genes are sorted and are exactly the cancer genes in both tables that some pathway lists |
| Desparsify.IncidenceSpec | sambar/sambar.py:44-83 | the incidence matrix has sorted distinct labels, is non-negative without zero gene columns, has a row for exactly the pathways, has a column for exactly the listed cancer genes, has 1 exactly where the pathway lists the gene and 0 elsewhere, and each row total counts the pathway's distinct cancer genes and each column total the gene's pathways |
| Desparsify.MatchedRatesGenes | sambar/sambar.py:95-102 | the matched rates keep the samples, and their genes are the sorted cancer genes with rates that some pathway lists; each cell is the sample's original rate |
| Desparsify.GeneFrequencyCount | sambar/sambar.py:104 | a matched gene's frequency is the number of pathways listing it, at least 1 |
| Desparsify.PathwaySizeCount | sambar/sambar.py:97 | a pathway's size is the number of distinct cancer genes it lists, counted before matching |
| Desparsify.PathwayRowLive | sambar/sambar.py:101-108 | a pathway's matched row is non-zero exactly when it lists a cancer gene that has rates |
| Desparsify.ScoredPathways | sambar/sambar.py:108-114 | the scored pathways are sorted and are exactly the pathways listing a cancer gene that has rates |
| Desparsify.ScoreFormula | sambar/sambar.py:104-114 | each score is the sum, over the pathway's matched genes, of the gene's rate divided by its number of pathways, all over the pathway's size before matching, which is positive |
| Desparsify.AlignedScoresAsWritten | sambar/sambar.py:114 | the code as written: the aligned division has one row per pathway of the incidence matrix and one column per sample |
| Desparsify.DroppedPathwayReturns | sambar/sambar.py:108-120 | a pathway without a cancer gene that has rates is absent from the intended scores, but as written it comes back as a row of NaN that the all-zero test keeps |

## Left out

- `binomial_dist`, the clustering functions and the `sambar` entry point are not part of this model; they come after the pathway scores.
- File reading (lines 50-51) is left out: `Gmt.ConvertGmt` and `Desparsify.Desparsify` take the file's lines as a parameter. The tables are given as matrices, so their text format is not modelled.
- The runtime measurement and its print (lines 87, 122-123) are left out; they do not affect the result.
- Floating point is modelled as exact real arithmetic, so rounding and IEEE infinities and NaN are not modelled. The exception is the NaN of the finding below.
- GeneLength.ValidTables: requires non-negative counts and positive gene lengths in every column of both tables. The source divides only the kept genes (lines 23-28), so for the other columns this asks more than the source needs. For a kept gene, a zero or negative length would give infinities or NaN in pandas, which the real-number model cannot represent.
- Labels and duplicates: row and column labels are assumed distinct (`Frames.Labelled`); pandas also accepts duplicate labels, whose lookups return several rows.
- networkx is not part of this model. Its graph at lines 66-67 is replaced by plain list membership, and its two refusals at line 67 are modelled as the errors `EmptyGraph` and `DuplicateNode`. These follow networkx's `to_scipy_sparse_array`: it rejects a graph without nodes and a node list with a repeated node. Its other checks cannot fire here, since every name of `C + P` is a node. Repeated genes in a line give a single edge in both.
- Intermediate column order (`list(set)` at lines 20, 23 and 81) is arbitrary in the source. The model sorts at once; every exposed output is sorted by label in the source too (lines 42, 83, 95).
- GeneLength.CorGeneLength: models the intended normalisation, which never touches a gene column named "sum"; the code as written is `GeneLength.NormaliseRowsAsWritten` (see Findings).
- Gmt.ParseGmt: models the intended line reading, which strips only a trailing newline; the code as written is `Gmt.ParseLineAsWritten` (see Findings).
- Desparsify.Desparsify: returns the intended scores, without the NaN rows that pandas' alignment at line 114 adds. The code as written is `Desparsify.AlignedScoresAsWritten` (see Findings).
- Desparsify.Desparsify: no error for an empty intermediate or final matrix, as in the code (see above).

## Findings

| source | as written | input that shows it | evidently intended | confidence | as-written member | corrected member |
|---|---|---|---|---|---|---|
| sambar/sambar.py:55 | `entry[:-1]` removes the last character of every line, newline or not | a final line `P1<TAB>link<TAB>TP53` without a trailing newline reads its gene as `TP5` | remove only the line's terminating newline | medium; not executed | Gmt.LastLineTruncated | Gmt.ParseFormatted |
| sambar/sambar.py:35-37 | the row totals are stored in a column named "sum", which overwrites a gene column of that name, and that column is then dropped | sample `s1` with genes `TP53` and `sum`, each 1.0: the result keeps only `TP53`, with total 0.5 | divide each row by its total without touching the gene columns | low; not executed | GeneLength.SumGeneClobbered | GeneLength.CorGeneLengthProfiles |
| sambar/sambar.py:114-117 | `.div(sm, axis=0)` aligns the product's rows with all pathways of `sm` (an outer join), so a pathway pruned at lines 108-111 comes back as a row of NaN; the all-zero test at line 117 keeps it, because NaN does not equal 0; every sample column then holds a NaN, so line 119 drops no sample either, not even one whose scores are all zero | any pathway whose cancer genes all lack rates, with at least one sample | scores only for the pathways kept at lines 108-111 | medium; not executed | Desparsify.DroppedPathwayReturns | Desparsify.ScoredPathways |
