/** `convertgmt`: reading gene-set lines in the MSigDB GMT layout (pathway id,
    a link field, then the member genes, separated by tabs) into a binary
    pathway x gene incidence matrix restricted to cancer genes. */
module Gmt {
  import opened Labels
  import opened Frames

  const Tab: char := '\t'
  const Newline: char := '\n'

  function FirstIndex(s: string, c: char): (i: nat)
    requires c in s
    ensures i < |s| && s[i] == c && c !in s[..i]
  {
    if s[0] == c then 0 else 1 + FirstIndex(s[1..], c)
  }

  /** Python's `s.split(sep)`: the pieces between separators, never none. */
  function Split(s: string, sep: char): (parts: seq<string>)
    ensures |parts| >= 1
    ensures forall k :: 0 <= k < |parts| ==> sep !in parts[k]
    decreases |s|
  {
    if sep in s then
      var i := FirstIndex(s, sep);
      [s[..i]] + Split(s[i + 1..], sep)
    else
      [s]
  }

  /** Python's `sep.join(parts)`. */
  function Join(parts: seq<string>, sep: char): string
    requires |parts| >= 1
  {
    if |parts| == 1 then parts[0] else parts[0] + [sep] + Join(parts[1..], sep)
  }

  /** Joining the pieces of a split gives back the string. */
  lemma {:induction false} JoinSplit(s: string, sep: char)
    ensures Join(Split(s, sep), sep) == s
    decreases |s|
  {
    if sep in s {
      var i := FirstIndex(s, sep);
      var rest := Split(s[i + 1..], sep);
      var parts := Split(s, sep);
      assert parts == [s[..i]] + rest;
      assert parts[1..] == rest;
      JoinSplit(s[i + 1..], sep);
      calc {
        Join(parts, sep);
        parts[0] + [sep] + Join(rest, sep);
        s[..i] + [sep] + s[i + 1..];
        s;
      }
    }
  }

  /** Splitting a join of separator-free pieces gives back the pieces. */
  lemma {:induction false} SplitJoin(parts: seq<string>, sep: char)
    requires |parts| >= 1
    requires forall k :: 0 <= k < |parts| ==> sep !in parts[k]
    ensures Split(Join(parts, sep), sep) == parts
  {
    if |parts| > 1 {
      var rest := Join(parts[1..], sep);
      assert Join(parts, sep) == parts[0] + [sep] + rest;
      SplitAtSeparator(parts[0], sep, rest);
      SplitJoin(parts[1..], sep);
      assert parts == [parts[0]] + parts[1..];
    }
  }

  /** A string cut at its first separator splits into the part before it
      followed by the pieces of the part after it. */
  lemma SplitAtSeparator(head: string, sep: char, rest: string)
    requires sep !in head
    ensures Split(head + [sep] + rest, sep) == [head] + Split(rest, sep)
  {
    var s := head + [sep] + rest;
    FirstIndexAfter(head, sep, rest);
    assert s[..|head|] == head;
    assert s[|head| + 1..] == rest;
  }

  lemma {:induction false} FirstIndexAfter(head: string, sep: char, rest: string)
    requires sep !in head
    ensures sep in head + [sep] + rest && FirstIndex(head + [sep] + rest, sep) == |head|
    decreases |head|
  {
    var s := head + [sep] + rest;
    assert s[|head|] == sep;
    if |head| != 0 {
      assert s[0] == head[0];
      assert s[1..] == head[1..] + [sep] + rest;
      FirstIndexAfter(head[1..], sep, rest);
    }
  }

  /** `line[:-1]`: the last character goes, whatever it is. */
  function DropLastChar(line: string): string
  {
    if |line| == 0 then line else line[..|line| - 1]
  }

  /** Removes one trailing newline, and only a newline. */
  function StripNewline(line: string): string
  {
    if |line| > 0 && line[|line| - 1] == Newline then line[..|line| - 1] else line
  }

  /** Field 0 is the pathway id; field 1 (the link) is skipped; fields 2 onward
      are the genes, none when the line has fewer than three fields. */
  function Record(fields: seq<string>): (string, seq<string>)
    requires |fields| >= 1
  {
    (fields[0], if |fields| > 2 then fields[2..] else [])
  }

  /** Line 55 as written: `entry[:-1].split("\t")`, which also cuts the last
      character of a final line that has no newline. */
  function ParseLineAsWritten(line: string): (entry: (string, seq<string>))
    ensures Tab !in entry.0 && forall k :: 0 <= k < |entry.1| ==> Tab !in entry.1[k]
  {
    Record(Split(DropLastChar(line), Tab))
  }

  /** One GMT line read as intended: strip the line's newline, split on tabs. */
  function ParseLine(line: string): (entry: (string, seq<string>))
    ensures Tab !in entry.0 && forall k :: 0 <= k < |entry.1| ==> Tab !in entry.1[k]
  {
    Record(Split(StripNewline(line), Tab))
  }

  /** A GMT line as a writer of the format lays it out. */
  function FormatLine(id: string, link: string, genes: seq<string>): string
  {
    Join([id, link] + genes, Tab) + [Newline]
  }

  predicate TabFree(fields: seq<string>)
  {
    forall k :: 0 <= k < |fields| ==> Tab !in fields[k]
  }

  /** Reading a well-formed line gives back its id and its genes, both as
      written and as intended. */
  lemma ParseFormatted(id: string, link: string, genes: seq<string>)
    requires TabFree([id, link] + genes)
    ensures ParseLine(FormatLine(id, link, genes)) == (id, genes)
    ensures ParseLineAsWritten(FormatLine(id, link, genes)) == (id, genes)
  {
    var fields := [id, link] + genes;
    var line := FormatLine(id, link, genes);
    assert StripNewline(line) == Join(fields, Tab);
    assert DropLastChar(line) == Join(fields, Tab);
    SplitJoin(fields, Tab);
    assert fields[2..] == genes;
  }

  /** On a line that ends in a newline the two readings agree. */
  lemma ParseLineAgrees(line: string)
    requires |line| > 0 && line[|line| - 1] == Newline
    ensures ParseLineAsWritten(line) == ParseLine(line)
  {
  }

  lemma {:induction false} JoinDropLast(parts: seq<string>, sep: char)
    requires |parts| >= 1 && |parts[|parts| - 1]| > 0
    ensures var last := parts[|parts| - 1];
            DropLastChar(Join(parts, sep)) == Join(parts[..|parts| - 1] + [last[..|last| - 1]], sep)
  {
    var last := parts[|parts| - 1];
    if |parts| > 1 {
      JoinDropLast(parts[1..], sep);
      assert parts[1..][..|parts| - 2] + [last[..|last| - 1]]
          == (parts[..|parts| - 1] + [last[..|last| - 1]])[1..];
    }
  }

  /** A final line without its newline loses the last character of its last
      gene as written, and keeps it as intended. */
  lemma LastLineTruncated(id: string, link: string, genes: seq<string>)
    requires |genes| > 0 && |genes[|genes| - 1]| > 0
    requires TabFree([id, link] + genes)
    requires genes[|genes| - 1][|genes[|genes| - 1]| - 1] != Newline
    ensures var last := genes[|genes| - 1];
            && ParseLineAsWritten(Join([id, link] + genes, Tab)) == (id, genes[..|genes| - 1] + [last[..|last| - 1]])
            && ParseLine(Join([id, link] + genes, Tab)) == (id, genes)
  {
    LastLineCut(id, link, genes);
    LastLineKept(id, link, genes);
  }

  lemma LastLineCut(id: string, link: string, genes: seq<string>)
    requires |genes| > 0 && |genes[|genes| - 1]| > 0
    requires TabFree([id, link] + genes)
    ensures var last := genes[|genes| - 1];
            ParseLineAsWritten(Join([id, link] + genes, Tab)) == (id, genes[..|genes| - 1] + [last[..|last| - 1]])
  {
    var fields := [id, link] + genes;
    var last := genes[|genes| - 1];
    assert fields[|fields| - 1] == last;
    var cut := fields[..|fields| - 1] + [last[..|last| - 1]];
    var line := Join(fields, Tab);
    JoinDropLast(fields, Tab);
    assert DropLastChar(line) == Join(cut, Tab);
    CutTabFree(fields);
    SplitJoin(cut, Tab);
    assert |cut| > 2 && cut[0] == id;
    assert cut[2..] == genes[..|genes| - 1] + [last[..|last| - 1]];
  }

  lemma CutTabFree(fields: seq<string>)
    requires |fields| >= 1 && |fields[|fields| - 1]| > 0 && TabFree(fields)
    ensures var last := fields[|fields| - 1];
            TabFree(fields[..|fields| - 1] + [last[..|last| - 1]])
  {
    var last := fields[|fields| - 1];
    var cut := fields[..|fields| - 1] + [last[..|last| - 1]];
    forall k | 0 <= k < |cut|
      ensures Tab !in cut[k]
    {
      if k == |cut| - 1 {
        assert Tab !in last;
      } else {
        assert cut[k] == fields[k];
      }
    }
  }

  lemma LastLineKept(id: string, link: string, genes: seq<string>)
    requires |genes| > 0 && |genes[|genes| - 1]| > 0
    requires TabFree([id, link] + genes)
    requires genes[|genes| - 1][|genes[|genes| - 1]| - 1] != Newline
    ensures ParseLine(Join([id, link] + genes, Tab)) == (id, genes)
  {
    var fields := [id, link] + genes;
    var line := Join(fields, Tab);
    JoinEndsWith(fields, Tab);
    assert StripNewline(line) == line;
    SplitJoin(fields, Tab);
    assert fields[2..] == genes;
  }

  lemma {:induction false} JoinEndsWith(parts: seq<string>, sep: char)
    requires |parts| >= 1 && |parts[|parts| - 1]| > 0
    ensures var last := parts[|parts| - 1];
            var s := Join(parts, sep);
            |s| > 0 && s[|s| - 1] == last[|last| - 1]
  {
    if |parts| > 1 {
      JoinEndsWith(parts[1..], sep);
    }
  }

  /** Each line read with `ParseLine`, in order. */
  function Entries(lines: seq<string>): (entries: seq<(string, seq<string>)>)
    ensures |entries| == |lines|
  {
    seq(|lines|, i requires 0 <= i < |lines| => ParseLine(lines[i]))
  }

  /** A dictionary filled from the entries in order, a later entry with the
      same id replacing the earlier one. */
  function Collect(entries: seq<(string, seq<string>)>): (a: map<string, seq<string>>)
  {
    if |entries| == 0 then map[]
    else
      var last := entries[|entries| - 1];
      Collect(entries[..|entries| - 1])[last.0 := last.1]
  }

  /** The dictionary built by lines 53-56: every line read in order, a later
      line with the same pathway id replacing the earlier one. */
  function ParseGmt(lines: seq<string>): (a: map<string, seq<string>>)
    ensures |lines| > 0 ==> var last := ParseLine(lines[|lines| - 1]);
                            last.0 in a && a[last.0] == last.1
  {
    var entries := Entries(lines);
    assert |lines| > 0 ==> entries[|lines| - 1] == ParseLine(lines[|lines| - 1]);
    Collect(entries)
  }

  lemma {:induction false} CollectKeys(entries: seq<(string, seq<string>)>, id: string)
    ensures id in Collect(entries) <==> exists i :: 0 <= i < |entries| && entries[i].0 == id
  {
    if |entries| != 0 {
      var n := |entries| - 1;
      var init := entries[..n];
      CollectKeys(init, id);
      if entries[n].0 != id {
        if exists i :: 0 <= i < |entries| && entries[i].0 == id {
          var i :| 0 <= i < |entries| && entries[i].0 == id;
          assert init[i] == entries[i];
        }
      }
    }
  }

  /** The pathway ids are exactly the ids of the lines. */
  lemma ParseGmtKeys(lines: seq<string>)
    ensures forall id :: id in ParseGmt(lines) <==> exists i :: 0 <= i < |lines| && ParseLine(lines[i]).0 == id
  {
    var entries := Entries(lines);
    forall id
      ensures id in ParseGmt(lines) <==> exists i :: 0 <= i < |lines| && ParseLine(lines[i]).0 == id
    {
      CollectKeys(entries, id);
      if exists i :: 0 <= i < |lines| && ParseLine(lines[i]).0 == id {
        var i :| 0 <= i < |lines| && ParseLine(lines[i]).0 == id;
        assert entries[i].0 == id;
      }
    }
  }

  lemma {:induction false} CollectLastWins(entries: seq<(string, seq<string>)>, i: nat)
    requires i < |entries|
    requires forall j :: i < j < |entries| ==> entries[j].0 != entries[i].0
    ensures entries[i].0 in Collect(entries) && Collect(entries)[entries[i].0] == entries[i].1
  {
    if i < |entries| - 1 {
      var init := entries[..|entries| - 1];
      assert init[i] == entries[i];
      forall j | i < j < |init|
        ensures init[j].0 != init[i].0
      {
        assert init[j] == entries[j];
      }
      CollectLastWins(init, i);
    }
  }

  /** Each id holds the genes of the last line that carries it. */
  lemma ParseGmtLastWins(lines: seq<string>, i: nat)
    requires i < |lines|
    requires forall j :: i < j < |lines| ==> ParseLine(lines[j]).0 != ParseLine(lines[i]).0
    ensures ParseLine(lines[i]).0 in ParseGmt(lines)
    ensures ParseGmt(lines)[ParseLine(lines[i]).0] == ParseLine(lines[i]).1
  {
    var entries := Entries(lines);
    forall j | i < j < |entries|
      ensures entries[j].0 != entries[i].0
    {
      assert entries[j] == ParseLine(lines[j]);
    }
    CollectLastWins(entries, i);
  }

  /** Every gene listed under one of the ids in `ids`. */
  function GenesUnder(a: map<string, seq<string>>, ids: set<string>): (genes: set<string>)
    ensures forall g :: g in genes <==> exists id :: id in ids && id in a && g in a[id]
  {
    set id, g | id in ids && id in a && g in a[id] :: g
  }

  /** 1.0 where the column gene is listed under the row pathway, else 0.0. */
  function Membership(a: map<string, seq<string>>, pathways: seq<string>, genes: seq<string>): (cells: seq<seq<real>>)
    requires forall i :: 0 <= i < |pathways| ==> pathways[i] in a
    ensures |cells| == |pathways| && forall i :: 0 <= i < |cells| ==> |cells[i]| == |genes|
  {
    seq(|pathways|, i requires 0 <= i < |pathways| =>
      seq(|genes|, j requires 0 <= j < |genes| => if genes[j] in a[pathways[i]] then 1.0 else 0.0))
  }

  /** The pathway x gene matrix of lines 59-83: every pathway id as a row,
      sorted; the listed cancer genes as columns, sorted. */
  function Incidence(a: map<string, seq<string>>, cangenes: set<string>): (m: Frame)
    ensures Shaped(m)
  {
    var pathways := SortSet(a.Keys);
    var genes := SortSet(cangenes * GenesUnder(a, a.Keys));
    Frame(pathways, genes, Membership(a, pathways, genes))
  }

  /** Some listed gene is also a pathway id, so the node list `C + P` of
      line 67 names that node twice. */
  predicate NameClash(a: map<string, seq<string>>)
  {
    exists id, g :: id in a && g in a[id] && g in a
  }

  /** `convertgmt(lines, cangenes)`. `nx.adjacency_matrix` (line 67) refuses a
      graph without nodes and a node list with a repeated node; otherwise the
      result is the incidence matrix of the parsed lines. */
  function SignMatrix(lines: seq<string>, cangenes: set<string>): (r: Result<Frame>)
    ensures r.Ok? ==> r.value == Incidence(ParseGmt(lines), cangenes)
  {
    var a := ParseGmt(lines);
    if |a| == 0 then Err(EmptyGraph)
    else if NameClash(a) then Err(DuplicateNode)
    else Ok(Incidence(a, cangenes))
  }

  /** No later line has the id of line `j`: line `j` gives that id its genes. */
  predicate LastOfId(lines: seq<string>, j: nat)
    requires j < |lines|
  {
    forall k :: j < k < |lines| ==> ParseLine(lines[k]).0 != ParseLine(lines[j]).0
  }

  /** The id of some line is listed as a gene by a line that gives its
      pathway its genes. */
  predicate IdListedAsGene(lines: seq<string>)
  {
    exists i, j :: 0 <= i < |lines| && 0 <= j < |lines| && LastOfId(lines, j)
                   && ParseLine(lines[i]).0 in ParseLine(lines[j]).1
  }

  /** `convertgmt` fails on an empty file, and otherwise exactly when a
      pathway id is also listed as a gene. */
  lemma SignMatrixFails(lines: seq<string>, cangenes: set<string>)
    ensures SignMatrix(lines, cangenes) == Err(EmptyGraph) <==> |lines| == 0
    ensures SignMatrix(lines, cangenes) == Err(DuplicateNode) <==> |lines| > 0 && IdListedAsGene(lines)
  {
    if |lines| > 0 {
      CollectKeys(Entries(lines), ParseLine(lines[0]).0);
      assert Entries(lines)[0].0 == ParseLine(lines[0]).0;
    }
    if NameClash(ParseGmt(lines)) {
      ClashFromLines(lines);
    }
    if IdListedAsGene(lines) {
      ClashToLines(lines);
    }
  }

  lemma ClashFromLines(lines: seq<string>)
    requires NameClash(ParseGmt(lines))
    ensures IdListedAsGene(lines)
  {
    var a := ParseGmt(lines);
    var id, g :| id in a && g in a[id] && g in a;
    var j := LastLineOf(lines, id);
    ParseGmtLastWins(lines, j);
    CollectKeys(Entries(lines), g);
    var i :| 0 <= i < |lines| && Entries(lines)[i].0 == g;
    assert ParseLine(lines[i]).0 in ParseLine(lines[j]).1;
  }

  lemma ClashToLines(lines: seq<string>)
    requires IdListedAsGene(lines)
    ensures NameClash(ParseGmt(lines))
  {
    var a := ParseGmt(lines);
    var i, j :| 0 <= i < |lines| && 0 <= j < |lines| && LastOfId(lines, j)
                && ParseLine(lines[i]).0 in ParseLine(lines[j]).1;
    ParseGmtLastWins(lines, j);
    CollectKeys(Entries(lines), ParseLine(lines[i]).0);
    assert Entries(lines)[i].0 == ParseLine(lines[i]).0;
  }

  /** The last line that carries a given id. */
  lemma LastLineOf(lines: seq<string>, id: string) returns (j: nat)
    requires id in ParseGmt(lines)
    ensures j < |lines| && ParseLine(lines[j]).0 == id && LastOfId(lines, j)
  {
    var entries := Entries(lines);
    CollectKeys(entries, id);
    var ids := seq(|entries|, k requires 0 <= k < |entries| => entries[k].0);
    var i :| 0 <= i < |entries| && entries[i].0 == id;
    assert ids[i] == id;
    j := LastPosition(ids, id);
    assert entries[j] == ParseLine(lines[j]);
    forall k | j < k < |lines|
      ensures ParseLine(lines[k]).0 != ParseLine(lines[j]).0
    {
      assert ids[k] == entries[k].0 == ParseLine(lines[k]).0;
    }
  }

  /** The position of the last occurrence of `x` in `s`. */
  lemma LastPosition(s: seq<string>, x: string) returns (j: nat)
    requires x in s
    ensures j < |s| && s[j] == x && forall k :: j < k < |s| ==> s[k] != x
  {
    j := |s| - 1;
    while s[j] != x
      invariant j < |s| && x in s[..j + 1]
      invariant forall k :: j < k < |s| ==> s[k] != x
      decreases j
    {
      j := j - 1;
    }
  }

  /** `convertgmt(lines, cangenes)`, filling the dictionary and the gene set in
      loops as the source does. */
  method ConvertGmt(lines: seq<string>, cangenes: set<string>) returns (r: Result<Frame>)
    ensures r == SignMatrix(lines, cangenes)
  {
    var a := ReadPathways(lines);
    var listed := ListedGenes(a);
    if |a| == 0 {
      r := Err(EmptyGraph);
    } else if listed * a.Keys != {} {
      var g :| g in listed * a.Keys;
      r := Err(DuplicateNode);
    } else {
      var pathways := SortSet(a.Keys);
      var genes := SortSet(cangenes * listed);
      r := Ok(Frame(pathways, genes, Membership(a, pathways, genes)));
    }
  }

  /** The first loop: one dictionary entry per line, a later line with the
      same id replacing an earlier one. */
  method ReadPathways(lines: seq<string>) returns (a: map<string, seq<string>>)
    ensures a == ParseGmt(lines)
  {
    a := map[];
    for n := 0 to |lines|
      invariant a == Collect(Entries(lines[..n]))
    {
      var entry := ParseLine(lines[n]);
      a := a[entry.0 := entry.1];
      assert Entries(lines[..n + 1])[..n] == Entries(lines[..n]);
    }
    assert lines[..|lines|] == lines;
  }

  /** The second loop: the union of the gene lists of all pathways. */
  method ListedGenes(a: map<string, seq<string>>) returns (listed: set<string>)
    ensures listed == GenesUnder(a, a.Keys)
  {
    listed := {};
    var pending := a.Keys;
    while pending != {}
      invariant pending <= a.Keys
      invariant listed == GenesUnder(a, a.Keys - pending)
      decreases pending
    {
      var id :| id in pending;
      listed := listed + Elems(a[id]);
      pending := pending - {id};
    }
    assert a.Keys - pending == a.Keys;
  }

  /** Rows: every parsed pathway id, sorted, including pathways that list no
      cancer gene. */
  lemma IncidenceRows(a: map<string, seq<string>>, cangenes: set<string>)
    ensures var m := Incidence(a, cangenes);
            Sorted(m.index) && forall id :: id in m.index <==> id in a
  {
  }

  /** Columns: the cancer genes listed under some pathway, sorted. */
  lemma IncidenceColumns(a: map<string, seq<string>>, cangenes: set<string>)
    ensures var m := Incidence(a, cangenes);
            && Sorted(m.columns)
            && forall g :: g in m.columns <==> g in cangenes && exists id :: id in a && g in a[id]
  {
  }

  /** A cell is 1 when the column gene is listed under the row pathway (however
      many times) and 0 otherwise. */
  lemma IncidenceCells(a: map<string, seq<string>>, cangenes: set<string>)
    ensures var m := Incidence(a, cangenes);
            forall i, j :: 0 <= i < |m.index| && 0 <= j < |m.columns| ==>
              m.index[i] in a &&
              (m.values[i][j] == 1.0 <==> m.columns[j] in a[m.index[i]]) &&
              (m.values[i][j] == 0.0 <==> m.columns[j] !in a[m.index[i]])
  {
  }

  /** Every gene column holds a 1: each column gene is listed by a pathway. */
  lemma IncidenceColumnsUsed(a: map<string, seq<string>>, cangenes: set<string>)
    ensures NoZeroColumns(Incidence(a, cangenes))
  {
    var m := Incidence(a, cangenes);
    forall j | 0 <= j < |m.columns|
      ensures !ZeroColumn(m, j)
    {
      IncidenceColumnUsed(a, cangenes, j);
    }
  }

  lemma IncidenceColumnUsed(a: map<string, seq<string>>, cangenes: set<string>, j: nat)
    requires j < |Incidence(a, cangenes).columns|
    ensures !ZeroColumn(Incidence(a, cangenes), j)
  {
    var m := Incidence(a, cangenes);
    ColumnGeneListed(a, cangenes, j);
    var id :| id in a && m.columns[j] in a[id];
    var i := IndexOf(m.index, id);
    assert m.values[i][j] == 1.0;
  }

  lemma ColumnGeneListed(a: map<string, seq<string>>, cangenes: set<string>, j: nat)
    requires j < |Incidence(a, cangenes).columns|
    ensures exists id :: id in a && Incidence(a, cangenes).columns[j] in a[id]
  {
    var g := Incidence(a, cangenes).columns[j];
    assert g in cangenes * GenesUnder(a, a.Keys);
  }

  /** 1.0 at the labels that belong to `members`, 0.0 elsewhere. */
  function Indicator(labels: seq<string>, members: set<string>): (r: seq<real>)
    ensures |r| == |labels|
  {
    seq(|labels|, j requires 0 <= j < |labels| => if labels[j] in members then 1.0 else 0.0)
  }

  /** Adding up an indicator row counts the distinct labels that are members. */
  lemma {:induction false} IndicatorSum(labels: seq<string>, members: set<string>)
    requires Distinct(labels)
    ensures Sum(Indicator(labels, members)) == |Elems(labels) * members| as real
  {
    if |labels| != 0 {
      var init := labels[..|labels| - 1];
      var x := labels[|labels| - 1];
      IndicatorSum(init, members);
      assert Indicator(labels, members)[..|labels| - 1] == Indicator(init, members);
      assert Elems(labels) == Elems(init) + {x};
      assert x !in Elems(init);
      if x in members {
        assert Elems(labels) * members == Elems(init) * members + {x};
      } else {
        assert Elems(labels) * members == Elems(init) * members;
      }
    }
  }

  /** The pathways that list gene `g`. */
  function PathwaysOf(a: map<string, seq<string>>, g: string): (ids: set<string>)
    ensures forall id :: id in ids <==> id in a && g in a[id]
  {
    set id | id in a && g in a[id]
  }

  /** A row of the incidence matrix adds up to the number of distinct cancer
      genes its pathway lists. */
  lemma IncidenceRowSums(a: map<string, seq<string>>, cangenes: set<string>)
    ensures var m := Incidence(a, cangenes);
            forall i :: 0 <= i < |m.index| ==>
              m.index[i] in a && Sum(m.values[i]) == |cangenes * Elems(a[m.index[i]])| as real
  {
    var m := Incidence(a, cangenes);
    IncidenceRows(a, cangenes);
    IncidenceColumns(a, cangenes);
    MembershipRowSums(a, m.index, m.columns, cangenes);
  }

  lemma MembershipRowSums(a: map<string, seq<string>>, pathways: seq<string>, genes: seq<string>, cangenes: set<string>)
    requires forall k :: 0 <= k < |pathways| ==> pathways[k] in a
    requires Sorted(genes)
    requires forall g :: g in genes <==> g in cangenes && exists id :: id in a && g in a[id]
    ensures forall i :: 0 <= i < |pathways| ==>
              Sum(Membership(a, pathways, genes)[i]) == |cangenes * Elems(a[pathways[i]])| as real
  {
    forall i | 0 <= i < |pathways|
      ensures Sum(Membership(a, pathways, genes)[i]) == |cangenes * Elems(a[pathways[i]])| as real
    {
      assert forall g :: g in cangenes && g in a[pathways[i]] ==> g in genes;
      MembershipRowSum(a, pathways, genes, cangenes, i);
    }
  }

  lemma MembershipRowSum(a: map<string, seq<string>>, pathways: seq<string>, genes: seq<string>, cangenes: set<string>, i: nat)
    requires forall k :: 0 <= k < |pathways| ==> pathways[k] in a
    requires Distinct(genes) && i < |pathways|
    requires forall l :: 0 <= l < |genes| ==> genes[l] in cangenes
    requires forall g :: g in cangenes && g in a[pathways[i]] ==> g in genes
    ensures Sum(Membership(a, pathways, genes)[i]) == |cangenes * Elems(a[pathways[i]])| as real
  {
    var members := Elems(a[pathways[i]]);
    assert Membership(a, pathways, genes)[i] == Indicator(genes, members);
    IndicatorSum(genes, members);
    assert Elems(genes) * members == cangenes * members;
  }

  /** A column of the incidence matrix adds up to the number of pathways that
      list its gene, which is at least one. */
  lemma IncidenceColumnSums(a: map<string, seq<string>>, cangenes: set<string>)
    ensures var m := Incidence(a, cangenes);
            forall j :: 0 <= j < |m.columns| ==>
              Sum(Transpose(m).values[j]) == |PathwaysOf(a, m.columns[j])| as real &&
              |PathwaysOf(a, m.columns[j])| >= 1
  {
    var m := Incidence(a, cangenes);
    forall j | 0 <= j < |m.columns|
      ensures Sum(Transpose(m).values[j]) == |PathwaysOf(a, m.columns[j])| as real
      ensures |PathwaysOf(a, m.columns[j])| >= 1
    {
      IncidenceColumnSum(a, cangenes, j);
    }
  }

  lemma IncidenceColumnSum(a: map<string, seq<string>>, cangenes: set<string>, j: nat)
    requires j < |Incidence(a, cangenes).columns|
    ensures var m := Incidence(a, cangenes);
            Sum(Transpose(m).values[j]) == |PathwaysOf(a, m.columns[j])| as real &&
            |PathwaysOf(a, m.columns[j])| >= 1
  {
    var m := Incidence(a, cangenes);
    IncidenceRows(a, cangenes);
    ColumnGeneListed(a, cangenes, j);
    MembershipColumnSum(a, m, j);
  }

  lemma MembershipColumnSum(a: map<string, seq<string>>, m: Frame, j: nat)
    requires Sorted(m.index) && forall id :: id in m.index <==> id in a
    requires m.values == Membership(a, m.index, m.columns) && j < |m.columns|
    requires exists id :: id in a && m.columns[j] in a[id]
    ensures Sum(Transpose(m).values[j]) == |PathwaysOf(a, m.columns[j])| as real
    ensures |PathwaysOf(a, m.columns[j])| >= 1
  {
    MembershipColumn(a, m, j);
    CountListing(a, m.index, m.columns[j]);
  }

  /** Over an index that holds every pathway id once, the indicator of the
      pathways listing `g` adds up to their number. */
  lemma CountListing(a: map<string, seq<string>>, ids: seq<string>, g: string)
    requires Sorted(ids) && forall id :: id in ids <==> id in a
    requires exists id :: id in a && g in a[id]
    ensures Sum(Indicator(ids, PathwaysOf(a, g))) == |PathwaysOf(a, g)| as real
    ensures |PathwaysOf(a, g)| >= 1
  {
    var members := PathwaysOf(a, g);
    IndicatorSum(ids, members);
    assert Elems(ids) * members == members;
    var id :| id in a && g in a[id];
    assert id in members;
  }

  /** A column of a membership matrix is the indicator of the pathways that
      list its gene. */
  lemma MembershipColumn(a: map<string, seq<string>>, m: Frame, j: nat)
    requires forall i :: 0 <= i < |m.index| ==> m.index[i] in a
    requires m.values == Membership(a, m.index, m.columns) && j < |m.columns|
    ensures Transpose(m).values[j] == Indicator(m.index, PathwaysOf(a, m.columns[j]))
  {
    var col := Transpose(m).values[j];
    var ind := Indicator(m.index, PathwaysOf(a, m.columns[j]));
    forall i | 0 <= i < |m.index|
      ensures col[i] == ind[i]
    {
      assert col[i] == m.values[i][j];
    }
  }
}
