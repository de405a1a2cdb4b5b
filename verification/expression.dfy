/** Column and row selection of `3_preprocess_expression.py`: the gene-length
    table, the header rule that marks columns to drop, the deletion of the
    marked positions from the length list and from every count row, and the
    skipping of repeated samples. The floating-point work on the selected
    counts is not part of this model; numeric cells stay the strings the
    file holds. */
module Expression {
  import opened Results
  import opened PyStr
  import opened Seqs

  /** `line.replace('"', '').strip().split('\t')`: the fields of a count-file
      or gene-length line. */
  function Unquoted(line: string): seq<string> {
    Split(Strip(RemoveAll(line, '"')), '\t')
  }

  /** The fields of every line. */
  function FieldsOf(lines: seq<string>): (r: seq<seq<string>>)
    ensures |r| == |lines|
    ensures forall i :: 0 <= i < |lines| ==> r[i] == Unquoted(lines[i])
  {
    seq(|lines|, i requires 0 <= i < |lines| => Unquoted(lines[i]))
  }

  // ---------------------------------------------------------------------------
  // parse_gene_lengths

  /** One gene-length row after unpacking: the gene and its length, `None`
      when `int` rejects the length text. */
  datatype LengthEntry = LengthEntry(gene: string, length: Option<int>)

  /** Storing the entries in order: an entry with a length sets it, a later
      entry overwriting an earlier one with the same gene; an entry without a
      length changes nothing. */
  function LengthTable(entries: seq<LengthEntry>): (r: map<string, int>)
  {
    if |entries| == 0 then map[]
    else
      var n := |entries| - 1;
      var prior := LengthTable(entries[..n]);
      match entries[n].length
      case None => prior
      case Some(len) => prior[entries[n].gene := len]
  }

  /** A gene is in the table exactly when some entry gives it a length. */
  lemma {:induction false} LengthTableKeys(entries: seq<LengthEntry>, g: string)
    ensures g in LengthTable(entries) <==> exists i :: 0 <= i < |entries| && entries[i].gene == g && entries[i].length.Some?
    decreases |entries|
  {
    if |entries| > 0 {
      var n := |entries| - 1;
      var init := entries[..n];
      LengthTableKeys(init, g);
      if g in LengthTable(entries) && !(entries[n].gene == g && entries[n].length.Some?) {
        var i :| 0 <= i < n && init[i].gene == g && init[i].length.Some?;
        assert entries[i] == init[i];
      }
      if exists i :: 0 <= i < |entries| && entries[i].gene == g && entries[i].length.Some? {
        var i :| 0 <= i < |entries| && entries[i].gene == g && entries[i].length.Some?;
        if i < n {
          assert init[i] == entries[i];
        }
      }
    }
  }

  /** The length stored for a gene is the one of the last entry that gives
      it a length. */
  lemma {:induction false} LengthTableLastWins(entries: seq<LengthEntry>, i: nat)
    requires i < |entries| && entries[i].length.Some?
    requires forall j :: i < j < |entries| && entries[j].length.Some? ==> entries[j].gene != entries[i].gene
    ensures entries[i].gene in LengthTable(entries)
    ensures LengthTable(entries)[entries[i].gene] == entries[i].length.value
    decreases |entries|
  {
    var n := |entries| - 1;
    assert forall j :: 0 <= j < n ==> entries[..n][j] == entries[j];
    if i < n {
      LengthTableLastWins(entries[..n], i);
    }
  }

  /** The gene-length rows after the header, as field lists: each must have
      exactly two fields (the unpacking raises `ValueError` otherwise, outside
      the `try`, on the first such row); otherwise each row becomes an entry
      whose length is `int` of the second field. */
  function GeneLengthsFrom(rows: seq<seq<string>>): (r: Result<map<string, int>>)
    ensures r.Ok? <==> forall i :: 0 <= i < |rows| ==> |rows[i]| == 2
    ensures r.Err? ==> exists i ::
      && 0 <= i < |rows| && |rows[i]| != 2 && r.fault == UnpackError(2, |rows[i]|)
      && (forall j :: 0 <= j < i ==> |rows[j]| == 2)
    ensures r.Ok? ==> r.value == LengthTable(Entries(rows))
  {
    match FirstWrongWidth(rows, 2)
    case Some(i) => Err(UnpackError(2, |rows[i]|))
    case None => Ok(LengthTable(Entries(rows)))
  }

  /** The entries of well-formed rows: gene and parsed length. */
  function Entries(rows: seq<seq<string>>): (r: seq<LengthEntry>)
    ensures |r| == |rows|
    ensures forall i :: 0 <= i < |rows| && |rows[i]| == 2 ==> r[i] == LengthEntry(rows[i][0], ParseInt(rows[i][1]))
  {
    seq(|rows|, i requires 0 <= i < |rows| =>
      if |rows[i]| == 2 then LengthEntry(rows[i][0], ParseInt(rows[i][1])) else LengthEntry([], None))
  }

  /** `parse_gene_lengths`: the first line is a header and is skipped; every
      other line is unquoted, stripped and split on tabs. */
  function ParseGeneLengths(lines: seq<string>): (r: Result<map<string, int>>)
    ensures |lines| <= 1 ==> r == Ok(map[])
    ensures r.Ok? <==> forall i :: 1 <= i < |lines| ==> |Unquoted(lines[i])| == 2
  {
    if |lines| == 0 then Ok(map[])
    else
      var rows := FieldsOf(lines[1..]);
      assert forall i :: 1 <= i < |lines| ==> rows[i - 1] == Unquoted(lines[i]);
      GeneLengthsFrom(rows)
  }

  // ---------------------------------------------------------------------------
  // the pathway gene list

  /** `get_pathway_genes`: the first field of every line after the header. */
  function PathwayGenes(lines: seq<string>): (r: set<string>)
    ensures forall g :: g in r <==> exists i :: 1 <= i < |lines| && Split(Strip(lines[i]), '\t')[0] == g
  {
    set i | 1 <= i < |lines| :: Split(Strip(lines[i]), '\t')[0]
  }

  // ---------------------------------------------------------------------------
  // the header

  /** `gene.split('.')[0]`: an Ensembl id without its version suffix. */
  function StripVersion(id: string): (r: string)
    ensures '.' !in r
    ensures |r| <= |id| && r == id[..|r|]
    ensures |r| == |id| || id[|r|] == '.'
  {
    BeforeFirst(id, '.')
  }

  /** Cutting the version is idempotent, and cuts exactly the suffix after
      the first dot. */
  lemma StripVersionCuts(base: string, version: string)
    requires '.' !in base
    ensures StripVersion(base) == base
    ensures StripVersion(base + ['.'] + version) == base
    ensures StripVersion(StripVersion(base + ['.'] + version)) == StripVersion(base + ['.'] + version)
  {
    BeforeFirstNoSep(base, '.');
    SplitPrefix(base, ['.'] + version, '.');
    assert base + ['.'] + version == base + (['.'] + version);
    SplitPrefix([], ['.'] + version, '.');
    assert [] + (['.'] + version) == ['.'] + version;
    assert Split(['.'] + version, '.')[0] == [];
  }

  /** The header ids, quotes removed and versions cut. */
  function HeaderGenes(header: string): (r: seq<string>)
    ensures |r| == |Unquoted(header)|
    ensures forall k :: 0 <= k < |r| ==> r[k] == StripVersion(Unquoted(header)[k])
  {
    var f := Unquoted(header);
    seq(|f|, k requires 0 <= k < |f| => StripVersion(f[k]))
  }

  /** The symbol an id maps to, `None` if unmapped. */
  function Symbol(symbols: map<string, string>, gene: string): Option<string> {
    if gene in symbols then Some(symbols[gene]) else None
  }

  /** Column `i` survives: its symbol is mapped, is a pathway gene, is the
      symbol of no earlier column, and its id has a known length. */
  ghost predicate Chosen(genes: seq<string>, symbols: map<string, string>, pathwayGenes: set<string>,
                         lengths: map<string, int>, i: nat)
    requires i < |genes|
  {
    && Symbol(symbols, genes[i]).Some?
    && Symbol(symbols, genes[i]).value in pathwayGenes
    && (forall j :: 0 <= j < i ==> Symbol(symbols, genes[j]) != Symbol(symbols, genes[i]))
    && genes[i] in lengths
  }

  /** The first marking loop, from column 0 on with the symbols kept so far
      in `seen`: a column is marked when its symbol is unmapped or already
      kept, or is not a pathway gene; otherwise its symbol is kept. */
  function SymbolMarks(syms: seq<Option<string>>, pathwayGenes: set<string>, seen: set<string>): (r: seq<bool>)
    ensures |r| == |syms|
    ensures forall i :: 0 <= i < |syms| ==>
      (!r[i] <==> && syms[i].Some? && syms[i].value in pathwayGenes && syms[i].value !in seen
                  && forall j :: 0 <= j < i ==> syms[j] != syms[i])
  {
    if |syms| == 0 then []
    else
      var s := syms[0];
      var seen' := if s.None? || s.value in seen || s.value !in pathwayGenes then seen else seen + {s.value};
      var rest := SymbolMarks(syms[1..], pathwayGenes, seen');
      var r := [seen' == seen] + rest;
      assert forall i :: 1 <= i < |syms| ==> syms[1..][i - 1] == syms[i] && r[i] == rest[i - 1];
      r
  }

  /** Both marking loops over the header ids: a column is marked by the
      symbol loop or by the length loop. */
  function BadFlags(genes: seq<string>, symbols: map<string, string>, pathwayGenes: set<string>,
                    lengths: map<string, int>): (r: seq<bool>)
    ensures |r| == |genes|
    ensures forall i :: 0 <= i < |genes| ==> (r[i] <==> !Chosen(genes, symbols, pathwayGenes, lengths, i))
  {
    var syms := seq(|genes|, k requires 0 <= k < |genes| => Symbol(symbols, genes[k]));
    var marks := SymbolMarks(syms, pathwayGenes, {});
    var r := seq(|genes|, k requires 0 <= k < |genes| => marks[k] || genes[k] !in lengths);
    forall i | 0 <= i < |genes|
      ensures r[i] <==> !Chosen(genes, symbols, pathwayGenes, lengths, i)
    {
      assert syms[i] == Symbol(symbols, genes[i]);
      assert forall j :: 0 <= j < i ==> syms[j] == Symbol(symbols, genes[j]);
    }
    r
  }

  /** The surviving columns, in ascending order, and the gene lengths left
      after the marked positions are deleted. */
  datatype Selection = Selection(genes: seq<string>, bad: seq<nat>, lengths: seq<Option<int>>)

  /** `gene_length_arr` before deletion: the length of each header id, `None`
      when unknown. */
  function LengthArray(genes: seq<string>, lengths: map<string, int>): (r: seq<Option<int>>)
    ensures |r| == |genes|
    ensures forall k :: 0 <= k < |genes| ==> (r[k].Some? <==> genes[k] in lengths)
  {
    seq(|genes|, k requires 0 <= k < |genes| => if genes[k] in lengths then Some(lengths[genes[k]]) else None)
  }

  /** The header step on the version-cut ids: the marks are deduplicated and
      sorted, and the length list loses the marked positions from the back.
      The marked positions are exactly the columns that are not chosen, so
      the surviving symbols are pairwise distinct, and every surviving
      column keeps its known length. */
  method SelectColumns(genes: seq<string>, symbols: map<string, string>, pathwayGenes: set<string>,
                       lengths: map<string, int>) returns (sel: Selection)
    ensures sel.genes == genes
    ensures StrictlyIncreasing(sel.bad)
    ensures forall k :: 0 <= k < |sel.bad| ==> sel.bad[k] < |genes|
    ensures forall i :: 0 <= i < |genes| ==>
      (i in sel.bad <==> !Chosen(genes, symbols, pathwayGenes, lengths, i))
    ensures sel.lengths == Keep(LengthArray(genes, lengths), Elems(sel.bad))
    ensures |sel.lengths| == |genes| - |sel.bad|
    ensures forall k :: 0 <= k < |sel.lengths| ==> sel.lengths[k].Some?
  {
    var flags := BadFlags(genes, symbols, pathwayGenes, lengths);
    var bad := Indices(flags);
    var arr := LengthArray(genes, lengths);
    var kept := DeleteReversed(arr, bad);
    if kept.Err? {
      assert false;
    }
    forall k | 0 <= k < |kept.value|
      ensures kept.value[k].Some?
    {
      KeepFrom(arr, Elems(bad), k);
      var i :| 0 <= i < |arr| && i !in Elems(bad) && arr[i] == kept.value[k];
      assert i !in bad;
    }
    sel := Selection(genes, bad, kept.value);
  }

  /** Two surviving columns never share a symbol. */
  lemma SurvivorsDistinct(genes: seq<string>, symbols: map<string, string>, pathwayGenes: set<string>,
                          lengths: map<string, int>, i: nat, j: nat)
    requires i < j < |genes|
    requires Chosen(genes, symbols, pathwayGenes, lengths, i) && Chosen(genes, symbols, pathwayGenes, lengths, j)
    ensures symbols[genes[i]] != symbols[genes[j]]
  {
    assert Symbol(symbols, genes[i]) != Symbol(symbols, genes[j]);
  }

  // ---------------------------------------------------------------------------
  // the count rows

  /** A count row's sample id: its first field. */
  function SampleOf(fields: seq<string>): string {
    if |fields| == 0 then [] else fields[0]
  }

  /** `line[1:]`: the counts after the sample id. */
  function CountFields(fields: seq<string>): seq<string> {
    if |fields| == 0 then [] else fields[1..]
  }

  /** A row whose deletion fails: the largest marked position is not a count
      position of the row. */
  predicate TooShort(fields: seq<string>, bad: seq<nat>) {
    |bad| > 0 && bad[|bad| - 1] >= |CountFields(fields)|
  }

  /** A processed row: its sample id and its counts at the surviving
      columns. */
  datatype Row = Row(sample: string, counts: seq<string>)

  /** One pass over the count rows, as field lists: a row whose sample id
      was seen before is skipped; every other row loses the marked positions
      of its counts (`line[1:]`) from the back. A row too short for that
      raises `IndexError`, which the `except ValueError` does not catch. The
      samples of the processed rows are pairwise distinct, and a processed
      row keeps `|bad|` fewer counts than it had. */
  method SelectRows(rows: seq<seq<string>>, bad: seq<nat>) returns (r: Result<seq<Row>>)
    requires StrictlyIncreasing(bad)
    ensures var unique := FirstSeen(rows, SampleOf);
      r.Err? <==> exists k :: 0 <= k < |unique| && TooShort(unique[k], bad)
    ensures r.Err? ==> r.fault == IndexError
    ensures r.Ok? ==> var unique := FirstSeen(rows, SampleOf);
      && |r.value| == |unique|
      && (forall k :: 0 <= k < |unique| ==>
            && r.value[k] == Row(SampleOf(unique[k]), Keep(CountFields(unique[k]), Elems(bad)))
            && |r.value[k].counts| == |CountFields(unique[k])| - |bad|)
    ensures r.Ok? ==> forall i, j :: 0 <= i < j < |r.value| ==> r.value[i].sample != r.value[j].sample
  {
    var unique := DedupFirstSeen(rows, SampleOf);
    var out: seq<Row> := [];
    for k := 0 to |unique|
      invariant |out| == k
      invariant forall j :: 0 <= j < k ==> !TooShort(unique[j], bad)
      invariant forall j :: 0 <= j < k ==>
        && out[j] == Row(SampleOf(unique[j]), Keep(CountFields(unique[j]), Elems(bad)))
        && |out[j].counts| == |CountFields(unique[j])| - |bad|
    {
      var fields := unique[k];
      var counts := DeleteReversed(CountFields(fields), bad);
      if counts.Err? {
        return Err(IndexError);
      }
      out := out + [Row(SampleOf(fields), counts.value)];
    }
    assert forall i, j :: 0 <= i < j < |out| ==> out[i].sample == SampleOf(unique[i]) && out[j].sample == SampleOf(unique[j]);
    return Ok(out);
  }

  /** Row `fields` has no count at some column that is not chosen, so the
      deletion of the marked positions runs past its end. */
  ghost predicate LacksMarkedCount(fields: seq<string>, genes: seq<string>, symbols: map<string, string>,
                                   pathwayGenes: set<string>, lengths: map<string, int>) {
    exists i :: |CountFields(fields)| <= i < |genes| && !Chosen(genes, symbols, pathwayGenes, lengths, i)
  }

  /** With the marks being exactly the columns not chosen, a row is too short
      for the deletion exactly when it lacks a count at such a column. */
  lemma TooShortExactly(fields: seq<string>, bad: seq<nat>, genes: seq<string>, symbols: map<string, string>,
                        pathwayGenes: set<string>, lengths: map<string, int>)
    requires StrictlyIncreasing(bad)
    requires forall k :: 0 <= k < |bad| ==> bad[k] < |genes|
    requires forall i :: 0 <= i < |genes| ==> (i in bad <==> !Chosen(genes, symbols, pathwayGenes, lengths, i))
    ensures TooShort(fields, bad) <==> LacksMarkedCount(fields, genes, symbols, pathwayGenes, lengths)
  {
    if TooShort(fields, bad) {
      assert bad[|bad| - 1] in bad;
    }
    if LacksMarkedCount(fields, genes, symbols, pathwayGenes, lengths) {
      var i :| |CountFields(fields)| <= i < |genes| && !Chosen(genes, symbols, pathwayGenes, lengths, i);
      var m :| 0 <= m < |bad| && bad[m] == i;
      assert m == |bad| - 1 || bad[m] < bad[|bad| - 1];
    }
  }

  /** The header step and the row pass, for the version-cut header ids,
      the pathway genes, the gene lengths and the rows after the header. The
      selection marks exactly the columns that are not chosen and keeps the
      lengths of the others; the pass fails with `IndexError` exactly when
      some first-seen row lacks a count at a marked column, and otherwise
      yields each first-seen row with its counts at the surviving columns. */
  method SelectCounts(genes: seq<string>, symbols: map<string, string>, pathwayGenes: set<string>,
                      lengths: map<string, int>, fields: seq<seq<string>>) returns (r: Result<(Selection, seq<Row>)>)
    requires forall i :: 0 <= i < |fields| ==> |fields[i]| >= 1
    ensures var unique := FirstSeen(fields, SampleOf);
      r.Err? <==> exists k :: 0 <= k < |unique| && LacksMarkedCount(unique[k], genes, symbols, pathwayGenes, lengths)
    ensures r.Err? ==> r.fault == IndexError
    ensures r.Ok? ==> var sel := r.value.0;
      && sel.genes == genes
      && StrictlyIncreasing(sel.bad)
      && (forall k :: 0 <= k < |sel.bad| ==> sel.bad[k] < |genes|)
      && (forall i :: 0 <= i < |genes| ==> (i in sel.bad <==> !Chosen(genes, symbols, pathwayGenes, lengths, i)))
      && sel.lengths == Keep(LengthArray(genes, lengths), Elems(sel.bad))
    ensures r.Ok? ==> var unique := FirstSeen(fields, SampleOf);
      && |unique| == |r.value.1|
      && forall k :: 0 <= k < |unique| ==>
           && r.value.1[k] == Row(SampleOf(unique[k]), Keep(CountFields(unique[k]), Elems(r.value.0.bad)))
           && (|r.value.1[k].counts| == |r.value.0.lengths| <==> |unique[k]| == |genes| + 1)
    ensures r.Ok? ==> forall i, j :: 0 <= i < j < |r.value.1| ==> r.value.1[i].sample != r.value.1[j].sample
  {
    var sel := SelectColumns(genes, symbols, pathwayGenes, lengths);
    var unique := FirstSeen(fields, SampleOf);
    forall k | 0 <= k < |unique|
      ensures TooShort(unique[k], sel.bad) <==> LacksMarkedCount(unique[k], genes, symbols, pathwayGenes, lengths)
    {
      TooShortExactly(unique[k], sel.bad, genes, symbols, pathwayGenes, lengths);
    }
    var rows := ProcessRows(fields, sel);
    if rows.Err? {
      return Err(rows.fault);
    }
    return Ok((sel, rows.value));
  }

  /** The script up to the selected counts: gene lengths, then the header
      step and the row pass on the first line's ids and the later lines'
      fields. The processed samples are distinct, and after the deletion a
      row has as many counts as there are surviving lengths exactly when it
      has one field more than the header, field 0 being the sample id. */
  method Preprocess(countLines: seq<string>, geneLines: seq<string>, pathwayLines: seq<string>,
                    symbols: map<string, string>) returns (r: Result<(Selection, seq<Row>)>)
    ensures ParseGeneLengths(geneLines).Err? ==> r == Err(ParseGeneLengths(geneLines).fault)
    ensures ParseGeneLengths(geneLines).Ok? ==>
      var genes := HeaderGenes(if |countLines| == 0 then "" else countLines[0]);
      var unique := FirstSeen(FieldsOf(if |countLines| == 0 then [] else countLines[1..]), SampleOf);
      var pg := PathwayGenes(pathwayLines);
      var lengths := ParseGeneLengths(geneLines).value;
      && (r.Err? <==> exists k :: 0 <= k < |unique| && LacksMarkedCount(unique[k], genes, symbols, pg, lengths))
      && (r.Err? ==> r.fault == IndexError)
    ensures r.Ok? ==> ParseGeneLengths(geneLines).Ok?
    ensures r.Ok? ==>
      var genes := HeaderGenes(if |countLines| == 0 then "" else countLines[0]);
      var pg := PathwayGenes(pathwayLines);
      var lengths := ParseGeneLengths(geneLines).value;
      var sel := r.value.0;
      && sel.genes == genes
      && (forall i :: 0 <= i < |genes| ==> (i in sel.bad <==> !Chosen(genes, symbols, pg, lengths, i)))
      && sel.lengths == Keep(LengthArray(genes, lengths), Elems(sel.bad))
    ensures r.Ok? ==>
      var unique := FirstSeen(FieldsOf(if |countLines| == 0 then [] else countLines[1..]), SampleOf);
      && |unique| == |r.value.1|
      && forall k :: 0 <= k < |unique| ==>
           && r.value.1[k] == Row(SampleOf(unique[k]), Keep(CountFields(unique[k]), Elems(r.value.0.bad)))
           && (|r.value.1[k].counts| == |r.value.0.lengths| <==> |unique[k]| == |r.value.0.genes| + 1)
    ensures r.Ok? ==> forall i, j :: 0 <= i < j < |r.value.1| ==> r.value.1[i].sample != r.value.1[j].sample
  {
    var lengths := ParseGeneLengths(geneLines);
    if lengths.Err? {
      return Err(lengths.fault);
    }
    var header := if |countLines| == 0 then "" else countLines[0];
    var body := if |countLines| == 0 then [] else countLines[1..];
    r := SelectCounts(HeaderGenes(header), symbols, PathwayGenes(pathwayLines), lengths.value, FieldsOf(body));
  }

  /** The row pass against a selection whose length list lost one entry per
      marked position: `SelectRows`, with the row widths compared against
      the surviving lengths. */
  method ProcessRows(fields: seq<seq<string>>, sel: Selection) returns (r: Result<seq<Row>>)
    requires StrictlyIncreasing(sel.bad)
    requires |sel.lengths| == |sel.genes| - |sel.bad|
    requires forall i :: 0 <= i < |fields| ==> |fields[i]| >= 1
    ensures var unique := FirstSeen(fields, SampleOf);
      r.Err? <==> exists k :: 0 <= k < |unique| && TooShort(unique[k], sel.bad)
    ensures r.Err? ==> r.fault == IndexError
    ensures r.Ok? ==> var unique := FirstSeen(fields, SampleOf);
      && |unique| == |r.value|
      && forall k :: 0 <= k < |unique| ==>
           && r.value[k] == Row(SampleOf(unique[k]), Keep(CountFields(unique[k]), Elems(sel.bad)))
           && (|r.value[k].counts| == |sel.lengths| <==> |unique[k]| == |sel.genes| + 1)
    ensures r.Ok? ==> forall i, j :: 0 <= i < j < |r.value| ==> r.value[i].sample != r.value[j].sample
  {
    r := SelectRows(fields, sel.bad);
    if r.Ok? {
      var unique := FirstSeen(fields, SampleOf);
      FirstSeenKeepsFirsts(fields, SampleOf);
      forall k | 0 <= k < |unique|
        ensures |unique[k]| >= 1
      {
        assert FirstOccurrence(fields, SampleOf, unique[k]);
        var i :| IsFirst(fields, SampleOf, i) && fields[i] == unique[k];
      }
      CountsAgainstLengths(unique, r.value, |sel.bad|, |sel.genes|, |sel.lengths|);
    }
  }

  /** A row with its sample id in front keeps `|bad|` fewer counts than it
      has fields after the id, and the length list keeps `|bad|` fewer
      lengths than the header has ids: the two agree exactly when the row has
      one field more than the header. */
  lemma CountsAgainstLengths(unique: seq<seq<string>>, rows: seq<Row>, marked: nat, genes: nat, lengths: nat)
    requires lengths == genes - marked
    requires |rows| == |unique|
    requires forall k :: 0 <= k < |unique| ==> |unique[k]| >= 1
    requires forall k :: 0 <= k < |unique| ==> |rows[k].counts| == |CountFields(unique[k])| - marked
    ensures forall k :: 0 <= k < |unique| ==> (|rows[k].counts| == lengths <==> |unique[k]| == genes + 1)
  {
    forall k | 0 <= k < |unique|
      ensures |rows[k].counts| == lengths <==> |unique[k]| == genes + 1
    {
      assert |CountFields(unique[k])| == |unique[k]| - 1;
    }
  }
}
