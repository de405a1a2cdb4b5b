/** The latent-variable reshapers `reformat_LVs.py`, `11a_reformat_LVs.py`
    and `11_reformat_LVs.py`: a whitespace-separated table with one row per
    sample and one column per latent variable becomes a long tab-separated
    table with one line per (variable, sample) pair. The sample name
    `a_b_region_replicate` gives day, treatment and region. The variants
    differ in where the labels come from and in the order of the first two
    name parts. */
module LvReshape {
  import opened Results
  import opened PyStr

  /** The first line every variant writes. */
  const HeaderLine: string := "LV_ID\tday\ttreatment\tregion\tlv_value\n"

  /** `Generated`: labels `"LV" + str(i)`, names `day_treatment_region_rep`
      (`reformat_LVs.py`, `11a_reformat_LVs.py`). `FromHeader`: labels taken
      from the header, names `treatment_day_region_rep`
      (`11_reformat_LVs.py`). */
  datatype Variant = Generated | FromHeader

  /** `LV_count`: the header tokens minus one. An empty header gives -1 in
      the source, for which the loop over `range(1, LV_count + 1)` is as
      empty as for 0. */
  function LvCount(headerTokens: seq<string>): (r: nat)
    ensures |headerTokens| >= 1 ==> r == |headerTokens| - 1
    ensures |headerTokens| == 0 ==> r == 0
  {
    if |headerTokens| == 0 then 0 else |headerTokens| - 1
  }

  /** What a sample name says. */
  datatype Sample = Sample(day: string, treatment: string, region: string)

  /** The four-way unpacking of `name.split('_')`: anything other than four
      parts raises `ValueError`; the replicate is dropped. */
  function ParseSample(v: Variant, name: string): (r: Result<Sample>)
    ensures r.Ok? <==> |Split(name, '_')| == 4
    ensures r.Err? ==> r.fault == UnpackError(4, |Split(name, '_')|)
    ensures r.Ok? ==> r.value.region == Split(name, '_')[2]
  {
    var parts := Split(name, '_');
    if |parts| != 4 then Err(UnpackError(4, |parts|))
    else match v
      case Generated => Ok(Sample(parts[0], parts[1], parts[2]))
      case FromHeader => Ok(Sample(parts[1], parts[0], parts[2]))
  }

  /** A name built from four underscore-free parts unpacks to them; the two
      variants read the first two parts in opposite roles. */
  lemma ParseSampleRoundTrip(a: string, b: string, region: string, rep: string)
    requires '_' !in a && '_' !in b && '_' !in region && '_' !in rep
    ensures ParseSample(Generated, Join([a, b, region, rep], '_')) == Ok(Sample(a, b, region))
    ensures ParseSample(FromHeader, Join([a, b, region, rep], '_')) == Ok(Sample(b, a, region))
  {
    JoinThenSplit([a, b, region, rep], '_');
  }

  /** Both variants accept the same names, with day and treatment swapped. */
  lemma VariantsSwapDayAndTreatment(name: string)
    ensures ParseSample(Generated, name).Ok? <==> ParseSample(FromHeader, name).Ok?
    ensures ParseSample(Generated, name).Ok? ==>
      && ParseSample(FromHeader, name).value.day == ParseSample(Generated, name).value.treatment
      && ParseSample(FromHeader, name).value.treatment == ParseSample(Generated, name).value.day
      && ParseSample(FromHeader, name).value.region == ParseSample(Generated, name).value.region
  {
  }

  /** The label of variable `i`. */
  function Label(v: Variant, headerTokens: seq<string>, i: nat): string
    requires v.FromHeader? ==> i < |headerTokens|
  {
    match v
    case Generated => "LV" + DecimalString(i)
    case FromHeader => headerTokens[i]
  }

  /** One output line. */
  function OutLine(lv: string, s: Sample, value: string): string {
    Join([lv, s.day, s.treatment, s.region, value], '\t') + "\n"
  }

  /** An output line splits back, after its terminator, into the five
      values it was written from, when none of them holds a tab. */
  lemma OutLineFields(lv: string, s: Sample, value: string)
    requires '\t' !in lv && '\t' !in s.day && '\t' !in s.treatment && '\t' !in s.region && '\t' !in value
    ensures var line := OutLine(lv, s, value);
      |line| >= 1 && line[|line| - 1] == '\n'
      && Split(line[..|line| - 1], '\t') == [lv, s.day, s.treatment, s.region, value]
  {
    var parts := [lv, s.day, s.treatment, s.region, value];
    var line := OutLine(lv, s, value);
    assert line[..|line| - 1] == Join(parts, '\t');
    JoinThenSplit(parts, '\t');
  }

  /** A row, as its tokens, that is written in full: it has a sample name
      that unpacks, and a value for every variable. */
  predicate RowFits(count: nat, toks: seq<string>) {
    |toks| >= 1 && |Split(toks[0], '_')| == 4 && |toks| > count
  }

  ghost predicate LabelsExist(v: Variant, headerTokens: seq<string>, count: nat) {
    v.FromHeader? ==> count < |headerTokens| || count == 0
  }

  /** The lines one data row (as its tokens) writes. A blank row raises
      `IndexError` on `line[0]`; a name that does not unpack raises before
      anything is written; a row with too few values writes the lines it
      has values for and then raises `IndexError`. */
  function RowOutput(v: Variant, headerTokens: seq<string>, count: nat, toks: seq<string>): (r: Emitted)
    requires LabelsExist(v, headerTokens, count)
    ensures r.fault.None? <==> RowFits(count, toks)
    ensures |r.lines| <= count
    ensures r.fault.None? ==> |r.lines| == count
    ensures r.fault.Some? && |toks| >= 1 && |Split(toks[0], '_')| == 4 ==>
      r.fault == Some(IndexError) && |r.lines| == |toks| - 1
    ensures |toks| == 0 ==> r == Emitted([], Some(IndexError))
    ensures |r.lines| > 0 ==> ParseSample(v, toks[0]).Ok?
  {
    if |toks| == 0 then Emitted([], Some(IndexError))
    else match ParseSample(v, toks[0])
      case Err(f) => Emitted([], Some(f))
      case Ok(s) =>
        var m := if |toks| > count then count else |toks| - 1;
        Emitted(ValueLines(v, headerTokens, s, toks, m), if |toks| > count then None else Some(IndexError))
  }

  /** The lines for variables `1..m` of a row with sample `s`. */
  function ValueLines(v: Variant, headerTokens: seq<string>, s: Sample, toks: seq<string>, m: nat): (r: seq<string>)
    requires m < |toks|
    requires v.FromHeader? ==> m == 0 || m < |headerTokens|
    ensures |r| == m
  {
    if m == 0 then [] else ValueLines(v, headerTokens, s, toks, m - 1) + [OutLine(Label(v, headerTokens, m), s, toks[m])]
  }

  lemma {:induction false} ValueLinesAt(v: Variant, headerTokens: seq<string>, s: Sample, toks: seq<string>, m: nat, i: nat)
    requires m < |toks|
    requires v.FromHeader? ==> m == 0 || m < |headerTokens|
    requires i < m
    ensures ValueLines(v, headerTokens, s, toks, m)[i] == OutLine(Label(v, headerTokens, i + 1), s, toks[i + 1])
    decreases m
  {
    if i < m - 1 {
      ValueLinesAt(v, headerTokens, s, toks, m - 1, i);
    }
  }

  /** Line `i` of a row's output is variable `i + 1`: its label, the
      sample's day, treatment and region, and the row's token `i + 1`
      unchanged. */
  lemma RowOutputLine(v: Variant, headerTokens: seq<string>, count: nat, toks: seq<string>, i: nat)
    requires LabelsExist(v, headerTokens, count)
    requires i < |RowOutput(v, headerTokens, count, toks).lines|
    ensures |toks| > i + 1 && ParseSample(v, toks[0]).Ok?
    ensures RowOutput(v, headerTokens, count, toks).lines[i] ==
      OutLine(Label(v, headerTokens, i + 1), ParseSample(v, toks[0]).value, toks[i + 1])
  {
    var m := if |toks| > count then count else |toks| - 1;
    ValueLinesAt(v, headerTokens, ParseSample(v, toks[0]).value, toks, m, i);
  }

  /** Each data row's output, in order. */
  function RowBlocks(v: Variant, headerTokens: seq<string>, count: nat, rows: seq<seq<string>>): (r: seq<Emitted>)
    requires LabelsExist(v, headerTokens, count)
    ensures |r| == |rows|
    ensures forall j :: 0 <= j < |rows| ==> r[j] == RowOutput(v, headerTokens, count, rows[j])
  {
    seq(|rows|, j requires 0 <= j < |rows| => RowOutput(v, headerTokens, count, rows[j]))
  }

  /** The lines of the data rows in order, stopping at the first fault;
      `count` lines per row when every row fits. */
  function RowsOutput(v: Variant, headerTokens: seq<string>, count: nat, rows: seq<seq<string>>): (r: Emitted)
    requires LabelsExist(v, headerTokens, count)
    ensures r.fault.None? <==> forall j :: 0 <= j < |rows| ==> RowFits(count, rows[j])
    ensures r.fault.None? ==> |r.lines| == |rows| * count
  {
    var blocks := RowBlocks(v, headerTokens, count, rows);
    var r := Concat(blocks);
    assert r.fault.None? ==> |r.lines| == |rows| * count by {
      if r.fault.None? {
        ConcatLength(blocks, count);
      }
    }
    r
  }

  /** In a complete output, line `j * count + i` is line `i` of row `j`:
      the rows' blocks follow the input order. */
  lemma RowsOutputLine(v: Variant, headerTokens: seq<string>, count: nat, rows: seq<seq<string>>, j: nat, i: nat)
    requires LabelsExist(v, headerTokens, count)
    requires RowsOutput(v, headerTokens, count, rows).fault.None?
    requires j < |rows| && i < count
    ensures j * count + i < |RowsOutput(v, headerTokens, count, rows).lines|
    ensures RowsOutput(v, headerTokens, count, rows).lines[j * count + i] ==
      RowOutput(v, headerTokens, count, rows[j]).lines[i]
  {
    ConcatLine(RowBlocks(v, headerTokens, count, rows), count, j, i);
  }

  /** The whole output of a reshaper on its tokenized input: the fixed
      header line, then the rows' lines. */
  function ReshapeTokens(v: Variant, headerTokens: seq<string>, rows: seq<seq<string>>): (r: Emitted)
    ensures |r.lines| >= 1 && r.lines[0] == HeaderLine
    ensures r.fault.None? <==> forall j :: 0 <= j < |rows| ==> RowFits(LvCount(headerTokens), rows[j])
    ensures r.fault.None? ==> |r.lines| == 1 + |rows| * LvCount(headerTokens)
  {
    var rest := RowsOutput(v, headerTokens, LvCount(headerTokens), rows);
    Emitted([HeaderLine] + rest.lines, rest.fault)
  }

  /** Line `1 + j * LvCount + i` of a complete output is variable `i + 1`
      of data row `j`: its label, the row's sample fields and its token
      `i + 1`. */
  lemma ReshapeLine(v: Variant, headerTokens: seq<string>, rows: seq<seq<string>>, j: nat, i: nat)
    requires ReshapeTokens(v, headerTokens, rows).fault.None?
    requires j < |rows| && i < LvCount(headerTokens)
    ensures var count := LvCount(headerTokens);
      && 1 + j * count + i < |ReshapeTokens(v, headerTokens, rows).lines|
      && |rows[j]| > i + 1 && ParseSample(v, rows[j][0]).Ok?
      && ReshapeTokens(v, headerTokens, rows).lines[1 + j * count + i] ==
           OutLine(Label(v, headerTokens, i + 1), ParseSample(v, rows[j][0]).value, rows[j][i + 1])
  {
    var count := LvCount(headerTokens);
    var rest := RowsOutput(v, headerTokens, count, rows);
    RowsOutputLine(v, headerTokens, count, rows, j, i);
    RowOutputLine(v, headerTokens, count, rows[j], i);
    assert ReshapeTokens(v, headerTokens, rows).lines == [HeaderLine] + rest.lines;
  }

  /** A reshaper on the lines of its input file: the first line is the
      header, every line is read as `line.strip().split()`. */
  function Reshape(v: Variant, lines: seq<string>): (r: Emitted)
    ensures |r.lines| >= 1 && r.lines[0] == HeaderLine
    ensures |lines| <= 1 ==> r == Emitted([HeaderLine], None)
  {
    if |lines| == 0 then Emitted([HeaderLine], None)
    else ReshapeTokens(v, Tokens(lines[0]), TokenRows(lines[1..]))
  }

  /** With generated labels the header's names do not matter, only how many
      there are. */
  lemma GeneratedIgnoresHeaderNames(h1: seq<string>, h2: seq<string>, count: nat, rows: seq<seq<string>>)
    ensures RowsOutput(Generated, h1, count, rows) == RowsOutput(Generated, h2, count, rows)
  {
    forall j | 0 <= j < |rows|
      ensures RowOutput(Generated, h1, count, rows[j]) == RowOutput(Generated, h2, count, rows[j])
    {
      var toks := rows[j];
      if |toks| > 0 && ParseSample(Generated, toks[0]).Ok? {
        var m := if |toks| > count then count else |toks| - 1;
        GeneratedLinesIgnoreHeader(h1, h2, ParseSample(Generated, toks[0]).value, toks, m);
      }
    }
    assert RowBlocks(Generated, h1, count, rows) == RowBlocks(Generated, h2, count, rows);
  }

  lemma {:induction false} GeneratedLinesIgnoreHeader(h1: seq<string>, h2: seq<string>, s: Sample, toks: seq<string>, m: nat)
    requires m < |toks|
    ensures ValueLines(Generated, h1, s, toks, m) == ValueLines(Generated, h2, s, toks, m)
    decreases m
  {
    if m > 0 {
      GeneratedLinesIgnoreHeader(h1, h2, s, toks, m - 1);
    }
  }

  // ---------------------------------------------------------------------------
  // the three scripts

  /** `reformat_LVs.main(argv)`: `argv` must hold exactly the input and the
      output path; otherwise the unpacking raises before anything is
      written. */
  function ReformatLvs(argv: seq<string>, lines: seq<string>): (r: Emitted)
    ensures |argv| != 2 ==> r.lines == [] && r.fault == Some(UnpackError(2, |argv|))
    ensures |argv| == 2 ==> |r.lines| >= 1 && r.lines[0] == HeaderLine
  {
    if |argv| != 2 then Emitted([], Some(UnpackError(2, |argv|))) else Reshape(Generated, lines)
  }

  /** `11a_reformat_LVs.main(argv)` on a command line that `argparse`
      accepts (exactly two positional arguments): the paths come from the
      command line, so `argv` has no effect on the output. */
  function ReformatLvsArgparse(argv: seq<string>, lines: seq<string>): (r: Emitted)
    ensures |r.lines| >= 1 && r.lines[0] == HeaderLine
  {
    Reshape(Generated, lines)
  }

  /** On a command line that `argparse` accepts, the `argparse` variant
      writes, for any `argv`, what `reformat_LVs.py` writes when it is given
      a well-formed pair of paths. */
  lemma ArgparseMatchesPositional(argv: seq<string>, paths: seq<string>, lines: seq<string>)
    requires |paths| == 2
    ensures ReformatLvsArgparse(argv, lines) == ReformatLvs(paths, lines)
  {
  }

  /** The modules `11a_reformat_LVs.py` imports: `argparse` only. */
  const ArgparseImports: set<string> := {"argparse"}

  /** The `if __name__ == "__main__"` block of `11a_reformat_LVs.py`, given
      the names the module has imported and the interpreter's `sys.argv`:
      evaluating `sys.argv[1:]` raises `NameError` unless `sys` is bound,
      before `main` writes anything; otherwise `main` runs, on a command
      line that `argparse` accepts (exactly two positional arguments). */
  function ReformatLvsArgparseEntry(imports: set<string>, sysArgv: seq<string>, lines: seq<string>): (r: Emitted)
    ensures "sys" !in imports ==> r.lines == [] && r.fault == Some(NameError("sys"))
    ensures "sys" in imports ==> |r.lines| >= 1 && r.lines[0] == HeaderLine
  {
    if "sys" !in imports then Emitted([], Some(NameError("sys")))
    else ReformatLvsArgparse(if |sysArgv| == 0 then [] else sysArgv[1..], lines)
  }

  /** `11a_reformat_LVs.py` run as a script, as written: `sys` is never
      imported, so the entry point raises `NameError` and writes nothing,
      whatever the input. */
  function ReformatLvsArgparseScript(sysArgv: seq<string>, lines: seq<string>): (r: Emitted)
    ensures r.lines == []
    ensures r.fault == Some(NameError("sys"))
  {
    ReformatLvsArgparseEntry(ArgparseImports, sysArgv, lines)
  }

  /** The script as written never reaches the header line that `main`
      writes first. */
  lemma ArgparseScriptWritesNothing(sysArgv: seq<string>, lines: seq<string>)
    ensures HeaderLine !in ReformatLvsArgparseScript(sysArgv, lines).lines
    ensures ReformatLvsArgparse(sysArgv, lines).lines[0] == HeaderLine
  {
  }

  /** The script with `import sys` added, as intended. */
  function ReformatLvsArgparseFixed(sysArgv: seq<string>, lines: seq<string>): (r: Emitted)
    ensures |r.lines| >= 1 && r.lines[0] == HeaderLine
  {
    ReformatLvsArgparseEntry(ArgparseImports + {"sys"}, sysArgv, lines)
  }

  /** With `sys` imported, the script writes, for a command line with
      exactly two positional arguments, what `reformat_LVs.py` writes when
      given a well-formed pair of paths. */
  lemma FixedScriptMatchesPositional(sysArgv: seq<string>, paths: seq<string>, lines: seq<string>)
    requires |paths| == 2
    ensures ReformatLvsArgparseFixed(sysArgv, lines) == ReformatLvs(paths, lines)
  {
  }

  /** `11_reformat_LVs.main()`: labels from the header, treatment before day
      in the sample name. */
  function ReformatLvsNamed(lines: seq<string>): (r: Emitted)
    ensures |r.lines| >= 1 && r.lines[0] == HeaderLine
  {
    Reshape(FromHeader, lines)
  }
}
