/** The featureCounts merger of `reformat_counts.py` and
    `8a_reformat_counts.py`: two gene-by-sample count tables (day 1 and
    day 28 of abstinence) are transposed to sample-by-gene, the BAM-file
    column names are renamed through a two-column name map, and one
    tab-separated table is written: a gene header line, then one line per
    day-1 sample, then one line per day-28 sample. The two scripts differ
    only in how they receive their file names and in closing the output
    file, which the written lines do not show.

    Cells are rendered with `show`, standing for Python's `str`. */
module Counts {
  import opened Results
  import opened PyStr
  import opened Seqs
  import opened Tables

  // ---------------------------------------------------------------------------
  // get_name_map

  /** Storing the (BAM name, sample id) rows in order, a later row replacing
      an earlier one with the same BAM name. */
  function PairMap(rows: seq<seq<string>>): (r: map<string, string>)
    requires forall i :: 0 <= i < |rows| ==> |rows[i]| == 2
  {
    if |rows| == 0 then map[]
    else
      var n := |rows| - 1;
      PairMap(rows[..n])[rows[n][0] := rows[n][1]]
  }

  /** A BAM name is mapped exactly when some row names it. */
  lemma {:induction false} PairMapKeys(rows: seq<seq<string>>, k: string)
    requires forall i :: 0 <= i < |rows| ==> |rows[i]| == 2
    ensures k in PairMap(rows) <==> exists i :: 0 <= i < |rows| && rows[i][0] == k
    decreases |rows|
  {
    if |rows| > 0 {
      var n := |rows| - 1;
      var init := rows[..n];
      assert forall i :: 0 <= i < n ==> init[i] == rows[i];
      PairMapKeys(init, k);
    }
  }

  /** The id stored for a BAM name is that of the last row naming it. */
  lemma {:induction false} PairMapLastWins(rows: seq<seq<string>>, i: nat)
    requires forall j :: 0 <= j < |rows| ==> |rows[j]| == 2
    requires i < |rows|
    requires forall j :: i < j < |rows| ==> rows[j][0] != rows[i][0]
    ensures rows[i][0] in PairMap(rows) && PairMap(rows)[rows[i][0]] == rows[i][1]
    decreases |rows|
  {
    var n := |rows| - 1;
    var init := rows[..n];
    assert forall j :: 0 <= j < n ==> init[j] == rows[j];
    if i < n {
      PairMapLastWins(init, i);
    }
  }

  /** The name-map rows as token lists: every row must unpack into exactly
      two tokens (`ValueError` on the first row that does not); otherwise the
      rows are stored in order. */
  function NameMapFrom(rows: seq<seq<string>>): (r: Result<map<string, string>>)
    ensures r.Ok? <==> forall i :: 0 <= i < |rows| ==> |rows[i]| == 2
    ensures r.Err? ==> exists i ::
      && 0 <= i < |rows| && |rows[i]| != 2 && r.fault == UnpackError(2, |rows[i]|)
      && (forall j :: 0 <= j < i ==> |rows[j]| == 2)
    ensures r.Ok? ==> r.value == PairMap(rows)
  {
    match FirstWrongWidth(rows, 2)
    case Some(i) => Err(UnpackError(2, |rows[i]|))
    case None => Ok(PairMap(rows))
  }

  /** `get_name_map`: every line is stripped and split on whitespace into a
      BAM name and a sample id. */
  function NameMap(lines: seq<string>): (r: Result<map<string, string>>)
    ensures r.Ok? <==> forall i :: 0 <= i < |lines| ==> |Tokens(lines[i])| == 2
    ensures r.Err? ==> exists i ::
      && 0 <= i < |lines| && r.fault == UnpackError(2, |Tokens(lines[i])|)
      && |Tokens(lines[i])| != 2
      && (forall j :: 0 <= j < i ==> |Tokens(lines[j])| == 2)
    ensures r.Ok? ==> r.value == PairMap(TokenRows(lines))
  {
    NameMapFrom(TokenRows(lines))
  }

  // ---------------------------------------------------------------------------
  // the written lines

  /** A list of pieces each followed by a tab, then stripped and ended with a
      newline: the way both the header and the count part of a sample line
      are built. */
  function TabLine(pieces: seq<string>): string {
    Strip(JoinTerminated(pieces, '\t')) + "\n"
  }

  /** A sample line: the mapped sample id, a tab, then the counts. */
  function SampleLine(id: string, counts: seq<string>): string {
    id + "\t" + TabLine(counts)
  }

  /** A field a line can carry through the round trip below: non-empty, no
      tab, no whitespace at either end. */
  predicate Field(w: string) {
    w != [] && '\t' !in w && !IsSpace(w[0]) && !IsSpace(w[|w| - 1])
  }

  /** With fields that have no whitespace at their ends, the stripped
      tab-terminated line is the plain tab join. */
  lemma TabLineJoined(pieces: seq<string>)
    requires |pieces| >= 1
    requires forall k :: 0 <= k < |pieces| ==> Field(pieces[k])
    ensures TabLine(pieces) == Join(pieces, '\t') + "\n"
  {
    StripTerminated(pieces);
  }

  /** Likewise a sample line is the tab join of the id and the counts. */
  lemma SampleLineJoined(id: string, counts: seq<string>)
    requires Field(id)
    requires |counts| >= 1
    requires forall k :: 0 <= k < |counts| ==> Field(counts[k])
    ensures SampleLine(id, counts) == Join([id] + counts, '\t') + "\n"
  {
    TabLineJoined(counts);
    PrefixJoined(id, counts);
  }

  /** Putting the id and a tab in front of a joined count line joins one
      field more. */
  lemma PrefixJoined(id: string, counts: seq<string>)
    requires |counts| >= 1
    requires TabLine(counts) == Join(counts, '\t') + "\n"
    ensures SampleLine(id, counts) == Join([id] + counts, '\t') + "\n"
  {
    var parts := [id] + counts;
    assert parts[1..] == counts;
    assert Join(parts, '\t') == id + "\t" + Join(counts, '\t');
    ConcatAssoc(id + "\t", Join(counts, '\t'), "\n");
  }

  /** A tab-joined line reads back, without its newline, as its fields. */
  lemma JoinedReadBack(parts: seq<string>)
    requires |parts| >= 1
    requires forall k :: 0 <= k < |parts| ==> '\t' !in parts[k]
    ensures var line := Join(parts, '\t') + "\n";
      line[|line| - 1] == '\n' && Split(line[..|line| - 1], '\t') == parts
  {
    var line := Join(parts, '\t') + "\n";
    assert line[..|line| - 1] == Join(parts, '\t');
    JoinThenSplit(parts, '\t');
  }

  /** The cells of one row, rendered. */
  function Shown<V>(row: seq<V>, show: V -> string): (r: seq<string>)
    ensures |r| == |row|
  {
    seq(|row|, k requires 0 <= k < |row| => show(row[k]))
  }

  /** One iteration of a sample loop: `name_map[index]` raises `KeyError`
      before anything is written when the sample is unmapped; otherwise the
      sample line is written. */
  function SampleStep(names: map<string, string>, sample: string, counts: seq<string>): (r: Emitted)
    ensures r.fault.None? <==> sample in names
    ensures r.fault.Some? ==> r.lines == [] && r.fault == Some(KeyError(sample))
    ensures r.fault.None? ==> |r.lines| == 1
  {
    if sample in names then Emitted([SampleLine(names[sample], counts)], None)
    else Emitted([], Some(KeyError(sample)))
  }

  /** The loop over the rows of a transposed table (one row per sample). */
  function SampleSteps<V>(names: map<string, string>, t: Table<V>, show: V -> string): (r: seq<Emitted>)
    requires Shaped(t)
    ensures |r| == |t.index|
    ensures forall i :: 0 <= i < |t.index| ==> r[i] == SampleStep(names, t.index[i], Shown(t.cells[i], show))
  {
    seq(|t.index|, i requires 0 <= i < |t.index| => SampleStep(names, t.index[i], Shown(t.cells[i], show)))
  }

  /** Every sample label of `t` is mapped. */
  predicate AllMapped<V>(names: map<string, string>, t: Table<V>) {
    forall i :: 0 <= i < |t.index| ==> t.index[i] in names
  }

  // ---------------------------------------------------------------------------
  // main

  /** `main`: the name map is read first, and its error ends the run before
      the output file is opened; the rest is `Merge`. */
  function Combine<V>(day1: Table<V>, day28: Table<V>, nameLines: seq<string>, show: V -> string): (r: Emitted)
    requires Shaped(day1) && Shaped(day28)
    ensures NameMap(nameLines).Err? ==> r == Emitted([], Some(NameMap(nameLines).fault))
    ensures NameMap(nameLines).Ok? ==> r == Merge(day1, day28, NameMap(nameLines).value, show)
  {
    match NameMap(nameLines)
    case Err(f) => Emitted([], Some(f))
    case Ok(names) => Merge(day1, day28, names, show)
  }

  /** The writing part of `main`: nothing is written unless both tables list
      the same genes in the same order; otherwise the header, the day-1
      sample lines and the day-28 sample lines are written, up to the first
      unmapped sample, whose `KeyError` ends the run. */
  function Merge<V>(day1: Table<V>, day28: Table<V>, names: map<string, string>, show: V -> string): (r: Emitted)
    requires Shaped(day1) && Shaped(day28)
    ensures day1.index != day28.index ==> r == Emitted([], None)
    ensures r.fault.None? <==>
      (day1.index == day28.index ==> AllMapped(names, Transpose(day1)) && AllMapped(names, Transpose(day28)))
    ensures r.fault.Some? ==> exists s ::
      r.fault == Some(KeyError(s)) && s !in names && (s in day1.columns || s in day28.columns)
  {
    var t1 := Transpose(day1);
    var t28 := Transpose(day28);
    if t1.columns != t28.columns then Emitted([], None)
    else
      var first := Concat(SampleSteps(names, t1, show));
      var second := Concat(SampleSteps(names, t28, show));
      assert first.fault.Some? ==> exists i :: 0 <= i < |t1.index| && first.fault == Some(KeyError(t1.index[i])) && t1.index[i] !in names by {
        if first.fault.Some? {
          FirstFault(SampleSteps(names, t1, show));
        }
      }
      assert second.fault.Some? ==> exists i :: 0 <= i < |t28.index| && second.fault == Some(KeyError(t28.index[i])) && t28.index[i] !in names by {
        if second.fault.Some? {
          FirstFault(SampleSteps(names, t28, show));
        }
      }
      if first.fault.Some? then Emitted([TabLine(t1.columns)] + first.lines, first.fault)
      else Emitted([TabLine(t1.columns)] + first.lines + second.lines, second.fault)
  }

  /** The fault of a run of steps is the fault of its first faulting
      step. */
  lemma {:induction false} FirstFault(steps: seq<Emitted>)
    requires Concat(steps).fault.Some?
    ensures exists j ::
      && 0 <= j < |steps| && steps[j].fault.Some?
      && (forall k :: 0 <= k < j ==> steps[k].fault.None?)
      && Concat(steps).fault == steps[j].fault
    decreases |steps|
  {
    if steps[0].fault.None? {
      FirstFault(steps[1..]);
      var j :| && 0 <= j < |steps[1..]| && steps[1..][j].fault.Some?
        && (forall k :: 0 <= k < j ==> steps[1..][k].fault.None?)
        && Concat(steps[1..]).fault == steps[1..][j].fault;
      assert steps[1..][j] == steps[j + 1];
      assert forall k :: 1 <= k < j + 1 ==> steps[k] == steps[1..][k - 1];
    }
  }

  /** Sample `i` of a gene-by-sample table as rendered counts, one per gene
      in gene order: its column, which the transposition makes a row. */
  function SampleCounts<V>(t: Table<V>, i: nat, show: V -> string): (r: seq<string>)
    requires Shaped(t) && i < |t.columns|
    ensures |r| == |t.index|
    ensures forall g :: 0 <= g < |t.index| ==> r[g] == show(t.cells[g][i])
  {
    Shown(Transpose(t).cells[i], show)
  }

  /** The lines of a run whose samples are all mapped: one per sample, in
      table order. */
  lemma SampleRunLines<V>(names: map<string, string>, t: Table<V>, show: V -> string)
    requires Shaped(t) && AllMapped(names, Transpose(t))
    ensures var run := Concat(SampleSteps(names, Transpose(t), show));
      && run.fault.None?
      && |run.lines| == |t.columns|
      && forall i :: 0 <= i < |t.columns| ==> run.lines[i] == SampleLine(names[t.columns[i]], SampleCounts(t, i, show))
  {
    var steps := SampleSteps(names, Transpose(t), show);
    ConcatLength(steps, 1);
    forall i | 0 <= i < |t.columns|
      ensures Concat(steps).lines[i] == SampleLine(names[t.columns[i]], SampleCounts(t, i, show))
    {
      ConcatLine(steps, 1, i, 0);
    }
  }

  /** The run of one table stops at its first unmapped sample `k`: it writes
      the lines of the samples before `k` and ends with a `KeyError` naming
      sample `k`. */
  lemma SampleRunStops<V>(names: map<string, string>, t: Table<V>, show: V -> string, k: nat)
    requires Shaped(t) && k < |t.columns|
    requires t.columns[k] !in names
    requires forall j :: 0 <= j < k ==> t.columns[j] in names
    ensures var run := Concat(SampleSteps(names, Transpose(t), show));
      && run.fault == Some(KeyError(t.columns[k]))
      && |run.lines| == k
      && forall j :: 0 <= j < k ==> run.lines[j] == SampleLine(names[t.columns[j]], SampleCounts(t, j, show))
  {
    var steps := SampleSteps(names, Transpose(t), show);
    ConcatStops(steps, k);
    var pre := steps[..k];
    ConcatLength(pre, 1);
    forall j | 0 <= j < k
      ensures Concat(pre).lines[j] == SampleLine(names[t.columns[j]], SampleCounts(t, j, show))
    {
      ConcatLine(pre, 1, j, 0);
    }
  }

  /** A run that meets an unmapped day-1 sample `k`, all day-1 samples before
      it being mapped, writes the header and the lines of those samples and
      stops with a `KeyError` naming sample `k`; no day-28 line is
      written. */
  lemma MergeStopsInDay1<V>(day1: Table<V>, day28: Table<V>, names: map<string, string>, show: V -> string, k: nat)
    requires Shaped(day1) && Shaped(day28)
    requires day1.index == day28.index
    requires k < |day1.columns| && day1.columns[k] !in names
    requires forall j :: 0 <= j < k ==> day1.columns[j] in names
    ensures var r := Merge(day1, day28, names, show);
      && r.fault == Some(KeyError(day1.columns[k]))
      && |r.lines| == 1 + k
      && r.lines[0] == TabLine(day1.index)
      && forall j :: 0 <= j < k ==> r.lines[1 + j] == SampleLine(names[day1.columns[j]], SampleCounts(day1, j, show))
  {
    SampleRunStops(names, day1, show, k);
  }

  /** With every day-1 sample mapped, a run that meets an unmapped day-28
      sample `k`, all day-28 samples before it being mapped, writes the
      header, every day-1 line and the lines of those day-28 samples, and
      stops with a `KeyError` naming sample `k`. */
  lemma MergeStopsInDay28<V>(day1: Table<V>, day28: Table<V>, names: map<string, string>, show: V -> string, k: nat)
    requires Shaped(day1) && Shaped(day28)
    requires day1.index == day28.index
    requires AllMapped(names, Transpose(day1))
    requires k < |day28.columns| && day28.columns[k] !in names
    requires forall j :: 0 <= j < k ==> day28.columns[j] in names
    ensures var r := Merge(day1, day28, names, show);
      && r.fault == Some(KeyError(day28.columns[k]))
      && |r.lines| == 1 + |day1.columns| + k
      && r.lines[0] == TabLine(day1.index)
      && (forall j :: 0 <= j < |day1.columns| ==>
            r.lines[1 + j] == SampleLine(names[day1.columns[j]], SampleCounts(day1, j, show)))
      && (forall j :: 0 <= j < k ==>
            r.lines[1 + |day1.columns| + j] == SampleLine(names[day28.columns[j]], SampleCounts(day28, j, show)))
  {
    SampleRunLines(names, day1, show);
    SampleRunStops(names, day28, show, k);
  }

  /** A complete run writes the header, then one line per day-1 sample, then
      one line per day-28 sample, each holding the sample's mapped id and its
      counts in gene order. */
  lemma MergeLines<V>(day1: Table<V>, day28: Table<V>, names: map<string, string>, show: V -> string)
    requires Shaped(day1) && Shaped(day28)
    requires day1.index == day28.index
    requires AllMapped(names, Transpose(day1))
    requires AllMapped(names, Transpose(day28))
    ensures var r := Merge(day1, day28, names, show);
      && r.fault.None?
      && |r.lines| == 1 + |day1.columns| + |day28.columns|
      && r.lines[0] == TabLine(day1.index)
      && (forall i :: 0 <= i < |day1.columns| ==>
            r.lines[1 + i] == SampleLine(names[day1.columns[i]], SampleCounts(day1, i, show)))
      && (forall i :: 0 <= i < |day28.columns| ==>
            r.lines[1 + |day1.columns| + i] == SampleLine(names[day28.columns[i]], SampleCounts(day28, i, show)))
  {
    SampleRunLines(names, day1, show);
    SampleRunLines(names, day28, show);
  }

  /** Read back, line `1 + i` of a complete run splits into the mapped id of
      day-1 sample `i` followed by that sample's count for every gene, in the
      order of the header. */
  lemma MergeReadBack<V>(day1: Table<V>, day28: Table<V>, names: map<string, string>, show: V -> string, i: nat)
    requires Shaped(day1) && Shaped(day28)
    requires day1.index == day28.index
    requires AllMapped(names, Transpose(day1))
    requires AllMapped(names, Transpose(day28))
    requires |day1.index| >= 1
    requires i < |day1.columns| && Field(names[day1.columns[i]])
    requires forall g :: 0 <= g < |day1.index| ==> Field(show(day1.cells[g][i]))
    ensures 1 + i < |Merge(day1, day28, names, show).lines|
    ensures var line := Merge(day1, day28, names, show).lines[1 + i];
      && |line| >= 1 && line[|line| - 1] == '\n'
      && var fields := Split(line[..|line| - 1], '\t');
      && |fields| == 1 + |day1.index|
      && fields[0] == names[day1.columns[i]]
      && forall g :: 0 <= g < |day1.index| ==> fields[1 + g] == show(day1.cells[g][i])
  {
    var parts := [names[day1.columns[i]]] + SampleCounts(day1, i, show);
    MergeLineJoined(day1, day28, names, show, i);
    JoinedReadBack(parts);
    assert forall g :: 0 <= g < |day1.index| ==> parts[1 + g] == show(day1.cells[g][i]);
  }

  /** Line `1 + i` of a complete run, as a tab join. */
  lemma MergeLineJoined<V>(day1: Table<V>, day28: Table<V>, names: map<string, string>, show: V -> string, i: nat)
    requires Shaped(day1) && Shaped(day28)
    requires day1.index == day28.index
    requires AllMapped(names, Transpose(day1))
    requires AllMapped(names, Transpose(day28))
    requires |day1.index| >= 1
    requires i < |day1.columns| && Field(names[day1.columns[i]])
    requires forall g :: 0 <= g < |day1.index| ==> Field(show(day1.cells[g][i]))
    ensures 1 + i < |Merge(day1, day28, names, show).lines|
    ensures Merge(day1, day28, names, show).lines[1 + i] ==
      Join([names[day1.columns[i]]] + SampleCounts(day1, i, show), '\t') + "\n"
  {
    MergeLineAt(day1, day28, names, show, i);
    SampleLineJoined(names[day1.columns[i]], SampleCounts(day1, i, show));
  }

  /** Line `1 + i` of a complete run is the line of day-1 sample `i`. */
  lemma MergeLineAt<V>(day1: Table<V>, day28: Table<V>, names: map<string, string>, show: V -> string, i: nat)
    requires Shaped(day1) && Shaped(day28)
    requires day1.index == day28.index
    requires AllMapped(names, Transpose(day1))
    requires AllMapped(names, Transpose(day28))
    requires i < |day1.columns|
    ensures 1 + i < |Merge(day1, day28, names, show).lines|
    ensures Merge(day1, day28, names, show).lines[1 + i] == SampleLine(names[day1.columns[i]], SampleCounts(day1, i, show))
  {
    MergeLines(day1, day28, names, show);
  }

  /** Read back, the header of a complete run splits into the genes. */
  lemma MergeHeaderBack<V>(day1: Table<V>, day28: Table<V>, names: map<string, string>, show: V -> string)
    requires Shaped(day1) && Shaped(day28)
    requires day1.index == day28.index
    requires AllMapped(names, Transpose(day1))
    requires AllMapped(names, Transpose(day28))
    requires |day1.index| >= 1 && forall g :: 0 <= g < |day1.index| ==> Field(day1.index[g])
    ensures var header := Merge(day1, day28, names, show).lines[0];
      header[|header| - 1] == '\n' && Split(header[..|header| - 1], '\t') == day1.index
  {
    MergeLines(day1, day28, names, show);
    TabLineJoined(day1.index);
    JoinedReadBack(day1.index);
  }
}
