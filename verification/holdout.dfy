/** The holdout filter of `1c_remove_test_studies.py`: the sample ids named
    in a set of comma-separated metadata files are removed from a
    tab-separated count compendium, line by line. Lines are taken as read,
    with their line terminators. */
module Holdout {
  import opened PyStr
  import opened Seqs

  // ---------------------------------------------------------------------------
  // parse_sample_files

  /** The ids one metadata file names: the text before the first comma of
      every line after the header. */
  function FileSamples(lines: seq<string>): (r: set<string>)
    ensures forall s :: s in r <==> exists i :: 1 <= i < |lines| && BeforeFirst(lines[i], ',') == s
  {
    if |lines| <= 1 then {}
    else
      var n := |lines| - 1;
      var prior := FileSamples(lines[..n]);
      assert forall i :: 1 <= i < n ==> lines[..n][i] == lines[i];
      prior + {BeforeFirst(lines[n], ',')}
  }

  /** `parse_sample_files`: the union over all files. */
  function ParseSampleFiles(files: seq<seq<string>>): (r: set<string>)
    ensures forall s :: s in r <==>
      exists f, i :: 0 <= f < |files| && 1 <= i < |files[f]| && BeforeFirst(files[f][i], ',') == s
  {
    if |files| == 0 then {}
    else
      var rest := ParseSampleFiles(files[1..]);
      assert forall f :: 1 <= f < |files| ==> files[1..][f - 1] == files[f];
      FileSamples(files[0]) + rest
  }

  /** A metadata line without a comma names itself, terminator included. */
  lemma NoCommaWholeLine(files: seq<seq<string>>, f: nat, i: nat)
    requires f < |files| && 1 <= i < |files[f]|
    requires ',' !in files[f][i]
    ensures files[f][i] in ParseSampleFiles(files)
  {
    BeforeFirstNoSep(files[f][i], ',');
  }

  // ---------------------------------------------------------------------------
  // the line filter

  /** The id a compendium line starts with: its first tab field, with quotes
      stripped from both ends. The holdout ids are not stripped. */
  function LineSample(line: string): string {
    StripQuotes(BeforeFirst(line, '\t'))
  }

  predicate Keeps(line: string, holdout: set<string>) {
    LineSample(line) !in holdout
  }

  /** For every data line, whether it survives. */
  function KeepFlags(rows: seq<string>, holdout: set<string>): (r: seq<bool>)
    ensures |r| == |rows|
    ensures forall i :: 0 <= i < |rows| ==> (r[i] <==> Keeps(rows[i], holdout))
  {
    seq(|rows|, i requires 0 <= i < |rows| => Keeps(rows[i], holdout))
  }

  /** The data lines that survive, unchanged and in input order: exactly
      the input lines at the positions whose line keeps. */
  function Kept(rows: seq<string>, holdout: set<string>): (r: seq<string>)
    ensures forall x :: x in r <==> x in rows && Keeps(x, holdout)
    ensures var pos := Indices(KeepFlags(rows, holdout));
      && |r| == |pos|
      && (forall k :: 0 <= k < |pos| ==> pos[k] < |rows| && Keeps(rows[pos[k]], holdout) && r[k] == rows[pos[k]])
      && (forall i :: 0 <= i < |rows| && Keeps(rows[i], holdout) ==> i in pos)
  {
    var flags := KeepFlags(rows, holdout);
    SelectAtIndices(rows, flags);
    Select(rows, flags)
  }

  /** Filtering twice with the same holdout set changes nothing more. */
  lemma KeptIdempotent(rows: seq<string>, holdout: set<string>)
    ensures Kept(Kept(rows, holdout), holdout) == Kept(rows, holdout)
  {
    var once := Kept(rows, holdout);
    assert forall i :: 0 <= i < |once| ==> once[i] in once;
    SelectAll(once, KeepFlags(once, holdout));
  }

  /** The script's output: the compendium header line unchanged, then the
      surviving data lines. An empty compendium gives an empty output. */
  function FilterCompendium(lines: seq<string>, holdout: set<string>): (r: seq<string>)
    ensures |lines| == 0 ==> r == []
    ensures |lines| > 0 ==> |r| >= 1 && r[0] == lines[0] && r[1..] == Kept(lines[1..], holdout)
  {
    if |lines| == 0 then [] else [lines[0]] + Kept(lines[1..], holdout)
  }

  /** Running the filter on its own output with the same holdout set
      returns that output. */
  lemma FilterIdempotent(lines: seq<string>, holdout: set<string>)
    ensures FilterCompendium(FilterCompendium(lines, holdout), holdout) == FilterCompendium(lines, holdout)
  {
    if |lines| > 0 {
      var once := FilterCompendium(lines, holdout);
      assert once[1..] == Kept(lines[1..], holdout);
      KeptIdempotent(lines[1..], holdout);
    }
  }
}
