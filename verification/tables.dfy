/** The labelled tables the count and transform scripts hold in pandas data
    frames: row labels (`index`), column labels and one row of cells per row
    label, each as wide as the column list. */
module Tables {
  import opened Results

  datatype Table<V> = Table(index: seq<string>, columns: seq<string>, cells: seq<seq<V>>)

  /** Every data frame is rectangular: one cell row per row label, one cell
      per column label in every row. */
  ghost predicate Shaped<V>(t: Table<V>) {
    && |t.cells| == |t.index|
    && forall i :: 0 <= i < |t.cells| ==> |t.cells[i]| == |t.columns|
  }

  /** `df.T`: rows become columns and columns rows, labels included. */
  function Transpose<V>(t: Table<V>): (r: Table<V>)
    requires Shaped(t)
    ensures Shaped(r)
    ensures r.index == t.columns && r.columns == t.index
    ensures forall i, j :: 0 <= i < |t.index| && 0 <= j < |t.columns| ==> r.cells[j][i] == t.cells[i][j]
  {
    Table(t.columns, t.index,
      seq(|t.columns|, j requires 0 <= j < |t.columns| =>
        seq(|t.index|, i requires 0 <= i < |t.index| => t.cells[i][j])))
  }

  /** Transposing twice gives back the table. */
  lemma TransposeTwice<V>(t: Table<V>)
    requires Shaped(t)
    ensures Transpose(Transpose(t)) == t
  {
    var r := Transpose(Transpose(t));
    assert |r.cells| == |t.cells|;
    forall i | 0 <= i < |t.cells|
      ensures r.cells[i] == t.cells[i]
    {
    }
  }

  /** The position of the first column labelled `g`, the column that
      `df[g]` selects in a frame whose labels are distinct. */
  function Position(labels: seq<string>, g: string): (r: Option<nat>)
    ensures r.None? <==> g !in labels
    ensures r.Some? ==> r.value < |labels| && labels[r.value] == g
    ensures r.Some? ==> forall j :: 0 <= j < r.value ==> labels[j] != g
  {
    if |labels| == 0 then None
    else if labels[0] == g then Some(0)
    else match Position(labels[1..], g)
      case None => None
      case Some(k) => Some(k + 1)
  }

  /** In a list without repeats, the label at position `c` is found at `c`. */
  lemma PositionDistinct(labels: seq<string>, c: nat)
    requires c < |labels|
    requires forall i, j :: 0 <= i < j < |labels| ==> labels[i] != labels[j]
    ensures Position(labels, labels[c]) == Some(c)
  {
  }
}
