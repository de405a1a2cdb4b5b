/** The gene alignment of `10_NAc_PFC_VTA_transform.py` and
    `NAc_PFC_VTA_transform.py`: before projecting expression data onto the
    latent variables, a new frame with the expression frame's samples gets
    one column per gene id of the loading table, in loading order. A gene
    the expression frame has is copied; a missing gene becomes a column of
    zeros. Assigning a column label that already exists replaces that column
    where it stands, so a repeated id keeps the position of its first
    occurrence. */
module Align {
  import opened Results
  import opened Seqs
  import opened Tables

  /** The column `frame[g]` when the label is present (the first column with
      that label), otherwise `[0] * frame.shape[0]`. */
  function ColumnFor<V>(expr: Table<V>, g: string, zero: V): (r: seq<V>)
    requires Shaped(expr)
    ensures |r| == |expr.index|
    ensures g !in expr.columns ==> forall i :: 0 <= i < |r| ==> r[i] == zero
  {
    match Position(expr.columns, g)
    case None => seq(|expr.index|, i requires 0 <= i < |expr.index| => zero)
    case Some(c) => seq(|expr.index|, i requires 0 <= i < |expr.index| => expr.cells[i][c])
  }

  /** Columns (each a list of cells, one per sample) laid out as rows. */
  function FromColumns<V>(index: seq<string>, labels: seq<string>, data: seq<seq<V>>): (r: Table<V>)
    requires |data| == |labels|
    requires forall c :: 0 <= c < |data| ==> |data[c]| == |index|
    ensures Shaped(r) && r.index == index && r.columns == labels
    ensures forall i, c :: 0 <= i < |index| && 0 <= c < |labels| ==> r.cells[i][c] == data[c][i]
  {
    Table(index, labels,
      seq(|index|, i requires 0 <= i < |index| =>
        seq(|labels|, c requires 0 <= c < |labels| => data[c][i])))
  }

  /** The aligned frame: the expression frame's samples, one column per
      distinct gene id in order of first occurrence, each holding the
      expression column of that gene or zeros. */
  function Aligned<V>(expr: Table<V>, genes: seq<string>, zero: V): (r: Table<V>)
    requires Shaped(expr)
    ensures Shaped(r) && r.index == expr.index
    ensures r.columns == FirstSeen(genes, Identity)
  {
    var labels := FirstSeen(genes, Identity);
    FromColumns(expr.index, labels,
      seq(|labels|, c requires 0 <= c < |labels| => ColumnFor(expr, labels[c], zero)))
  }

  /** The cell of the aligned frame for sample `i` and gene `g`: the
      expression value when the gene is measured, zero otherwise. */
  lemma AlignedCell<V>(expr: Table<V>, genes: seq<string>, zero: V, i: nat, c: nat)
    requires Shaped(expr)
    requires i < |expr.index| && c < |Aligned(expr, genes, zero).columns|
    ensures var g := Aligned(expr, genes, zero).columns[c];
      && g in genes
      && (g in expr.columns ==> exists k ::
            && 0 <= k < |expr.columns| && expr.columns[k] == g
            && Aligned(expr, genes, zero).cells[i][c] == expr.cells[i][k])
      && (g !in expr.columns ==> Aligned(expr, genes, zero).cells[i][c] == zero)
  {
    var labels := FirstSeen(genes, Identity);
    var g := labels[c];
    assert g in KeySet(labels, Identity);
    if g in expr.columns {
      var k := Position(expr.columns, g).value;
      assert expr.columns[k] == g;
    }
  }

  /** Every gene id of the loading table gets exactly one column. */
  lemma AlignedColumns<V>(expr: Table<V>, genes: seq<string>, zero: V)
    requires Shaped(expr)
    ensures var cols := Aligned(expr, genes, zero).columns;
      && (forall g :: g in cols <==> g in genes)
      && (forall a, b :: 0 <= a < b < |cols| ==> cols[a] != cols[b])
  {
    var cols := FirstSeen(genes, Identity);
    forall g
      ensures g in cols <==> g in genes
    {
      if g in cols {
        var a :| 0 <= a < |cols| && cols[a] == g;
        assert Identity(cols[a]) in KeySet(cols, Identity);
        var k :| 0 <= k < |genes| && Identity(genes[k]) == g;
      }
      if g in genes {
        var k :| 0 <= k < |genes| && genes[k] == g;
        assert Identity(genes[k]) in KeySet(genes, Identity);
        var a :| 0 <= a < |cols| && Identity(cols[a]) == g;
      }
    }
  }

  /** Aligning twice to the same genes changes nothing more. */
  lemma AlignIdempotent<V>(expr: Table<V>, genes: seq<string>, zero: V)
    requires Shaped(expr)
    ensures Aligned(Aligned(expr, genes, zero), genes, zero) == Aligned(expr, genes, zero)
  {
    var once := Aligned(expr, genes, zero);
    var twice := Aligned(once, genes, zero);
    var labels := once.columns;
    AlignedColumns(expr, genes, zero);
    forall i, c | 0 <= i < |once.index| && 0 <= c < |labels|
      ensures twice.cells[i][c] == once.cells[i][c]
    {
      PositionDistinct(labels, c);
    }
    assert |twice.cells| == |once.cells|;
    forall i | 0 <= i < |once.index|
      ensures twice.cells[i] == once.cells[i]
    {
    }
  }

  /** Aligning a frame whose labels are distinct to its own labels gives
      the frame back. */
  lemma AlignToOwnColumns<V>(expr: Table<V>, zero: V)
    requires Shaped(expr)
    requires forall a, b :: 0 <= a < b < |expr.columns| ==> expr.columns[a] != expr.columns[b]
    ensures Aligned(expr, expr.columns, zero) == expr
  {
    var r := Aligned(expr, expr.columns, zero);
    FirstSeenDistinct(expr.columns);
    forall i, c | 0 <= i < |expr.index| && 0 <= c < |expr.columns|
      ensures r.cells[i][c] == expr.cells[i][c]
    {
      PositionDistinct(expr.columns, c);
    }
    assert |r.cells| == |expr.cells|;
    forall i | 0 <= i < |expr.index|
      ensures r.cells[i] == expr.cells[i]
    {
    }
  }

  /** Deduplicating a list without repeats keeps it whole. */
  lemma {:induction false} FirstSeenDistinct(xs: seq<string>)
    requires forall a, b :: 0 <= a < b < |xs| ==> xs[a] != xs[b]
    ensures FirstSeen(xs, Identity) == xs
    decreases |xs|
  {
    if |xs| > 0 {
      var init := xs[..|xs| - 1];
      FirstSeenDistinct(init);
      assert xs[|xs| - 1] !in KeySet(init, Identity);
      assert xs == init + [xs[|xs| - 1]];
    }
  }

  /** The loop of the transform scripts: for each gene id in loading order,
      assign its column (copied or zero-filled), appending a new label or
      replacing the column of an existing one. */
  method AlignLoop<V>(expr: Table<V>, genes: seq<string>, zero: V) returns (r: Table<V>)
    requires Shaped(expr)
    ensures r == Aligned(expr, genes, zero)
  {
    var labels: seq<string> := [];
    var data: seq<seq<V>> := [];
    for k := 0 to |genes|
      invariant labels == FirstSeen(genes[..k], Identity)
      invariant |data| == |labels|
      invariant forall c :: 0 <= c < |data| ==> data[c] == ColumnFor(expr, labels[c], zero)
    {
      assert genes[..k + 1] == genes[..k] + [genes[k]];
      assert genes[..k + 1][..k] == genes[..k];
      KeySetAppend(labels, genes[k], Identity);
      var col := ColumnFor(expr, genes[k], zero);
      match Position(labels, genes[k])
      case Some(c) =>
        assert Identity(labels[c]) in KeySet(labels, Identity);
        data := data[c := col];
      case None =>
        labels := labels + [genes[k]];
        data := data + [col];
    }
    assert genes[..|genes|] == genes;
    r := FromColumns(expr.index, labels, data);
    assert data == seq(|labels|, c requires 0 <= c < |labels| => ColumnFor(expr, labels[c], zero));
  }
}
