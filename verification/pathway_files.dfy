/** The three Reactome line parsers of `2_create_pathway_graph.py`: the
    pathway table (id, name, organism), the gene-to-pathway table and the
    parent/child relation table. Each works on the rows of its file, as read,
    and keeps mouse data only. */
module PathwayFiles {
  import opened Results
  import opened PyStr

  type Id = string

  /** The organism name the parsers filter on. */
  const Mouse: string := "Mus musculus"

  /** A Reactome pathway with the genes recorded for it, in file order. */
  datatype Pathway = Pathway(id: Id, name: string, genes: seq<string>)

  /** A parent/child link from the relation table. */
  datatype Edge = Edge(parent: Id, child: Id)

  /** `line.strip().split('\t')` */
  function Fields(line: string): seq<string> {
    Split(Strip(line), '\t')
  }

  /** The fields of every line of a file; the parsers below work on these. */
  function FieldRows(lines: seq<string>): (r: seq<seq<string>>)
    ensures |r| == |lines|
    ensures forall i :: 0 <= i < |lines| ==> r[i] == Fields(lines[i])
  {
    seq(|lines|, i requires 0 <= i < |lines| => Fields(lines[i]))
  }

  // ---------------------------------------------------------------------------
  // parse_pathway_file

  /** A pathway line the parser keeps: it has the organism field, and the
      organism is mouse. */
  predicate IsMousePathway(f: seq<string>) {
    |f| >= 3 && f[2] == Mouse
  }

  /** The pathway table: every line needs three tab fields (the indexing
      raises `IndexError` otherwise, whatever the organism); mouse rows map
      their id to a fresh pathway with no genes, a later line replacing an
      earlier one with the same id. */
  function ParsePathways(rows: seq<seq<string>>): (r: Result<map<Id, Pathway>>)
    ensures r.Ok? <==> forall i :: 0 <= i < |rows| ==> |rows[i]| >= 3
    ensures r.Err? ==> r.fault == IndexError
    ensures r.Ok? ==> forall id :: id in r.value <==>
      exists i :: 0 <= i < |rows| && IsMousePathway(rows[i]) && rows[i][0] == id
    ensures r.Ok? ==> forall id :: id in r.value ==> r.value[id].id == id && r.value[id].genes == []
  {
    if |rows| == 0 then Ok(map[])
    else
      var n := |rows| - 1;
      var prior :- ParsePathways(rows[..n]);
      assert forall i :: 0 <= i < n ==> rows[..n][i] == rows[i];
      var f := rows[n];
      if |f| < 3 then Err(IndexError)
      else if f[2] != Mouse then Ok(prior)
      else Ok(prior[f[0] := Pathway(f[0], f[1], [])])
  }

  /** The name stored for an id comes from the last mouse line with that id. */
  lemma {:induction false} ParsePathwaysLastWins(rows: seq<seq<string>>, i: nat)
    requires ParsePathways(rows).Ok?
    requires i < |rows| && IsMousePathway(rows[i])
    requires forall j :: i < j < |rows| && IsMousePathway(rows[j]) ==> rows[j][0] != rows[i][0]
    ensures ParsePathways(rows).value[rows[i][0]] == Pathway(rows[i][0], rows[i][1], [])
    decreases |rows|
  {
    var n := |rows| - 1;
    assert forall j :: 0 <= j < n ==> rows[..n][j] == rows[j];
    if i < n {
      ParsePathwaysLastWins(rows[..n], i);
    }
  }

  // ---------------------------------------------------------------------------
  // add_genes_to_pathways

  /** A gene line that counts: exactly six tab fields, the sixth naming mouse. */
  predicate IsMouseGeneLine(f: seq<string>) {
    |f| == 6 && f[5] == Mouse
  }

  /** The genes the gene table lists for pathway `id`, in file order,
      repeats included. */
  function GenesListed(rows: seq<seq<string>>, id: Id): (r: seq<string>)
    ensures |r| <= |rows|
  {
    if |rows| == 0 then []
    else
      var f := rows[|rows| - 1];
      GenesListed(rows[..|rows| - 1], id) + (if IsMouseGeneLine(f) && f[1] == id then [f[0]] else [])
  }

  /** The gene table applied to the pathways: field 0 (the gene) is appended
      to the pathway named by field 1 when the line qualifies and the pathway
      is known; other rows are skipped. */
  function AddGenes(pathways: map<Id, Pathway>, rows: seq<seq<string>>): (r: map<Id, Pathway>)
    ensures r.Keys == pathways.Keys
  {
    if |rows| == 0 then pathways
    else
      var n := |rows| - 1;
      var prior := AddGenes(pathways, rows[..n]);
      var f := rows[n];
      if IsMouseGeneLine(f) && f[1] in prior then
        var p := prior[f[1]];
        prior[f[1] := p.(genes := p.genes + [f[0]])]
      else prior
  }

  /** Adding genes keeps every pathway's id and name and appends to its gene
      list exactly the genes the table lists for it, in file order. */
  lemma {:induction false} AddGenesAppends(pathways: map<Id, Pathway>, rows: seq<seq<string>>, id: Id)
    requires id in pathways
    ensures var r := AddGenes(pathways, rows);
      && r[id].id == pathways[id].id
      && r[id].name == pathways[id].name
      && r[id].genes == pathways[id].genes + GenesListed(rows, id)
    decreases |rows|
  {
    if |rows| > 0 {
      var n := |rows| - 1;
      AddGenesAppends(pathways, rows[..n], id);
      var f := rows[n];
      var prior := AddGenes(pathways, rows[..n]);
      var r := AddGenes(pathways, rows);
      if IsMouseGeneLine(f) && f[1] == id {
        assert GenesListed(rows, id) == GenesListed(rows[..n], id) + [f[0]];
        assert r == prior[id := prior[id].(genes := prior[id].genes + [f[0]])];
      } else {
        assert GenesListed(rows, id) == GenesListed(rows[..n], id);
        assert r[id] == prior[id];
      }
    }
  }

  // ---------------------------------------------------------------------------
  // parse_tree_file

  /** The edge one relation line contributes: exactly two fields, both known
      pathway ids. */
  function EdgeOf(pathways: map<Id, Pathway>, f: seq<string>): (r: seq<Edge>)
    ensures |r| <= 1
    ensures |r| == 1 <==> |f| == 2 && f[0] in pathways && f[1] in pathways
    ensures |r| == 1 ==> r[0] == Edge(f[0], f[1])
  {
    if |f| == 2 && f[0] in pathways && f[1] in pathways then [Edge(f[0], f[1])] else []
  }

  /** The relation table: the qualifying rows' edges in file order. */
  function ParseTree(pathways: map<Id, Pathway>, rows: seq<seq<string>>): (r: seq<Edge>)
    ensures |r| <= |rows|
    ensures forall k :: 0 <= k < |r| ==> r[k].parent in pathways && r[k].child in pathways
  {
    if |rows| == 0 then [] else EdgeOf(pathways, rows[0]) + ParseTree(pathways, rows[1..])
  }

  /** Parsing is line by line: the edges of two stretches of the file are the
      edges of each, in order. */
  lemma {:induction false} ParseTreeAppend(pathways: map<Id, Pathway>, a: seq<seq<string>>, b: seq<seq<string>>)
    ensures ParseTree(pathways, a + b) == ParseTree(pathways, a) + ParseTree(pathways, b)
    decreases |a|
  {
    if |a| == 0 {
      assert a + b == b;
    } else {
      assert (a + b)[1..] == a[1..] + b;
      ParseTreeAppend(pathways, a[1..], b);
    }
  }

  /** An edge is parsed exactly when some line carries it. */
  lemma {:induction false} ParseTreeMembers(pathways: map<Id, Pathway>, rows: seq<seq<string>>, e: Edge)
    ensures e in ParseTree(pathways, rows) <==>
      e.parent in pathways && e.child in pathways &&
      exists i :: 0 <= i < |rows| && rows[i] == [e.parent, e.child]
    decreases |rows|
  {
    if |rows| > 0 {
      ParseTreeMembers(pathways, rows[1..], e);
      var f := rows[0];
      if e in ParseTree(pathways, rows[1..]) {
        var i :| 0 <= i < |rows[1..]| && rows[1..][i] == [e.parent, e.child];
        assert rows[i + 1] == [e.parent, e.child];
      }
      if f == [e.parent, e.child] && e.parent in pathways && e.child in pathways {
        assert EdgeOf(pathways, rows[0]) == [e];
      }
      if exists i :: 0 <= i < |rows| && rows[i] == [e.parent, e.child] {
        var i :| 0 <= i < |rows| && rows[i] == [e.parent, e.child];
        if i > 0 {
          assert rows[1..][i - 1] == rows[i];
        }
      }
    }
  }
}
