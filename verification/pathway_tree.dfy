/** The Reactome pathway forest of `2_create_pathway_graph.py`: `build_tree`
    grows trees from the fixed top-level pathways by repeated passes over the
    parent/child edges until a pass changes nothing, `get_leaf_nodes` collects
    the childless nodes below the roots, and the main block deduplicates
    them.

    Nodes are keyed by pathway id. Node objects in the source are shared by
    reference (a node reached through `id_to_node` and through a parent's
    child list is one object), which the map from id to node captures. */
module PathwayTree {
  import opened Results
  import opened Seqs
  import opened PathwayFiles

  /** The top-level mouse pathways the trees start from, in source order. */
  const TopLevelPathways: seq<Id> := [
    "R-MMU-9612973", "R-MMU-1640170", "R-MMU-1500931", "R-MMU-8953897",
    "R-MMU-4839726", "R-MMU-1266738", "R-MMU-8963743", "R-MMU-73894",
    "R-MMU-69306", "R-MMU-1474244", "R-MMU-74160", "R-MMU-109582",
    "R-MMU-168256", "R-MMU-1430728", "R-MMU-392499", "R-MMU-8953854",
    "R-MMU-397014", "R-MMU-112316", "R-MMU-1852241", "R-MMU-5357801",
    "R-MMU-9609507", "R-MMU-1474165", "R-MMU-9709957", "R-MMU-162582",
    "R-MMU-382551", "R-MMU-5653656"
  ]

  ghost predicate NoDuplicates(ids: seq<Id>) {
    forall i, j :: 0 <= i < j < |ids| ==> ids[i] != ids[j]
  }

  /** No top-level pathway is listed twice, so one node per entry suffices. */
  lemma TopLevelDistinct()
    ensures |TopLevelPathways| == 26
    ensures NoDuplicates(TopLevelPathways)
  {
  }

  /** A tree node: its height (0 for a root) and its children, in the order
      they were attached. */
  datatype Node = Node(height: nat, children: seq<Id>)

  /** What `build_tree` returns: the roots in order and the id-to-node map. */
  datatype Forest = Forest(roots: seq<Id>, nodes: map<Id, Node>)

  /** The state of the fixpoint loop: `id_to_node` and `pair_added`. */
  datatype Build = Build(nodes: map<Id, Node>, added: set<Edge>)

  // ---------------------------------------------------------------------------
  // invariants of the construction

  /** Every child link goes to a known node of strictly greater height. This
      is what the height rule buys: no path can come back to where it
      started. */
  ghost predicate HeightOrdered(nodes: map<Id, Node>) {
    forall id, k :: id in nodes && 0 <= k < |nodes[id].children| ==>
      nodes[id].children[k] in nodes && nodes[nodes[id].children[k]].height > nodes[id].height
  }

  /** An edge has been dealt with in `nodes`: both ends are nodes, and the
      child is attached to the parent unless the height rule refused it. */
  ghost predicate Settled(nodes: map<Id, Node>, e: Edge) {
    && e.parent in nodes
    && e.child in nodes
    && (e.child in nodes[e.parent].children || nodes[e.child].height <= nodes[e.parent].height)
  }

  ghost predicate Good(b: Build) {
    && HeightOrdered(b.nodes)
    && (forall id, k :: id in b.nodes && 0 <= k < |b.nodes[id].children| ==>
          Edge(id, b.nodes[id].children[k]) in b.added)
    && (forall e :: e in b.added ==> Settled(b.nodes, e))
  }

  /** `b2` extends `b1`: no node disappears or changes height, child lists
      only grow at their end, processed edges stay processed, and every new
      node is a non-root child of a processed edge. */
  ghost predicate Extends(b1: Build, b2: Build) {
    && (forall id :: id in b1.nodes ==>
          && id in b2.nodes
          && b2.nodes[id].height == b1.nodes[id].height
          && |b1.nodes[id].children| <= |b2.nodes[id].children|
          && b2.nodes[id].children[..|b1.nodes[id].children|] == b1.nodes[id].children)
    && b1.added <= b2.added
    && (forall id :: id in b2.nodes && id !in b1.nodes ==>
          b2.nodes[id].height >= 1 && exists e :: e in b2.added && e.child == id)
  }

  lemma ExtendsTransitive(b1: Build, b2: Build, b3: Build)
    requires Extends(b1, b2) && Extends(b2, b3)
    ensures Extends(b1, b3)
  {
    forall id | id in b1.nodes
      ensures b3.nodes[id].children[..|b1.nodes[id].children|] == b1.nodes[id].children
    {
      var c1 := b1.nodes[id].children;
      var c2 := b2.nodes[id].children;
      var c3 := b3.nodes[id].children;
      assert c3[..|c2|][..|c1|] == c3[..|c1|];
    }
    forall id | id in b3.nodes && id !in b1.nodes
      ensures b3.nodes[id].height >= 1 && exists e :: e in b3.added && e.child == id
    {
      if id in b2.nodes {
        var e :| e in b2.added && e.child == id;
        assert e in b3.added;
      }
    }
  }

  /** A settled edge stays settled as the build extends. */
  lemma SettledExtends(b1: Build, b2: Build, e: Edge)
    requires Extends(b1, b2) && Settled(b1.nodes, e)
    ensures Settled(b2.nodes, e)
  {
    var c1 := b1.nodes[e.parent].children;
    var c2 := b2.nodes[e.parent].children;
    if e.child in c1 {
      var k :| 0 <= k < |c1| && c1[k] == e.child;
      assert c2[..|c1|][k] == c2[k];
    }
  }

  // ---------------------------------------------------------------------------
  // build_tree

  /** The roots before any edge is processed: one height-0 node per
      top-level id. */
  function RootNodes(tops: seq<Id>): (r: map<Id, Node>)
    ensures forall k :: 0 <= k < |tops| ==> tops[k] in r && r[tops[k]] == Node(0, [])
    ensures forall id :: id in r ==> id in tops
  {
    map t | t in tops :: Node(0, [])
  }

  /** The body of the inner `for pair in child_parent_pairs` loop for one
      edge. A processed edge is skipped; an edge whose parent is not yet a
      node waits; otherwise a new child becomes a node one level below its
      parent, an existing child is attached only if it is strictly deeper,
      and the edge is marked processed either way. */
  function Step(b: Build, e: Edge): (r: (Build, bool))
    ensures r.1 <==> e !in b.added && e.parent in b.nodes
    ensures !r.1 ==> r.0 == b
    ensures r.1 ==> r.0.added == b.added + {e} && Settled(r.0.nodes, e)
    ensures r.1 ==> r.0.nodes.Keys == b.nodes.Keys + {e.child}
    ensures r.1 ==> forall id :: id in b.nodes && id != e.parent ==> r.0.nodes[id] == b.nodes[id]
    ensures r.1 && e.child !in b.nodes ==>
      && r.0.nodes[e.child] == Node(b.nodes[e.parent].height + 1, [])
      && r.0.nodes[e.parent].height == b.nodes[e.parent].height
      && r.0.nodes[e.parent].children == b.nodes[e.parent].children + [e.child]
    ensures r.1 && e.child in b.nodes ==>
      && r.0.nodes[e.parent].height == b.nodes[e.parent].height
      && (r.0.nodes[e.parent].children == b.nodes[e.parent].children + [e.child]
          <==> b.nodes[e.child].height > b.nodes[e.parent].height)
      && (b.nodes[e.child].height <= b.nodes[e.parent].height ==> r.0.nodes[e.parent] == b.nodes[e.parent])
    ensures Extends(b, r.0)
    ensures Good(b) ==> Good(r.0)
  {
    if e in b.added || e.parent !in b.nodes then (b, false)
    else
      var p := b.nodes[e.parent];
      var p' := p.(children := p.children + [e.child]);
      assert p'.children[..|p.children|] == p.children;
      var nodes :=
        if e.child in b.nodes then
          if b.nodes[e.child].height > p.height then b.nodes[e.parent := p'] else b.nodes
        else
          b.nodes[e.child := Node(p.height + 1, [])][e.parent := p'];
      var b' := Build(nodes, b.added + {e});
      assert e.child in nodes[e.parent].children || nodes[e.child].height <= nodes[e.parent].height;
      assert Extends(b, b');
      assert Good(b) ==> Good(b') by {
        if Good(b) {
          forall e2 | e2 in b'.added
            ensures Settled(b'.nodes, e2)
          {
            if e2 != e {
              SettledExtends(b, b', e2);
            }
          }
        }
      }
      (b', true)
  }

  /** One run of the inner `for` loop over all edges, and whether it changed
      anything (`tree_modified`). */
  function Pass(b: Build, edges: seq<Edge>): (r: (Build, bool))
    ensures Extends(b, r.0)
    ensures Good(b) ==> Good(r.0)
    ensures r.1 ==> b.added < r.0.added
    ensures !r.1 ==> r.0 == b && forall k :: 0 <= k < |edges| ==> edges[k] in b.added || edges[k].parent !in b.nodes
    ensures forall e :: e in r.0.added ==> e in b.added || e in edges
    decreases |edges|
  {
    if |edges| == 0 then (b, false)
    else
      var (b1, m1) := Step(b, edges[0]);
      var (b2, m2) := Pass(b1, edges[1..]);
      ExtendsTransitive(b, b1, b2);
      assert forall e :: e in edges[1..] ==> e in edges;
      (b2, m1 || m2)
  }

  function EdgeSet(edges: seq<Edge>): set<Edge> {
    set e | e in edges
  }

  /** The `while tree_modified` loop. It ends because every pass that
      changes something marks a new edge as processed, and processed edges
      come from the finite edge list. At the end every edge is processed or
      has a parent that never became a node. */
  function Grow(b: Build, edges: seq<Edge>): (r: Build)
    requires b.added <= EdgeSet(edges)
    ensures Extends(b, r)
    ensures Good(b) ==> Good(r)
    ensures r.added <= EdgeSet(edges)
    ensures forall k :: 0 <= k < |edges| ==> edges[k] in r.added || edges[k].parent !in r.nodes
    decreases EdgeSet(edges) - b.added
  {
    var (b', modified) := Pass(b, edges);
    if modified then
      var r := Grow(b', edges);
      ExtendsTransitive(b, b', r);
      r
    else b
  }

  /** The first top-level id that is not a known pathway, if any. */
  function FirstMissing(tops: seq<Id>, pathways: map<Id, Pathway>): (r: Option<nat>)
    ensures r.None? <==> forall k :: 0 <= k < |tops| ==> tops[k] in pathways
    ensures r.Some? ==>
      && r.value < |tops| && tops[r.value] !in pathways
      && (forall k :: 0 <= k < r.value ==> tops[k] in pathways)
  {
    if |tops| == 0 then None
    else if tops[0] !in pathways then Some(0)
    else match FirstMissing(tops[1..], pathways)
      case None => None
      case Some(k) => Some(k + 1)
  }

  /** `build_tree` from a list of top-level ids: fails with `KeyError` on the
      first top-level id that is not a known pathway; otherwise the roots are
      the top-level ids in order and no path of child links returns to a
      node. */
  function BuildForest(pathways: map<Id, Pathway>, rows: seq<seq<string>>, tops: seq<Id>): (r: Result<Forest>)
    requires NoDuplicates(tops)
    ensures r.Err? <==> exists k :: 0 <= k < |tops| && tops[k] !in pathways
    ensures r.Err? ==> exists k ::
      && 0 <= k < |tops| && tops[k] !in pathways && r.fault == KeyError(tops[k])
      && (forall j :: 0 <= j < k ==> tops[j] in pathways)
    ensures r.Ok? ==> r.value.roots == tops && HeightOrdered(r.value.nodes)
    ensures r.Ok? ==> ValidForest(r.value)
  {
    match FirstMissing(tops, pathways)
    case Some(k) => Err(KeyError(tops[k]))
    case None =>
      GrownRoots(tops, ParseTree(pathways, rows));
      Ok(Forest(tops, Grown(tops, ParseTree(pathways, rows)).nodes))
  }

  /** The shape `build_tree` leaves behind: every root is a height-0 node,
      every child link comes from an input edge, every input edge whose
      parent became a node has been dealt with, and every node is a root or
      the child of an input edge. */
  lemma BuildForestShape(pathways: map<Id, Pathway>, rows: seq<seq<string>>, tops: seq<Id>)
    requires NoDuplicates(tops)
    requires forall k :: 0 <= k < |tops| ==> tops[k] in pathways
    ensures BuildForest(pathways, rows, tops).Ok?
    ensures var f := BuildForest(pathways, rows, tops).value; var edges := ParseTree(pathways, rows);
      && (forall k :: 0 <= k < |tops| ==> tops[k] in f.nodes && f.nodes[tops[k]].height == 0)
      && (forall id, k :: id in f.nodes && 0 <= k < |f.nodes[id].children| ==> Edge(id, f.nodes[id].children[k]) in edges)
      && (forall k :: 0 <= k < |edges| && edges[k].parent in f.nodes ==> Settled(f.nodes, edges[k]))
      && (forall id :: id in f.nodes ==> id in tops || exists k :: 0 <= k < |edges| && edges[k].child == id)
  {
    var edges := ParseTree(pathways, rows);
    assert BuildForest(pathways, rows, tops).value.nodes == Grown(tops, edges).nodes;
    GrownRoots(tops, edges);
    GrownLinks(tops, edges);
    GrownSettled(tops, edges);
    GrownOrigin(tops, edges);
  }

  /** The build after growing the roots over the edges. */
  function Grown(tops: seq<Id>, edges: seq<Edge>): (r: Build)
    ensures Good(r)
    ensures r.added <= EdgeSet(edges)
    ensures forall k :: 0 <= k < |edges| ==> edges[k] in r.added || edges[k].parent !in r.nodes
  {
    var b0 := Build(RootNodes(tops), {});
    assert Good(b0) by {
      assert forall id :: id in b0.nodes ==> b0.nodes[id].children == [];
    }
    Grow(b0, edges)
  }

  lemma GrownRoots(tops: seq<Id>, edges: seq<Edge>)
    ensures var b := Grown(tops, edges);
      forall k :: 0 <= k < |tops| ==> tops[k] in b.nodes && b.nodes[tops[k]].height == 0
  {
    var b0 := Build(RootNodes(tops), {});
    assert Extends(b0, Grow(b0, edges));
  }

  lemma GrownLinks(tops: seq<Id>, edges: seq<Edge>)
    ensures var b := Grown(tops, edges);
      forall id, k :: id in b.nodes && 0 <= k < |b.nodes[id].children| ==> Edge(id, b.nodes[id].children[k]) in edges
  {
    var b := Grown(tops, edges);
    forall id, k | id in b.nodes && 0 <= k < |b.nodes[id].children|
      ensures Edge(id, b.nodes[id].children[k]) in edges
    {
      assert Edge(id, b.nodes[id].children[k]) in b.added;
    }
  }

  lemma GrownSettled(tops: seq<Id>, edges: seq<Edge>)
    ensures var b := Grown(tops, edges);
      forall k :: 0 <= k < |edges| && edges[k].parent in b.nodes ==> Settled(b.nodes, edges[k])
  {
    var b := Grown(tops, edges);
    forall k | 0 <= k < |edges| && edges[k].parent in b.nodes
      ensures Settled(b.nodes, edges[k])
    {
      assert edges[k] in b.added;
    }
  }

  lemma GrownOrigin(tops: seq<Id>, edges: seq<Edge>)
    ensures var b := Grown(tops, edges);
      forall id :: id in b.nodes ==> id in tops || exists k :: 0 <= k < |edges| && edges[k].child == id
  {
    var b0 := Build(RootNodes(tops), {});
    var b := Grown(tops, edges);
    assert Extends(b0, b);
    forall id | id in b.nodes && id !in tops
      ensures exists k :: 0 <= k < |edges| && edges[k].child == id
    {
      var e :| e in b.added && e.child == id;
      assert e in EdgeSet(edges);
      var k :| 0 <= k < |edges| && edges[k] == e;
    }
  }

  /** `build_tree` with the fixed top-level pathways. */
  function BuildTree(pathways: map<Id, Pathway>, rows: seq<seq<string>>): (r: Result<Forest>)
    ensures r.Err? <==> exists k :: 0 <= k < |TopLevelPathways| && TopLevelPathways[k] !in pathways
    ensures r.Ok? ==> r.value.roots == TopLevelPathways && ValidForest(r.value)
  {
    TopLevelDistinct();
    BuildForest(pathways, rows, TopLevelPathways)
  }

  // ---------------------------------------------------------------------------
  // get_leaf_nodes

  ghost predicate AllAtOrAbove(nodes: map<Id, Node>, ids: seq<Id>, lvl: nat) {
    forall k :: 0 <= k < |ids| ==> ids[k] in nodes && nodes[ids[k]].height >= lvl
  }

  /** The nodes of height at least `h`; it shrinks at every descent, which
      is why the traversal ends. */
  function AtOrAbove(nodes: map<Id, Node>, h: nat): set<Id> {
    set id | id in nodes && nodes[id].height >= h
  }

  /** `get_leaf_nodes`: depth first, left to right, every childless node
      below `ids`; a node reached along several paths is listed once per
      path. `lvl` is a lower bound on the heights of `ids`. */
  function Leaves(nodes: map<Id, Node>, ids: seq<Id>, lvl: nat): (r: seq<Id>)
    requires HeightOrdered(nodes) && AllAtOrAbove(nodes, ids, lvl)
    ensures forall k :: 0 <= k < |r| ==> r[k] in nodes && nodes[r[k]].children == []
    decreases AtOrAbove(nodes, lvl), |ids|
  {
    if |ids| == 0 then []
    else
      var n := nodes[ids[0]];
      var first :=
        if n.children == [] then [ids[0]]
        else
          assert ids[0] in AtOrAbove(nodes, lvl) - AtOrAbove(nodes, n.height + 1);
          Leaves(nodes, n.children, n.height + 1);
      first + Leaves(nodes, ids[1..], lvl)
  }

  ghost predicate ValidForest(f: Forest) {
    HeightOrdered(f.nodes) && forall k :: 0 <= k < |f.roots| ==> f.roots[k] in f.nodes
  }

  /** `get_leaf_nodes(trees)` on the roots of a forest. */
  function LeafNodes(f: Forest): (r: seq<Id>)
    requires ValidForest(f)
    ensures forall k :: 0 <= k < |r| ==> r[k] in f.nodes && f.nodes[r[k]].children == []
  {
    Leaves(f.nodes, f.roots, 0)
  }

  /** A path of child links. */
  ghost predicate IsPath(nodes: map<Id, Node>, p: seq<Id>) {
    && |p| >= 1
    && (forall i :: 0 <= i < |p| ==> p[i] in nodes)
    && (forall i :: 0 <= i < |p| - 1 ==> p[i + 1] in nodes[p[i]].children)
  }

  ghost predicate Reachable(nodes: map<Id, Node>, ids: seq<Id>, x: Id) {
    exists p :: IsPath(nodes, p) && p[0] in ids && p[|p| - 1] == x
  }

  lemma {:induction false} LeavesSound(nodes: map<Id, Node>, ids: seq<Id>, lvl: nat, x: Id)
    requires HeightOrdered(nodes) && AllAtOrAbove(nodes, ids, lvl)
    requires x in Leaves(nodes, ids, lvl)
    ensures Reachable(nodes, ids, x)
    decreases AtOrAbove(nodes, lvl), |ids|
  {
    var n := nodes[ids[0]];
    var rest := Leaves(nodes, ids[1..], lvl);
    if x in rest {
      LeavesSound(nodes, ids[1..], lvl, x);
      var p :| IsPath(nodes, p) && p[0] in ids[1..] && p[|p| - 1] == x;
      assert p[0] in ids;
    } else if n.children == [] {
      assert x == ids[0];
      assert IsPath(nodes, [ids[0]]);
    } else {
      assert ids[0] in AtOrAbove(nodes, lvl) - AtOrAbove(nodes, n.height + 1);
      LeavesSound(nodes, n.children, n.height + 1, x);
      var p :| IsPath(nodes, p) && p[0] in n.children && p[|p| - 1] == x;
      var q := [ids[0]] + p;
      assert q[1..] == p;
      assert IsPath(nodes, q);
    }
  }

  lemma {:induction false} LeavesComplete(nodes: map<Id, Node>, ids: seq<Id>, lvl: nat, p: seq<Id>)
    requires HeightOrdered(nodes) && AllAtOrAbove(nodes, ids, lvl)
    requires IsPath(nodes, p) && p[0] in ids && nodes[p[|p| - 1]].children == []
    ensures p[|p| - 1] in Leaves(nodes, ids, lvl)
    decreases AtOrAbove(nodes, lvl), |ids|
  {
    var n := nodes[ids[0]];
    var r := Leaves(nodes, ids, lvl);
    if p[0] == ids[0] {
      if |p| == 1 {
        assert r[0] == ids[0];
      } else {
        assert p[1] in n.children;
        assert ids[0] in AtOrAbove(nodes, lvl) - AtOrAbove(nodes, n.height + 1);
        var q := p[1..];
        assert IsPath(nodes, q);
        assert AllAtOrAbove(nodes, n.children, n.height + 1);
        LeavesComplete(nodes, n.children, n.height + 1, q);
        assert r == Leaves(nodes, n.children, n.height + 1) + Leaves(nodes, ids[1..], lvl);
      }
    } else {
      assert p[0] in ids[1..];
      LeavesComplete(nodes, ids[1..], lvl, p);
    }
  }

  /** The leaves are exactly the childless nodes reachable from the input. */
  lemma LeavesExactly(nodes: map<Id, Node>, ids: seq<Id>, lvl: nat, x: Id)
    requires HeightOrdered(nodes) && AllAtOrAbove(nodes, ids, lvl)
    ensures x in Leaves(nodes, ids, lvl) <==> x in nodes && nodes[x].children == [] && Reachable(nodes, ids, x)
  {
    if x in Leaves(nodes, ids, lvl) {
      LeavesSound(nodes, ids, lvl, x);
    }
    if x in nodes && nodes[x].children == [] && Reachable(nodes, ids, x) {
      var p :| IsPath(nodes, p) && p[0] in ids && p[|p| - 1] == x;
      LeavesComplete(nodes, ids, lvl, p);
    }
  }

  /** The traversal goes left to right: the leaves below `a + b` are those
      below `a` followed by those below `b`. */
  lemma {:induction false} LeavesAppend(nodes: map<Id, Node>, a: seq<Id>, b: seq<Id>, lvl: nat)
    requires HeightOrdered(nodes) && AllAtOrAbove(nodes, a, lvl) && AllAtOrAbove(nodes, b, lvl)
    ensures AllAtOrAbove(nodes, a + b, lvl)
    ensures Leaves(nodes, a + b, lvl) == Leaves(nodes, a, lvl) + Leaves(nodes, b, lvl)
    decreases |a|
  {
    assert AllAtOrAbove(nodes, a + b, lvl);
    if |a| == 0 {
      assert a + b == b;
    } else {
      assert (a + b)[1..] == a[1..] + b;
      LeavesAppend(nodes, a[1..], b, lvl);
    }
  }

  /** Two parents sharing one childless child: the shared leaf is listed
      once per path. */
  lemma SharedLeafRepeats(nodes: map<Id, Node>, root: Id, a: Id, b: Id, leaf: Id)
    requires HeightOrdered(nodes)
    requires root in nodes && nodes[root] == Node(0, [a, b])
    requires a in nodes && nodes[a] == Node(1, [leaf])
    requires b in nodes && nodes[b] == Node(1, [leaf])
    requires leaf in nodes && nodes[leaf] == Node(2, [])
    ensures AllAtOrAbove(nodes, [root], 0)
    ensures Leaves(nodes, [root], 0) == [leaf, leaf]
  {
    assert Leaves(nodes, [leaf], 2) == [leaf] by {
      assert [leaf][1..] == [];
    }
    assert Leaves(nodes, [a], 1) == [leaf] by {
      assert [a][1..] == [];
    }
    assert Leaves(nodes, [b], 1) == [leaf] by {
      assert [b][1..] == [];
    }
    LeavesAppend(nodes, [a], [b], 1);
    assert [a] + [b] == [a, b];
    assert [root][1..] == [];
  }

  // ---------------------------------------------------------------------------
  // the leaf deduplication of the main block

  /** The deduplication loop as written. It tests `leaf.pathway in ids_seen`
      for every leaf; a root's `pathway` is a `Pathway` dataclass, which is
      unhashable (equality without `frozen`), so meeting a root among the
      leaves raises `TypeError`. Other leaves carry their id string, and
      `ids_seen` always holds the ids kept so far. */
  function DedupLeavesAsWritten(roots: seq<Id>, leaves: seq<Id>): (r: Result<seq<Id>>)
    ensures r.Err? <==> exists k :: 0 <= k < |leaves| && leaves[k] in roots
    ensures r.Err? ==> r.fault == TypeError
    ensures r.Ok? ==> forall k :: 0 <= k < |r.value| ==> r.value[k] in leaves
  {
    if |leaves| == 0 then Ok([])
    else
      var n := |leaves| - 1;
      match DedupLeavesAsWritten(roots, leaves[..n])
      case Err(f) => Err(f)
      case Ok(unique) =>
        if leaves[n] in roots then Err(TypeError)
        else if leaves[n] in unique then Ok(unique)
        else Ok(unique + [leaves[n]])
  }

  /** The deduplication as intended: every leaf keyed by its pathway id, and
      of each id only the first occurrence kept, in the order of the input.
      `pos` lists the positions holding the first occurrence of an id. */
  function UniqueLeaves(leaves: seq<Id>): (r: seq<Id>)
    ensures NoDuplicates(r)
    ensures forall x :: x in r <==> x in leaves
    ensures var pos := Indices(FirstFlags(leaves, Identity));
      && StrictlyIncreasing(pos)
      && (forall i :: IsFirst(leaves, Identity, i) ==> i in pos)
      && |r| == |pos|
      && (forall k :: 0 <= k < |pos| ==> IsFirst(leaves, Identity, pos[k]) && r[k] == leaves[pos[k]])
  {
    var r := FirstSeen(leaves, Identity);
    FirstSeenOrder(leaves, Identity);
    assert forall x :: x in r <==> x in KeySet(r, Identity) by {
      forall x | x in KeySet(r, Identity) ensures x in r {
        var i :| 0 <= i < |r| && Identity(r[i]) == x;
      }
    }
    assert forall x :: x in leaves <==> x in KeySet(leaves, Identity) by {
      forall x | x in KeySet(leaves, Identity) ensures x in leaves {
        var i :| 0 <= i < |leaves| && Identity(leaves[i]) == x;
      }
    }
    r
  }

  /** Where the loop as written gets through (no root among the leaves), it
      computes the intended deduplication. */
  lemma {:induction false} DedupAsWrittenAgrees(roots: seq<Id>, leaves: seq<Id>)
    ensures DedupLeavesAsWritten(roots, leaves).Ok? ==> DedupLeavesAsWritten(roots, leaves).value == UniqueLeaves(leaves)
    ensures (forall k :: 0 <= k < |leaves| ==> leaves[k] !in roots) ==>
      DedupLeavesAsWritten(roots, leaves) == Ok(UniqueLeaves(leaves))
    decreases |leaves|
  {
    if |leaves| > 0 {
      var n := |leaves| - 1;
      var init := leaves[..n];
      DedupAsWrittenAgrees(roots, init);
      var prior := FirstSeen(init, Identity);
      assert leaves == init + [leaves[n]];
      assert leaves[n] in prior <==> Identity(leaves[n]) in KeySet(init, Identity) by {
        if leaves[n] in prior {
          var i :| 0 <= i < |prior| && prior[i] == leaves[n];
          assert Identity(prior[i]) in KeySet(prior, Identity);
        }
        if Identity(leaves[n]) in KeySet(prior, Identity) {
          var i :| 0 <= i < |prior| && Identity(prior[i]) == leaves[n];
        }
      }
    }
  }

  /** With no tree lines every top-level pathway is a childless root: the
      loop as written raises `TypeError` on the first leaf, while the
      intended deduplication returns that leaf first. */
  lemma ChildlessRootBreaksDedup(pathways: map<Id, Pathway>, tops: seq<Id>)
    requires |tops| >= 1 && NoDuplicates(tops)
    requires forall k :: 0 <= k < |tops| ==> tops[k] in pathways
    ensures BuildForest(pathways, [], tops).Ok?
    ensures var f := BuildForest(pathways, [], tops).value;
      && |LeafNodes(f)| >= 1 && LeafNodes(f)[0] == tops[0]
      && DedupLeavesAsWritten(f.roots, LeafNodes(f)) == Err(TypeError)
      && |UniqueLeaves(LeafNodes(f))| >= 1 && UniqueLeaves(LeafNodes(f))[0] == tops[0]
  {
    assert ParseTree(pathways, []) == [];
    var b0 := Build(RootNodes(tops), {});
    assert Pass(b0, []) == (b0, false);
    assert Grown(tops, []) == b0;
    assert FirstMissing(tops, pathways).None?;
    var f := BuildForest(pathways, [], tops);
    assert f == Ok(Forest(tops, RootNodes(tops)));
    var leaves := LeafNodes(f.value);
    assert leaves[0] == tops[0];
    var u := FirstSeen(leaves, Identity);
    assert u[0] == tops[0] by {
      FirstSeenPrefix(leaves, 1, Identity);
      assert leaves[..1] == [tops[0]];
      assert FirstSeen([tops[0]], Identity) == [tops[0]] by {
        assert [tops[0]][..0] == [];
      }
    }
  }

  // ---------------------------------------------------------------------------
  // the main block

  /** The script's pipeline up to the forest: parse the pathway table, attach
      genes, build the forest from the fixed top-level pathways. */
  function LeafForest(pathwayLines: seq<string>, geneLines: seq<string>, treeLines: seq<string>): (r: Result<Forest>)
    ensures ParsePathways(FieldRows(pathwayLines)).Err? ==> r == Err(IndexError)
    ensures r.Ok? ==> ParsePathways(FieldRows(pathwayLines)).Ok?
    ensures r.Ok? ==> r.value.roots == TopLevelPathways && ValidForest(r.value)
  {
    var pathways :- ParsePathways(FieldRows(pathwayLines));
    BuildTree(AddGenes(pathways, FieldRows(geneLines)), FieldRows(treeLines))
  }

  /** The main block as written: the forest's leaves run through the
      deduplication loop, which fails with `TypeError` as soon as a
      top-level pathway is among the leaves, and otherwise yields the
      intended deduplication. */
  function UniqueLeafPathways(pathwayLines: seq<string>, geneLines: seq<string>, treeLines: seq<string>): (r: Result<seq<Id>>)
    ensures LeafForest(pathwayLines, geneLines, treeLines).Err? ==>
      r == Err(LeafForest(pathwayLines, geneLines, treeLines).fault)
    ensures LeafForest(pathwayLines, geneLines, treeLines).Ok? ==>
      var leaves := LeafNodes(LeafForest(pathwayLines, geneLines, treeLines).value);
      && (r.Err? <==> exists k :: 0 <= k < |leaves| && leaves[k] in TopLevelPathways)
      && (r.Err? ==> r.fault == TypeError)
      && (r.Ok? ==> r.value == UniqueLeaves(leaves))
    ensures r.Ok? ==> NoDuplicates(r.value)
  {
    var f :- LeafForest(pathwayLines, geneLines, treeLines);
    DedupAsWrittenAgrees(f.roots, LeafNodes(f));
    DedupLeavesAsWritten(f.roots, LeafNodes(f))
  }

  /** The main block with the deduplication keyed by pathway id throughout:
      it fails only where building the forest fails, and yields each
      childless pathway reachable from a top-level pathway once, in the
      order the traversal first meets it. */
  function UniqueLeafPathwaysIntended(pathwayLines: seq<string>, geneLines: seq<string>, treeLines: seq<string>): (r: Result<seq<Id>>)
    ensures r.Err? <==> LeafForest(pathwayLines, geneLines, treeLines).Err?
    ensures r.Err? ==> r.fault == LeafForest(pathwayLines, geneLines, treeLines).fault
    ensures r.Ok? ==> NoDuplicates(r.value)
    ensures r.Ok? ==> var f := LeafForest(pathwayLines, geneLines, treeLines).value;
      forall x :: x in r.value <==> x in f.nodes && f.nodes[x].children == [] && Reachable(f.nodes, f.roots, x)
  {
    var f :- LeafForest(pathwayLines, geneLines, treeLines);
    assert forall x :: x in LeafNodes(f) <==> x in f.nodes && f.nodes[x].children == [] && Reachable(f.nodes, f.roots, x) by {
      forall x
        ensures x in LeafNodes(f) <==> x in f.nodes && f.nodes[x].children == [] && Reachable(f.nodes, f.roots, x)
      {
        LeavesExactly(f.nodes, f.roots, 0, x);
      }
    }
    Ok(UniqueLeaves(LeafNodes(f)))
  }

  /** Where the script as written gets through, it agrees with the intended
      pipeline. */
  lemma PipelinesAgree(pathwayLines: seq<string>, geneLines: seq<string>, treeLines: seq<string>)
    ensures UniqueLeafPathways(pathwayLines, geneLines, treeLines).Ok? ==>
      UniqueLeafPathways(pathwayLines, geneLines, treeLines) == UniqueLeafPathwaysIntended(pathwayLines, geneLines, treeLines)
  {
  }
}
