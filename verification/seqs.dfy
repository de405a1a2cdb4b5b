/** Sequence idioms the scripts share: first-seen deduplication through a
    `seen` set, sorted index lists, and deletion of marked positions from the
    back (`for index in reversed(bad): del xs[index]`). */
module Seqs {
  import opened Results

  function Identity<T>(x: T): T {
    x
  }

  lemma ConcatAssoc<T>(a: seq<T>, b: seq<T>, c: seq<T>)
    ensures a + (b + c) == (a + b) + c
  {
  }

  /** The first row whose width is not `width`, if any. */
  function FirstWrongWidth<T>(rows: seq<seq<T>>, width: nat): (r: Option<nat>)
    ensures r.None? <==> forall i :: 0 <= i < |rows| ==> |rows[i]| == width
    ensures r.Some? ==>
      && r.value < |rows| && |rows[r.value]| != width
      && (forall j :: 0 <= j < r.value ==> |rows[j]| == width)
  {
    if |rows| == 0 then None
    else if |rows[0]| != width then Some(0)
    else match FirstWrongWidth(rows[1..], width)
      case None => None
      case Some(k) => Some(k + 1)
  }

  // ---------------------------------------------------------------------------
  // first-seen deduplication

  /** The keys of the elements of `xs`. */
  function KeySet<T, K>(xs: seq<T>, key: T -> K): set<K> {
    set i | 0 <= i < |xs| :: key(xs[i])
  }

  ghost predicate DistinctKeys<T, K>(xs: seq<T>, key: T -> K) {
    forall i, j :: 0 <= i < j < |xs| ==> key(xs[i]) != key(xs[j])
  }

  /** Position `i` holds the first element of `xs` with its key. */
  ghost predicate IsFirst<T, K>(xs: seq<T>, key: T -> K, i: int) {
    0 <= i < |xs| && forall j :: 0 <= j < i ==> key(xs[j]) != key(xs[i])
  }

  /** `x` is the first element of `xs` with its key. */
  ghost predicate FirstOccurrence<T, K>(xs: seq<T>, key: T -> K, x: T) {
    exists i :: IsFirst(xs, key, i) && xs[i] == x
  }

  lemma KeySetAppend<T, K>(xs: seq<T>, x: T, key: T -> K)
    ensures KeySet(xs + [x], key) == KeySet(xs, key) + {key(x)}
  {
    var ys := xs + [x];
    assert key(ys[|xs|]) in KeySet(ys, key);
    forall k | k in KeySet(xs, key)
      ensures k in KeySet(ys, key)
    {
      var i :| 0 <= i < |xs| && key(xs[i]) == k;
      assert ys[i] == xs[i];
    }
  }

  /** The elements of `xs` whose key has not been seen before, in order: the
      reference definition of the `seen`-set loop. */
  function FirstSeen<T, K(==)>(xs: seq<T>, key: T -> K): (r: seq<T>)
    ensures KeySet(r, key) == KeySet(xs, key)
    ensures DistinctKeys(r, key)
    ensures |r| <= |xs|
  {
    if |xs| == 0 then []
    else
      var init := xs[..|xs| - 1];
      var last := xs[|xs| - 1];
      assert xs == init + [last];
      KeySetAppend(init, last, key);
      var prior := FirstSeen(init, key);
      if key(last) in KeySet(init, key) then prior
      else
        KeySetAppend(prior, last, key);
        assert forall i :: 0 <= i < |prior| ==> key(prior[i]) in KeySet(prior, key);
        prior + [last]
  }

  /** Every element `FirstSeen` keeps is the first occurrence of its key. */
  lemma {:induction false} FirstSeenKeepsFirsts<T, K>(xs: seq<T>, key: T -> K)
    ensures forall k :: 0 <= k < |FirstSeen(xs, key)| ==> FirstOccurrence(xs, key, FirstSeen(xs, key)[k])
    decreases |xs|
  {
    if |xs| > 0 {
      var init := xs[..|xs| - 1];
      var last := xs[|xs| - 1];
      FirstSeenKeepsFirsts(init, key);
      var r := FirstSeen(xs, key);
      var prior := FirstSeen(init, key);
      assert xs == init + [last];
      assert r == prior || (r == prior + [last] && key(last) !in KeySet(init, key));
      forall k | 0 <= k < |r|
        ensures FirstOccurrence(xs, key, r[k])
      {
        if k < |prior| {
          assert r[k] == prior[k];
          assert FirstOccurrence(init, key, prior[k]);
          var i :| IsFirst(init, key, i) && init[i] == prior[k];
          assert xs[i] == init[i];
          assert IsFirst(xs, key, i);
        } else {
          assert key(last) !in KeySet(init, key);
          assert r[k] == last;
          forall j | 0 <= j < |xs| - 1
            ensures key(xs[j]) != key(last)
          {
            assert key(init[j]) in KeySet(init, key);
          }
          assert IsFirst(xs, key, |xs| - 1) && xs[|xs| - 1] == last;
        }
      }
    } else {
      assert FirstSeen(xs, key) == [];
    }
  }

  /** Deduplication is monotone: processing more input only appends. */
  lemma {:induction false} FirstSeenPrefix<T, K>(xs: seq<T>, n: nat, key: T -> K)
    requires n <= |xs|
    ensures var p := FirstSeen(xs[..n], key);
      |p| <= |FirstSeen(xs, key)| && p == FirstSeen(xs, key)[..|p|]
    decreases |xs| - n
  {
    if n < |xs| {
      var init := xs[..|xs| - 1];
      assert xs[..n] == init[..n];
      FirstSeenPrefix(init, n, key);
    } else {
      assert xs[..n] == xs;
    }
  }

  /** Whether each position of `xs` holds the first element with its key. */
  function FirstFlags<T, K(==)>(xs: seq<T>, key: T -> K): (r: seq<bool>)
    ensures |r| == |xs|
    ensures forall i :: 0 <= i < |xs| ==> (r[i] <==> IsFirst(xs, key, i))
  {
    var r := seq(|xs|, i requires 0 <= i < |xs| => key(xs[i]) !in KeySet(xs[..i], key));
    assert forall i :: 0 <= i < |xs| ==> (r[i] <==> IsFirst(xs, key, i)) by {
      forall i | 0 <= i < |xs|
        ensures r[i] <==> IsFirst(xs, key, i)
      {
        if key(xs[i]) in KeySet(xs[..i], key) {
          var j :| 0 <= j < i && key(xs[..i][j]) == key(xs[i]);
          assert xs[..i][j] == xs[j];
        }
        if !IsFirst(xs, key, i) {
          var j :| 0 <= j < i && key(xs[j]) == key(xs[i]);
          assert xs[..i][j] == xs[j];
        }
      }
    }
    r
  }

  /** `FirstSeen` selects the first occurrences. */
  lemma {:induction false} FirstSeenSelects<T, K>(xs: seq<T>, key: T -> K)
    ensures FirstSeen(xs, key) == Select(xs, FirstFlags(xs, key))
    decreases |xs|
  {
    if |xs| > 0 {
      var n := |xs| - 1;
      var init := xs[..n];
      FirstSeenSelects(init, key);
      var flags := FirstFlags(xs, key);
      assert flags[..n] == FirstFlags(init, key) by {
        forall i | 0 <= i < n
          ensures flags[i] == FirstFlags(init, key)[i]
        {
          assert xs[..i] == init[..i];
        }
      }
      assert xs[..n] == init;
    }
  }

  /** `FirstSeen` keeps exactly the first occurrences, in the order of their
      positions in `xs`: its `k`-th element sits at the `k`-th position that
      holds the first element with its key. */
  lemma FirstSeenOrder<T, K>(xs: seq<T>, key: T -> K)
    ensures var pos := Indices(FirstFlags(xs, key));
      && StrictlyIncreasing(pos)
      && |FirstSeen(xs, key)| == |pos|
      && (forall i :: IsFirst(xs, key, i) ==> i in pos)
      && (forall k :: 0 <= k < |pos| ==>
            pos[k] < |xs| && IsFirst(xs, key, pos[k]) && FirstSeen(xs, key)[k] == xs[pos[k]])
  {
    FirstSeenSelects(xs, key);
    SelectAtIndices(xs, FirstFlags(xs, key));
  }

  /** The `seen`-set loop: keep an element when its key is new, then record
      the key. */
  method DedupFirstSeen<T, K(==)>(xs: seq<T>, key: T -> K) returns (unique: seq<T>)
    ensures unique == FirstSeen(xs, key)
    ensures DistinctKeys(unique, key)
    ensures KeySet(unique, key) == KeySet(xs, key)
  {
    var seen: set<K> := {};
    unique := [];
    for i := 0 to |xs|
      invariant seen == KeySet(xs[..i], key)
      invariant unique == FirstSeen(xs[..i], key)
    {
      assert xs[..i + 1] == xs[..i] + [xs[i]];
      assert xs[..i + 1][..i] == xs[..i];
      KeySetAppend(xs[..i], xs[i], key);
      if key(xs[i]) !in seen {
        unique := unique + [xs[i]];
        seen := seen + {key(xs[i])};
      }
    }
    assert xs[..|xs|] == xs;
  }

  // ---------------------------------------------------------------------------
  // marked positions

  ghost predicate StrictlyIncreasing(xs: seq<nat>) {
    forall i, j :: 0 <= i < j < |xs| ==> xs[i] < xs[j]
  }

  function Elems(xs: seq<nat>): set<nat> {
    set i | 0 <= i < |xs| :: xs[i]
  }

  /** The positions whose flag is set, ascending: what `list(set(marks))`
      followed by `sort()` yields when `flags[i]` says whether `i` was ever
      marked. */
  function Indices(flags: seq<bool>): (r: seq<nat>)
    ensures StrictlyIncreasing(r)
    ensures forall k :: 0 <= k < |r| ==> r[k] < |flags| && flags[r[k]]
    ensures forall i :: 0 <= i < |flags| && flags[i] ==> i in r
  {
    if |flags| == 0 then []
    else
      var n := |flags| - 1;
      var prior := Indices(flags[..n]);
      assert forall i :: 0 <= i < n ==> flags[..n][i] == flags[i];
      if flags[n] then prior + [n] else prior
  }

  /** The elements of `xs` whose flag is set, in order. */
  function Select<T>(xs: seq<T>, flags: seq<bool>): (r: seq<T>)
    requires |flags| == |xs|
    ensures |r| <= |xs|
  {
    if |xs| == 0 then []
    else
      var n := |xs| - 1;
      Select(xs[..n], flags[..n]) + (if flags[n] then [xs[n]] else [])
  }

  /** The selected elements are those at the set positions, in order. */
  lemma {:induction false} SelectAtIndices<T>(xs: seq<T>, flags: seq<bool>)
    requires |flags| == |xs|
    ensures var pos := Indices(flags);
      |Select(xs, flags)| == |pos| && forall k :: 0 <= k < |pos| ==> Select(xs, flags)[k] == xs[pos[k]]
    decreases |xs|
  {
    if |xs| > 0 {
      var n := |xs| - 1;
      var xs', flags' := xs[..n], flags[..n];
      SelectAtIndices(xs', flags');
      var prior := Select(xs', flags');
      var pos' := Indices(flags');
      if flags[n] {
        var r, pos := prior + [xs[n]], pos' + [n];
        assert Select(xs, flags) == r;
        assert Indices(flags) == pos;
        forall k | 0 <= k < |pos|
          ensures r[k] == xs[pos[k]]
        {
          if k < |pos'| {
            assert pos'[k] < n && prior[k] == xs'[pos'[k]];
          }
        }
      } else {
        assert Select(xs, flags) == prior;
        assert Indices(flags) == pos';
        forall k | 0 <= k < |pos'|
          ensures prior[k] == xs[pos'[k]]
        {
          assert pos'[k] < n && prior[k] == xs'[pos'[k]];
        }
      }
    }
  }

  /** With every flag set, nothing is dropped. */
  lemma {:induction false} SelectAll<T>(xs: seq<T>, flags: seq<bool>)
    requires |flags| == |xs|
    requires forall i :: 0 <= i < |flags| ==> flags[i]
    ensures Select(xs, flags) == xs
    decreases |xs|
  {
    if |xs| > 0 {
      var n := |xs| - 1;
      SelectAll(xs[..n], flags[..n]);
      assert flags[n];
      assert Select(xs, flags) == Select(xs[..n], flags[..n]) + [xs[n]];
      assert xs == xs[..n] + [xs[n]];
    }
  }

  /** The elements of `s` at positions outside `bad`, in their original
      order. */
  function Keep<T>(s: seq<T>, bad: set<nat>): (r: seq<T>)
    ensures |r| <= |s|
  {
    Select(s, Unmarked(|s|, bad))
  }

  /** The flags of the positions below `n` outside `bad`. */
  function Unmarked(n: nat, bad: set<nat>): (r: seq<bool>)
    ensures |r| == n
    ensures forall i :: 0 <= i < n ==> (r[i] <==> i !in bad)
  {
    seq(n, i => i !in bad)
  }

  /** `Keep` looks at the last position after the others. */
  lemma KeepLast<T>(s: seq<T>, bad: set<nat>)
    requires |s| > 0
    ensures Keep(s, bad) == Keep(s[..|s| - 1], bad) + (if |s| - 1 in bad then [] else [s[|s| - 1]])
  {
    assert Unmarked(|s|, bad)[..|s| - 1] == Unmarked(|s| - 1, bad);
  }

  /** With no marked position inside `s`, nothing is dropped. */
  lemma {:induction false} KeepUnmarked<T>(s: seq<T>, bad: set<nat>)
    requires forall i :: 0 <= i < |s| ==> i !in bad
    ensures Keep(s, bad) == s
    decreases |s|
  {
    if |s| > 0 {
      KeepLast(s, bad);
      KeepUnmarked(s[..|s| - 1], bad);
      assert s == s[..|s| - 1] + [s[|s| - 1]];
    }
  }

  /** Every kept element sits at an unmarked position of `s`. */
  lemma {:induction false} KeepFrom<T>(s: seq<T>, bad: set<nat>, k: nat)
    requires k < |Keep(s, bad)|
    ensures exists i :: 0 <= i < |s| && i !in bad && s[i] == Keep(s, bad)[k]
    decreases |s|
  {
    var n := |s| - 1;
    KeepLast(s, bad);
    var prior := Keep(s[..n], bad);
    if k < |prior| {
      KeepFrom(s[..n], bad, k);
      var i :| 0 <= i < n && i !in bad && s[..n][i] == prior[k];
      assert s[i] == Keep(s, bad)[k];
    } else {
      assert n !in bad && Keep(s, bad)[k] == s[n];
    }
  }

  /** Marking one more position `p`, below every other marked position,
      removes exactly the element at `p` of the kept sequence. */
  lemma {:induction false} KeepMarkOne<T>(s: seq<T>, bad: set<nat>, p: nat)
    requires p < |s|
    requires forall b :: b in bad ==> p < b
    ensures |Keep(s, bad)| > p
    ensures Keep(s, bad + {p}) == Keep(s, bad)[..p] + Keep(s, bad)[p + 1..]
    decreases |s|
  {
    var n := |s| - 1;
    KeepLast(s, bad);
    KeepLast(s, bad + {p});
    if n == p {
      KeepUnmarked(s[..n], bad);
      KeepUnmarked(s[..n], bad + {p});
      assert Keep(s, bad) == s[..n] + [s[n]];
    } else {
      KeepMarkOne(s[..n], bad, p);
      var k := Keep(s[..n], bad);
      var tail: seq<T> := if n in bad then [] else [s[n]];
      assert Keep(s, bad) == k + tail;
      assert Keep(s, bad + {p}) == Keep(s[..n], bad + {p}) + tail;
      assert (k + tail)[..p] == k[..p];
      assert (k + tail)[p + 1..] == k[p + 1..] + tail;
    }
  }

  /** In a strictly increasing list every entry is at least as far below the
      last entry as it is positions before it. */
  lemma {:induction false} IncreasingGap(xs: seq<nat>, j: nat)
    requires StrictlyIncreasing(xs)
    requires j < |xs|
    ensures xs[j] + (|xs| - 1 - j) <= xs[|xs| - 1]
    decreases |xs| - j
  {
    if j < |xs| - 1 {
      IncreasingGap(xs, j + 1);
    }
  }

  /** Deleting the marked positions of `s` one by one from the highest, as
      `for index in reversed(bad): del s[index]` does. The first deletion
      raises `IndexError` when the highest mark lies outside `s`; otherwise
      every deletion is in range. */
  method DeleteReversed<T>(s: seq<T>, bad: seq<nat>) returns (r: Result<seq<T>>)
    requires StrictlyIncreasing(bad)
    ensures r.Err? <==> |bad| > 0 && bad[|bad| - 1] >= |s|
    ensures r.Err? ==> r.fault == IndexError
    ensures r.Ok? ==> r.value == Keep(s, Elems(bad)) && |r.value| == |s| - |bad|
  {
    var cur := s;
    var k := |bad|;
    KeepUnmarked(s, {});
    assert Elems(bad[k..]) == {};
    while k > 0
      invariant 0 <= k <= |bad|
      invariant k < |bad| ==> bad[|bad| - 1] < |s|
      invariant cur == Keep(s, Elems(bad[k..]))
      invariant |cur| == |s| - (|bad| - k)
      decreases k
    {
      var index := bad[k - 1];
      if index >= |cur| {
        if k < |bad| {
          IncreasingGap(bad, k - 1);
          assert false;
        }
        return Err(IndexError);
      }
      assert index < |s|;
      assert forall b :: b in Elems(bad[k..]) ==> index < b;
      KeepMarkOne(s, Elems(bad[k..]), index);
      assert Elems(bad[k - 1..]) == Elems(bad[k..]) + {index} by {
        assert bad[k - 1..] == [index] + bad[k..];
      }
      cur := cur[..index] + cur[index + 1..];
      k := k - 1;
    }
    assert bad[0..] == bad;
    return Ok(cur);
  }
}
