/** The pieces of `get_annotation_info`: the validity scan of a component, the
    description of a kept component (its nodes, branch nodes and end nodes), and
    the sort by length. Iteration over a component visits its nodes in an order
    the model leaves open, as a Python set does. */
module Annotation {
  import opened Records
  import opened Graphs

  /** One entry of the result: `{'nid', 'branch_nid', 'end_nid', 'length'}`. */
  datatype Info = Info(nids: seq<int>, branch: seq<int>, ends: seq<int>, length: int)

  function Elems(s: seq<int>): set<int>
  {
    set x | x in s
  }

  ghost predicate Distinct(s: seq<int>)
  {
    forall i, j :: 0 <= i < j < |s| ==> s[i] != s[j]
  }

  // ------------------------------------------------------------ components

  lemma ReachSetClosed(g: Graph, s: int)
    requires WellFormed(g)
    ensures Closed(g, ReachSet(g, s))
  {
    forall v, w | v in ReachSet(g, s) && HasEdge(g, v, w) ensures w in ReachSet(g, s) {
      var p :| PathFromTo(g, p, s, v);
      ExtendPath(g, p, s, v, w);
    }
  }

  /** Every node of a component has that component as its own. */
  lemma ReachSetOfMember(g: Graph, s: int, n: int)
    requires WellFormed(g) && n in ReachSet(g, s)
    ensures n in g.adj && ReachSet(g, n) == ReachSet(g, s)
  {
    assert PathFromTo(g, [n], n, n);
    SameOrDisjoint(g, n, s);
  }

  /** `sub_G.degree(n)` for `sub_G = G.subgraph(c)`: only neighbours inside c count. */
  function SubDegree(g: Graph, c: set<int>, n: int): nat
    requires n in g.adj
  {
    |g.adj[n].Keys * c| + if n in g.adj[n] && n in c then 1 else 0
  }

  /** In a component, the subgraph's degrees are the graph's. */
  lemma ClosedSubDegree(g: Graph, c: set<int>, n: int)
    requires Closed(g, c) && n in c && n in g.adj
    ensures SubDegree(g, c, n) == Degree(g, n)
  {
    assert g.adj[n].Keys * c == g.adj[n].Keys by {
      forall w | w in g.adj[n].Keys ensures w in c {
        assert HasEdge(g, n, w);
      }
    }
  }

  // -------------------------------------------------------------- validity

  /** The node makes its component unfinished: it is unchecked (-1), or it is an end
      (degree 1) that was never reviewed (checked 0). */
  predicate Flags(g: Graph, n: int)
    requires n in g.adj && n in g.node && KChecked in g.node[n]
  {
    (Degree(g, n) == 1 && g.node[n][KChecked] == VInt(0)) || g.node[n][KChecked] == VInt(-1)
  }

  /** Every node of c has a checked value and none flags c. */
  ghost predicate Unflagged(g: Graph, c: set<int>)
  {
    forall n :: n in c ==> n in g.adj && n in g.node && KChecked in g.node[n] && !Flags(g, n)
  }

  /** A component the result reports: at least the threshold in size, and unflagged. */
  ghost predicate Kept(g: Graph, threshold: int, c: set<int>)
  {
    |c| >= threshold && Unflagged(g, c)
  }

  /** The scan of one component with its `valid` flag and `break`. Reading the
      checked value of a node that has none raises (ok false); the scan stops at
      the first flagged node. */
  method CheckComponent(g: Graph, c: set<int>) returns (valid: bool, ok: bool)
    requires WellFormed(g) && c <= g.adj.Keys
    ensures ok ==> (valid <==> Unflagged(g, c))
    ensures !ok ==> exists n :: n in c && KChecked !in g.node[n]
    ensures (forall n :: n in c ==> KChecked in g.node[n]) ==> ok
  {
    valid, ok := true, true;
    var rest := c;
    while rest != {}
      invariant rest <= c
      invariant forall n :: n in c - rest ==> n in g.adj && n in g.node && KChecked in g.node[n] && !Flags(g, n)
      decreases |rest|
    {
      NonEmptyHasElement(rest);
      var n :| n in rest;
      if KChecked !in g.node[n] {
        ok := false;
        return;
      }
      if Flags(g, n) {
        valid := false;
        return;
      }
      rest := rest - {n};
    }
  }

  // ----------------------------------------------------------- description

  /** `list(cc)`: the component's nodes, each once, in the set's own order. */
  method Listed(c: set<int>) returns (s: seq<int>)
    ensures Elems(s) == c && Distinct(s)
  {
    s := [];
    var rest := c;
    while rest != {}
      invariant rest <= c && Elems(s) == c - rest && Distinct(s)
      decreases |rest|
    {
      NonEmptyHasElement(rest);
      var n :| n in rest;
      assert n !in Elems(s);
      assert Elems(s + [n]) == Elems(s) + {n};
      s := s + [n];
      rest := rest - {n};
    }
  }

  /** `[nid for nid in sub_G.nodes if keep(sub_G.degree(nid))]`. */
  method WithDegree(g: Graph, c: set<int>, s: seq<int>, keep: nat -> bool) returns (r: seq<int>)
    requires Elems(s) <= g.adj.Keys && Distinct(s)
    ensures Distinct(r)
    ensures Elems(r) == set n | n in Elems(s) && keep(SubDegree(g, c, n))
  {
    r := [];
    var i := 0;
    while i < |s|
      invariant 0 <= i <= |s| && Distinct(r)
      invariant Elems(r) == set n | n in Elems(s[..i]) && keep(SubDegree(g, c, n))
    {
      assert Elems(s[..i + 1]) == Elems(s[..i]) + {s[i]};
      if keep(SubDegree(g, c, s[i])) {
        assert s[i] !in Elems(r);
        assert Elems(r + [s[i]]) == Elems(r) + {s[i]};
        r := r + [s[i]];
      }
      i := i + 1;
    }
    assert s[..i] == s;
  }

  /** x describes component c: its nodes, its branch nodes (degree above 2) and its
      end nodes (degree 1), each listed once, and the component's length. */
  ghost predicate Describes(g: Graph, c: set<int>, length: set<int> -> int, x: Info)
  {
    && Distinct(x.nids) && Elems(x.nids) == c
    && Distinct(x.branch) && Elems(x.branch) == (set n | n in c && n in g.adj && Degree(g, n) > 2)
    && Distinct(x.ends) && Elems(x.ends) == (set n | n in c && n in g.adj && Degree(g, n) == 1)
    && x.length == length(c)
  }

  /** Every node of c that lies on an edge has a coordinate. For a closed c these
      are the endpoints of the subgraph's edges, whose `coord` the length loop reads. */
  ghost predicate CoordsOnEdges(g: Graph, c: set<int>)
  {
    forall n :: n in c && n in g.adj && g.adj[n] != map[] ==> n in g.node && KCoord in g.node[n]
  }

  lemma MissingCoord(g: Graph, c: set<int>, n: int)
    requires n in c && n in g.adj && g.adj[n] != map[] && !(n in g.node && KCoord in g.node[n])
    ensures !CoordsOnEdges(g, c)
  {
  }

  /** The reads of the length loop over the subgraph's edges: an endpoint without a
      coordinate raises KeyError (ok false). */
  method EdgeEndsHaveCoords(g: Graph, c: set<int>, s: seq<int>) returns (ok: bool)
    requires WellFormed(g) && Elems(s) == c && c <= g.adj.Keys
    ensures ok <==> CoordsOnEdges(g, c)
  {
    var i := 0;
    while i < |s|
      invariant 0 <= i <= |s|
      invariant forall m :: 0 <= m < i ==> g.adj[s[m]] == map[] || KCoord in g.node[s[m]]
    {
      if g.adj[s[i]] != map[] && KCoord !in g.node[s[i]] {
        MissingCoord(g, c, s[i]);
        return false;
      }
      i := i + 1;
    }
    forall n | n in c && n in g.adj && g.adj[n] != map[] ensures n in g.node && KCoord in g.node[n] {
      var m :| 0 <= m < |s| && s[m] == n;
    }
    return true;
  }

  /** The entry built for a kept component. The length, a sum of Euclidean edge
      lengths in the program, is the given measure of the component; computing it
      reads the coordinate of every edge's endpoints and raises (ok false) when one
      has none. */
  method Describe(g: Graph, c: set<int>, length: set<int> -> int) returns (x: Info, ok: bool)
    requires WellFormed(g) && Closed(g, c) && c <= g.adj.Keys
    ensures ok <==> CoordsOnEdges(g, c)
    ensures ok ==> Describes(g, c, length, x)
  {
    var nids := Listed(c);
    ok := EdgeEndsHaveCoords(g, c, nids);
    if !ok {
      return Info([], [], [], 0), false;
    }
    var branch := WithDegree(g, c, nids, d => d > 2);
    var ends := WithDegree(g, c, nids, d => d == 1);
    forall n | n in c ensures SubDegree(g, c, n) == Degree(g, n) {
      ClosedSubDegree(g, c, n);
    }
    x := Info(nids, branch, ends, length(c));
  }

  /** x is the entry of a kept component of g. */
  ghost predicate Reported(g: Graph, threshold: int, length: set<int> -> int, x: Info)
  {
    exists s :: s in g.adj && Elems(x.nids) == ReachSet(g, s) && Kept(g, threshold, ReachSet(g, s)) && Describes(g, ReachSet(g, s), length, x)
  }

  /** After the first i components: kept lists, in order and by their index idx,
      exactly those of comps[..i] that are kept. */
  ghost predicate KeptSoFar(g: Graph, threshold: int, comps: seq<set<int>>, i: int, kept: seq<set<int>>, idx: seq<int>)
    requires 0 <= i <= |comps|
  {
    && |kept| == |idx|
    && (forall k :: 0 <= k < |idx| ==> 0 <= idx[k] < i && kept[k] == comps[idx[k]] && Kept(g, threshold, kept[k]))
    && (forall a, b :: 0 <= a < b < |idx| ==> idx[a] < idx[b])
    && (forall j {:trigger Kept(g, threshold, comps[j])} :: 0 <= j < i && Kept(g, threshold, comps[j]) ==> exists k :: 0 <= k < |idx| && idx[k] == j)
  }

  lemma KeptSoFarStep(g: Graph, threshold: int, comps: seq<set<int>>, i: int, kept: seq<set<int>>, idx: seq<int>, keep: bool)
    requires 0 <= i < |comps| && KeptSoFar(g, threshold, comps, i, kept, idx)
    requires keep <==> Kept(g, threshold, comps[i])
    ensures keep ==> KeptSoFar(g, threshold, comps, i + 1, kept + [comps[i]], idx + [i])
    ensures !keep ==> KeptSoFar(g, threshold, comps, i + 1, kept, idx)
  {
    if keep {
      var kept', idx' := kept + [comps[i]], idx + [i];
      forall k | 0 <= k < |idx'| ensures 0 <= idx'[k] < i + 1 && kept'[k] == comps[idx'[k]] && Kept(g, threshold, kept'[k]) {
        if k < |idx| {
          assert kept'[k] == kept[k] && idx'[k] == idx[k];
        }
      }
      forall j | 0 <= j < i + 1 && Kept(g, threshold, comps[j]) ensures exists k :: 0 <= k < |idx'| && idx'[k] == j {
        if j == i {
          assert idx'[|idx|] == j;
        } else {
          var k :| 0 <= k < |idx| && idx[k] == j;
          assert idx'[k] == j;
        }
      }
    } else {
      forall k | 0 <= k < |idx| ensures 0 <= idx[k] < i + 1 && kept[k] == comps[idx[k]] && Kept(g, threshold, kept[k]) {
      }
      forall j | 0 <= j < i + 1 && Kept(g, threshold, comps[j]) ensures exists k :: 0 <= k < |idx| && idx[k] == j {
        assert j != i;
      }
    }
  }

  /** Each of comps is the connected component of its seed. */
  ghost predicate Seeded(g: Graph, comps: seq<set<int>>, seeds: seq<int>)
  {
    |seeds| == |comps| && forall i :: 0 <= i < |comps| ==> seeds[i] in g.adj && comps[i] == ReachSet(g, seeds[i])
  }

  ghost predicate PairwiseDisjoint(comps: seq<set<int>>)
  {
    forall i, j :: 0 <= i < j < |comps| ==> comps[i] !! comps[j]
  }

  /** The first loop of get_annotation_info: skip components under the threshold,
      scan the others and keep the valid ones. It raises (ok false) only on a node
      without a checked value in a component at least the threshold in size. */
  method SelectKept(g: Graph, threshold: int, comps: seq<set<int>>, ghost seeds: seq<int>)
    returns (kept: seq<set<int>>, ghost idx: seq<int>, ok: bool)
    requires WellFormed(g) && Seeded(g, comps, seeds)
    ensures ok ==> KeptSoFar(g, threshold, comps, |comps|, kept, idx)
    ensures !ok ==> exists n :: n in g.adj && |ReachSet(g, n)| >= threshold && KChecked !in g.node[n]
    ensures (forall n :: n in g.adj ==> KChecked in g.node[n]) ==> ok
  {
    kept, idx := [], [];
    var i := 0;
    while i < |comps|
      invariant 0 <= i <= |comps| && KeptSoFar(g, threshold, comps, i, kept, idx)
    {
      var keep := false;
      if |comps[i]| >= threshold {
        var valid, fine := CheckComponent(g, comps[i]);
        if !fine {
          var n :| n in comps[i] && KChecked !in g.node[n];
          ReachSetOfMember(g, seeds[i], n);
          return kept, idx, false;
        }
        keep := valid;
      }
      KeptSoFarStep(g, threshold, comps, i, kept, idx, keep);
      if keep {
        kept, idx := kept + [comps[i]], idx + [i];
      }
      i := i + 1;
    }
    ok := true;
  }

  /** The second loop: one entry per kept component, in order; it raises (ok
      false) at the first kept component with an edge endpoint lacking `coord`. */
  method DescribeAll(g: Graph, kept: seq<set<int>>, length: set<int> -> int) returns (xs: seq<Info>, ok: bool)
    requires WellFormed(g) && forall k :: 0 <= k < |kept| ==> Closed(g, kept[k]) && kept[k] <= g.adj.Keys
    ensures ok <==> forall k :: 0 <= k < |kept| ==> CoordsOnEdges(g, kept[k])
    ensures ok ==> |xs| == |kept|
    ensures ok ==> forall k :: 0 <= k < |kept| ==> Describes(g, kept[k], length, xs[k])
  {
    xs := [];
    var j := 0;
    while j < |kept|
      invariant 0 <= j <= |kept| && |xs| == j
      invariant forall k :: 0 <= k < j ==> CoordsOnEdges(g, kept[k]) && Describes(g, kept[k], length, xs[k])
    {
      var x, fine := Describe(g, kept[j], length);
      if !fine {
        return xs, false;
      }
      xs := xs + [x];
      j := j + 1;
    }
    ok := true;
  }

  /** A kept component of the graph is one of the kept list. */
  lemma KeptAmongKept(g: Graph, threshold: int, comps: seq<set<int>>, seeds: seq<int>,
                      kept: seq<set<int>>, idx: seq<int>, s: int)
    requires WellFormed(g) && Seeded(g, comps, seeds) && Covers(g, comps) && KeptSoFar(g, threshold, comps, |comps|, kept, idx)
    requires s in g.adj && Kept(g, threshold, ReachSet(g, s))
    ensures exists k :: 0 <= k < |kept| && kept[k] == ReachSet(g, s)
  {
    assert InSome(comps, s);
    var c :| 0 <= c < |comps| && s in comps[c];
    ReachSetOfMember(g, seeds[c], s);
    assert Kept(g, threshold, comps[c]);
    var k :| 0 <= k < |idx| && idx[k] == c;
    assert kept[k] == ReachSet(g, s);
  }

  /** The length loop completes over the kept list exactly when every kept
      component of the graph has its edge endpoints' coordinates. */
  lemma KeptCoords(g: Graph, threshold: int, comps: seq<set<int>>, seeds: seq<int>, kept: seq<set<int>>, idx: seq<int>)
    requires WellFormed(g) && Seeded(g, comps, seeds) && Covers(g, comps) && KeptSoFar(g, threshold, comps, |comps|, kept, idx)
    ensures (forall k :: 0 <= k < |kept| ==> CoordsOnEdges(g, kept[k]))
        <==> (forall s :: s in g.adj && Kept(g, threshold, ReachSet(g, s)) ==> CoordsOnEdges(g, ReachSet(g, s)))
  {
    if forall k :: 0 <= k < |kept| ==> CoordsOnEdges(g, kept[k]) {
      forall s | s in g.adj && Kept(g, threshold, ReachSet(g, s)) ensures CoordsOnEdges(g, ReachSet(g, s)) {
        KeptAmongKept(g, threshold, comps, seeds, kept, idx, s);
      }
    }
    if forall s :: s in g.adj && Kept(g, threshold, ReachSet(g, s)) ==> CoordsOnEdges(g, ReachSet(g, s)) {
      forall k | 0 <= k < |kept| ensures CoordsOnEdges(g, kept[k]) {
        assert kept[k] == ReachSet(g, seeds[idx[k]]);
      }
    }
  }

  /** Every node carries its checked value, and every node on an edge its coordinate. */
  ghost predicate AnnotationComplete(g: Graph)
  {
    forall n :: n in g.adj ==> n in g.node && KChecked in g.node[n] && (g.adj[n] != map[] ==> KCoord in g.node[n])
  }

  /** With every coordinate present, no component misses one. */
  lemma CoordsEverywhere(g: Graph, kept: seq<set<int>>)
    requires AnnotationComplete(g)
    ensures forall k :: 0 <= k < |kept| ==> CoordsOnEdges(g, kept[k])
  {
  }

  /** What get_annotation_info returns when it completes: each entry describes a
      kept component, every kept component has an entry, the entries are disjoint
      and longest first, and every kept component has its edge endpoints'
      coordinates. */
  ghost predicate Annotated(g: Graph, threshold: int, length: set<int> -> int, info: seq<Info>)
  {
    && (forall k :: 0 <= k < |info| ==> Reported(g, threshold, length, info[k]))
    && (forall s :: s in g.adj && Kept(g, threshold, ReachSet(g, s)) ==> exists k :: 0 <= k < |info| && Elems(info[k].nids) == ReachSet(g, s))
    && (forall a, b :: 0 <= a < b < |info| ==> Elems(info[a].nids) !! Elems(info[b].nids))
    && SortedByLength(info)
    && (forall s :: s in g.adj && Kept(g, threshold, ReachSet(g, s)) ==> CoordsOnEdges(g, ReachSet(g, s)))
  }

  /** Why get_annotation_info raises: a node of a component large enough to be
      scanned has no checked value, or a kept component has an edge endpoint
      without a coordinate. */
  ghost predicate AnnotationRaises(g: Graph, threshold: int)
  {
    || (exists n :: n in g.adj && |ReachSet(g, n)| >= threshold && n in g.node && KChecked !in g.node[n])
    || (exists s :: s in g.adj && Kept(g, threshold, ReachSet(g, s)) && !CoordsOnEdges(g, ReachSet(g, s)))
  }

  /** Each entry of a rearrangement of the described kept components reports a kept component. */
  lemma SortedEntriesReported(g: Graph, threshold: int, length: set<int> -> int, comps: seq<set<int>>, seeds: seq<int>,
                              kept: seq<set<int>>, idx: seq<int>, xs: seq<Info>, ys: seq<Info>, perm: seq<int>)
    requires Seeded(g, comps, seeds) && KeptSoFar(g, threshold, comps, |comps|, kept, idx)
    requires |xs| == |kept| && forall k :: 0 <= k < |kept| ==> Describes(g, kept[k], length, xs[k])
    requires Rearranges(ys, xs, perm)
    ensures forall k :: 0 <= k < |ys| ==> Reported(g, threshold, length, ys[k])
  {
    forall k | 0 <= k < |ys| ensures Reported(g, threshold, length, ys[k]) {
      var s := seeds[idx[perm[k]]];
      assert ReachSet(g, s) == kept[perm[k]];
    }
  }

  /** A kept component has an entry in any permutation of the described kept components. */
  lemma KeptComponentListed(g: Graph, threshold: int, length: set<int> -> int, comps: seq<set<int>>, seeds: seq<int>,
                            kept: seq<set<int>>, idx: seq<int>, xs: seq<Info>, ys: seq<Info>, s: int, c: int)
    requires WellFormed(g) && Seeded(g, comps, seeds) && KeptSoFar(g, threshold, comps, |comps|, kept, idx)
    requires |xs| == |kept| && forall k :: 0 <= k < |kept| ==> Describes(g, kept[k], length, xs[k])
    requires multiset(ys) == multiset(xs)
    requires 0 <= c < |comps| && s in comps[c] && Kept(g, threshold, ReachSet(g, s))
    ensures exists m :: 0 <= m < |ys| && Elems(ys[m].nids) == ReachSet(g, s)
  {
    ReachSetOfMember(g, seeds[c], s);
    assert Kept(g, threshold, comps[c]);
    var k :| 0 <= k < |idx| && idx[k] == c;
    assert xs[k] in multiset(ys);
    var m :| 0 <= m < |ys| && ys[m] == xs[k];
    assert Elems(ys[m].nids) == kept[k];
  }

  /** Every kept component has an entry in any permutation of the described kept components. */
  lemma KeptComponentsListed(g: Graph, threshold: int, length: set<int> -> int, comps: seq<set<int>>, seeds: seq<int>,
                             kept: seq<set<int>>, idx: seq<int>, xs: seq<Info>, ys: seq<Info>)
    requires WellFormed(g) && Seeded(g, comps, seeds) && Covers(g, comps) && KeptSoFar(g, threshold, comps, |comps|, kept, idx)
    requires |xs| == |kept| && forall k :: 0 <= k < |kept| ==> Describes(g, kept[k], length, xs[k])
    requires multiset(ys) == multiset(xs)
    ensures forall s :: s in g.adj && Kept(g, threshold, ReachSet(g, s)) ==> exists k :: 0 <= k < |ys| && Elems(ys[k].nids) == ReachSet(g, s)
  {
    forall s | s in g.adj && Kept(g, threshold, ReachSet(g, s)) ensures exists k :: 0 <= k < |ys| && Elems(ys[k].nids) == ReachSet(g, s) {
      assert InSome(comps, s);
      var c :| 0 <= c < |comps| && s in comps[c];
      KeptComponentListed(g, threshold, length, comps, seeds, kept, idx, xs, ys, s, c);
    }
  }

  /** The described kept components are pairwise disjoint. */
  lemma KeptDisjoint(g: Graph, threshold: int, length: set<int> -> int, comps: seq<set<int>>, seeds: seq<int>,
                     kept: seq<set<int>>, idx: seq<int>, xs: seq<Info>)
    requires PairwiseDisjoint(comps) && KeptSoFar(g, threshold, comps, |comps|, kept, idx)
    requires |xs| == |kept| && forall k :: 0 <= k < |kept| ==> Describes(g, kept[k], length, xs[k])
    ensures forall a, b :: 0 <= a < b < |xs| ==> Elems(xs[a].nids) !! Elems(xs[b].nids)
  {
    forall a, b | 0 <= a < b < |xs| ensures Elems(xs[a].nids) !! Elems(xs[b].nids) {
      assert idx[a] < idx[b];
    }
  }

  // ------------------------------------------------------------------ sort

  ghost predicate SortedByLength(xs: seq<Info>)
  {
    forall i, j :: 0 <= i < j < |xs| ==> xs[i].length >= xs[j].length
  }

  /** perm sends each position of ys to a distinct position of xs holding the same entry. */
  ghost predicate Rearranges(ys: seq<Info>, xs: seq<Info>, perm: seq<int>)
  {
    && |perm| == |ys|
    && (forall m :: 0 <= m < |perm| ==> 0 <= perm[m] < |xs| && ys[m] == xs[perm[m]])
    && (forall a, b :: 0 <= a < b < |perm| ==> perm[a] != perm[b])
  }

  /** `info.sort(key=lambda x: x['length'], reverse=True)`, as an insertion sort that
      places each entry after every entry at least as long. */
  method SortByLength(xs: seq<Info>) returns (ys: seq<Info>, ghost perm: seq<int>)
    ensures SortedByLength(ys) && multiset(ys) == multiset(xs)
    ensures Rearranges(ys, xs, perm) && |ys| == |xs|
  {
    ys, perm := [], [];
    var i := 0;
    while i < |xs|
      invariant 0 <= i <= |xs| && SortedPrefix(ys, xs, perm, i)
    {
      var k := InsertionPoint(ys, xs[i].length);
      InsertStep(ys, xs, perm, i, k);
      ys := ys[..k] + [xs[i]] + ys[k..];
      perm := perm[..k] + [i] + perm[k..];
      i := i + 1;
    }
    assert xs[..i] == xs;
  }

  /** The first position whose entry is shorter than `length`, or the end. */
  method InsertionPoint(ys: seq<Info>, length: int) returns (k: int)
    ensures 0 <= k <= |ys|
    ensures forall m :: 0 <= m < k ==> ys[m].length >= length
    ensures k == |ys| || ys[k].length < length
  {
    k := 0;
    while k < |ys| && ys[k].length >= length
      invariant 0 <= k <= |ys|
      invariant forall m :: 0 <= m < k ==> ys[m].length >= length
    {
      k := k + 1;
    }
  }

  /** ys is the first i entries of xs, sorted. */
  ghost predicate SortedPrefix(ys: seq<Info>, xs: seq<Info>, perm: seq<int>, i: int)
    requires 0 <= i <= |xs|
  {
    && SortedByLength(ys) && multiset(ys) == multiset(xs[..i])
    && Rearranges(ys, xs, perm) && |ys| == i
    && (forall m :: 0 <= m < |perm| ==> perm[m] < i)
  }

  lemma InsertStep(ys: seq<Info>, xs: seq<Info>, perm: seq<int>, i: int, k: int)
    requires 0 <= i < |xs| && SortedPrefix(ys, xs, perm, i) && 0 <= k <= |ys|
    requires forall m :: 0 <= m < k ==> ys[m].length >= xs[i].length
    requires k == |ys| || ys[k].length < xs[i].length
    ensures SortedPrefix(ys[..k] + [xs[i]] + ys[k..], xs, perm[..k] + [i] + perm[k..], i + 1)
  {
    InsertSorted(ys, k, xs[i]);
    InsertRearranges(ys, xs, perm, i, k);
    InsertMultiset(ys, xs, i, k);
  }

  lemma InsertMultiset(ys: seq<Info>, xs: seq<Info>, i: int, k: int)
    requires 0 <= i < |xs| && 0 <= k <= |ys| && multiset(ys) == multiset(xs[..i])
    ensures multiset(ys[..k] + [xs[i]] + ys[k..]) == multiset(xs[..i + 1])
  {
    assert xs[..i + 1] == xs[..i] + [xs[i]];
    assert ys == ys[..k] + ys[k..];
  }

  /** Placing x after the entries at least as long keeps the order. */
  lemma InsertSorted(ys: seq<Info>, k: int, x: Info)
    requires SortedByLength(ys) && 0 <= k <= |ys|
    requires forall m :: 0 <= m < k ==> ys[m].length >= x.length
    requires k == |ys| || ys[k].length < x.length
    ensures SortedByLength(ys[..k] + [x] + ys[k..])
  {
  }

  lemma InsertRearranges(ys: seq<Info>, xs: seq<Info>, perm: seq<int>, i: int, k: int)
    requires Rearranges(ys, xs, perm) && 0 <= i < |xs| && 0 <= k <= |ys|
    requires forall m :: 0 <= m < |perm| ==> perm[m] < i
    ensures Rearranges(ys[..k] + [xs[i]] + ys[k..], xs, perm[..k] + [i] + perm[k..])
    ensures forall m :: 0 <= m < |perm| + 1 ==> (perm[..k] + [i] + perm[k..])[m] < i + 1
  {
  }

  /** Pairwise facts about distinct entries of xs hold of distinct entries of a rearrangement. */
  lemma RearrangedDisjoint(ys: seq<Info>, xs: seq<Info>, perm: seq<int>)
    requires Rearranges(ys, xs, perm)
    requires forall a, b :: 0 <= a < b < |xs| ==> Elems(xs[a].nids) !! Elems(xs[b].nids)
    ensures forall a, b :: 0 <= a < b < |ys| ==> Elems(ys[a].nids) !! Elems(ys[b].nids)
  {
    forall a, b | 0 <= a < b < |ys| ensures Elems(ys[a].nids) !! Elems(ys[b].nids) {
      if perm[a] < perm[b] {
      } else {
        assert perm[b] < perm[a];
      }
    }
  }
}
