/** The undirected graph the NeuroDB mirror keeps (a networkx Graph): an
    attribute dictionary per node and, per node, its neighbours with the edge's
    attributes. The operations the mirror uses are functions on this value, with
    networkx's meaning: adding an edge adds missing endpoints bare, removing a
    missing edge is an error, a self-loop counts twice in a degree. */
module Graphs {
  import opened Records

  datatype Value = VInt(i: int) | VStr(s: string) | VNone | VCoord(c: Coord) | VDate(d: Date)

  /** The attribute names NeuroDB gives its nodes. */
  datatype AttrKey = KCoord | KCreator | KType | KChecked | KStatus | KDate

  type Attrs = map<AttrKey, Value>

  datatype Graph = Graph(node: map<int, Attrs>, adj: map<int, map<int, EdgeRow>>)

  function Empty(): Graph
  {
    Graph(map[], map[])
  }

  /** Every node has an adjacency entry and every edge is recorded at both ends with the same data. */
  ghost predicate WellFormed(g: Graph)
  {
    && g.adj.Keys == g.node.Keys
    && (forall u, v :: u in g.adj && v in g.adj[u] ==> v in g.adj && u in g.adj[v] && g.adj[v][u] == g.adj[u][v])
  }

  predicate HasEdge(g: Graph, u: int, v: int)
  {
    u in g.adj && v in g.adj[u]
  }

  /** A node with an empty attribute dictionary, unless it is already present. */
  function AddBare(g: Graph, n: int): Graph
  {
    Graph(if n in g.node then g.node else g.node[n := map[]],
          if n in g.adj then g.adj else g.adj[n := map[]])
  }

  /** `G.add_node(n, **attrs)`: the node's dictionary is updated with attrs. */
  function AddNode(g: Graph, n: int, attrs: Attrs): (r: Graph)
    ensures WellFormed(g) ==> WellFormed(r)
    ensures r.node.Keys == g.node.Keys + {n} && r.adj == AddBare(g, n).adj
    ensures r.node[n] == (if n in g.node then g.node[n] else map[]) + attrs
    ensures forall k :: k in g.node && k != n ==> r.node[k] == g.node[k]
  {
    Graph(g.node[n := (if n in g.node then g.node[n] else map[]) + attrs],
          if n in g.adj then g.adj else g.adj[n := map[]])
  }

  /** `G.add_edge(u, v, **data)`: missing endpoints are added bare and the edge's
      data is set at both ends; the attribute dictionaries already there are kept. */
  function AddEdge(g: Graph, u: int, v: int, d: EdgeRow): (r: Graph)
    ensures r.node.Keys == g.node.Keys + {u, v} && r.adj.Keys == g.adj.Keys + {u, v}
    ensures forall n :: n in r.node ==> r.node[n] == if n in g.node then g.node[n] else map[]
  {
    var g1 := AddBare(AddBare(g, u), v);
    var adj1 := g1.adj[u := g1.adj[u][v := d]];
    Graph(g1.node, adj1[v := adj1[v][u := d]])
  }

  /** Adding an edge adds exactly the pair {u, v}, in both directions, with data d,
      and keeps every other edge with its data. */
  lemma AddEdgeSpec(g: Graph, u: int, v: int, d: EdgeRow)
    requires WellFormed(g)
    ensures var r := AddEdge(g, u, v, d);
      && (forall a, b :: HasEdge(r, a, b) <==> HasEdge(g, a, b) || (a == u && b == v) || (a == v && b == u))
      && r.adj[u][v] == d && r.adj[v][u] == d
      && (forall a, b :: HasEdge(g, a, b) && !((a == u && b == v) || (a == v && b == u)) ==> r.adj[a][b] == g.adj[a][b])
  {
    var r := AddEdge(g, u, v, d);
    forall a, b ensures HasEdge(r, a, b) <==> HasEdge(g, a, b) || (a == u && b == v) || (a == v && b == u) {
      if a == v {
      } else if a == u {
      } else {
      }
    }
    forall a, b | HasEdge(g, a, b) && !((a == u && b == v) || (a == v && b == u)) ensures r.adj[a][b] == g.adj[a][b] {
      if a == v {
      } else if a == u {
      } else {
      }
    }
  }

  lemma AddEdgeWellFormed(g: Graph, u: int, v: int, d: EdgeRow)
    requires WellFormed(g)
    ensures WellFormed(AddEdge(g, u, v, d))
  {
    var r := AddEdge(g, u, v, d);
    AddEdgeSpec(g, u, v, d);
    forall a, b | a in r.adj && b in r.adj[a]
      ensures b in r.adj && a in r.adj[b] && r.adj[b][a] == r.adj[a][b]
    {
      assert HasEdge(r, a, b);
      if (a == u && b == v) || (a == v && b == u) {
      } else {
        assert HasEdge(g, a, b) && HasEdge(g, b, a);
      }
    }
  }

  /** One step of `G.remove_nodes_from`: the node and its edges go; a node that is
      not present is skipped. */
  function RemoveNode(g: Graph, n: int): Graph
  {
    if n !in g.node then g
    else Graph(g.node - {n}, map u | u in g.adj && u != n :: g.adj[u] - {n})
  }

  lemma RemoveNodeSpec(g: Graph, n: int)
    requires WellFormed(g)
    ensures WellFormed(RemoveNode(g, n))
    ensures RemoveNode(g, n).node.Keys == g.node.Keys - {n}
    ensures forall k :: k in RemoveNode(g, n).node ==> RemoveNode(g, n).node[k] == g.node[k]
    ensures forall a, b :: HasEdge(RemoveNode(g, n), a, b) <==> HasEdge(g, a, b) && a != n && b != n
  {
  }

  /** `G.remove_edge(u, v)`: None when there is no such edge (networkx raises). */
  function RemoveEdge(g: Graph, u: int, v: int): Option<Graph>
  {
    if !HasEdge(g, u, v) then None
    else
      var adj1 := g.adj[u := g.adj[u] - {v}];
      Some(Graph(g.node, if u == v || v !in adj1 then adj1 else adj1[v := adj1[v] - {u}]))
  }

  /** Removing an edge drops exactly the pair {u, v} and keeps the data of the rest. */
  lemma RemoveEdgeEdges(g: Graph, u: int, v: int)
    requires WellFormed(g) && HasEdge(g, u, v)
    ensures var r := RemoveEdge(g, u, v).value;
      && r.node == g.node && r.adj.Keys == g.adj.Keys
      && (forall a, b :: HasEdge(r, a, b) <==> HasEdge(g, a, b) && !((a == u && b == v) || (a == v && b == u)))
      && (forall a, b :: HasEdge(r, a, b) ==> r.adj[a][b] == g.adj[a][b])
  {
    var r := RemoveEdge(g, u, v).value;
    forall a, b ensures HasEdge(r, a, b) <==> HasEdge(g, a, b) && !((a == u && b == v) || (a == v && b == u)) {
      if a == v {
      } else if a == u {
      } else {
      }
    }
  }

  lemma RemoveEdgeSpec(g: Graph, u: int, v: int)
    requires WellFormed(g)
    ensures RemoveEdge(g, u, v).Some? <==> HasEdge(g, u, v)
    ensures RemoveEdge(g, u, v).Some? ==>
              var r := RemoveEdge(g, u, v).value;
              && WellFormed(r) && r.node == g.node
              && (forall a, b :: HasEdge(r, a, b) <==> HasEdge(g, a, b) && !((a == u && b == v) || (a == v && b == u)))
  {
    if HasEdge(g, u, v) {
      var r := RemoveEdge(g, u, v).value;
      RemoveEdgeEdges(g, u, v);
      forall a, b | a in r.adj && b in r.adj[a]
        ensures b in r.adj && a in r.adj[b] && r.adj[b][a] == r.adj[a][b]
      {
        assert HasEdge(r, a, b);
        assert HasEdge(r, b, a);
      }
    }
  }

  /** `G.degree(n)`: the number of neighbours, a self-loop counted twice. */
  function Degree(g: Graph, n: int): nat
    requires n in g.adj
  {
    |g.adj[n].Keys| + if n in g.adj[n] then 1 else 0
  }

  // ------------------------------------------------------------ reachability

  /** p walks along edges from p[0] to its last node. */
  ghost predicate IsPath(g: Graph, p: seq<int>)
  {
    |p| >= 1 && p[0] in g.adj && forall i :: 0 <= i < |p| - 1 ==> HasEdge(g, p[i], p[i + 1])
  }

  ghost predicate PathFromTo(g: Graph, p: seq<int>, s: int, t: int)
  {
    IsPath(g, p) && p[0] == s && p[|p| - 1] == t
  }

  ghost predicate Reachable(g: Graph, s: int, t: int)
  {
    exists p :: PathFromTo(g, p, s, t)
  }

  /** The connected component of s: every node reachable from s. */
  ghost function ReachSet(g: Graph, s: int): set<int>
  {
    set v | v in g.adj && Reachable(g, s, v)
  }

  /** Every node of a path is a node of the graph. */
  lemma PathNodes(g: Graph, p: seq<int>)
    requires WellFormed(g) && IsPath(g, p)
    ensures forall i :: 0 <= i < |p| ==> p[i] in g.adj
  {
    forall i | 0 <= i < |p| ensures p[i] in g.adj {
      if i > 0 { assert HasEdge(g, p[i - 1], p[i]); }
    }
  }

  function Reverse(p: seq<int>): (r: seq<int>)
    ensures |r| == |p| && forall i :: 0 <= i < |p| ==> r[i] == p[|p| - 1 - i]
  {
    seq(|p|, i requires 0 <= i < |p| => p[|p| - 1 - i])
  }

  /** Edges go both ways, so a path read backwards is a path. */
  lemma ReachSymmetric(g: Graph, s: int, t: int)
    requires WellFormed(g) && Reachable(g, s, t)
    ensures Reachable(g, t, s)
  {
    var p :| PathFromTo(g, p, s, t);
    PathNodes(g, p);
    var r := Reverse(p);
    forall i | 0 <= i < |r| - 1 ensures HasEdge(g, r[i], r[i + 1]) {
      assert HasEdge(g, p[|p| - 2 - i], p[|p| - 1 - i]);
    }
    assert PathFromTo(g, r, t, s);
  }

  lemma ReachTransitive(g: Graph, a: int, b: int, c: int)
    requires Reachable(g, a, b) && Reachable(g, b, c)
    ensures Reachable(g, a, c)
  {
    var p :| PathFromTo(g, p, a, b);
    var q :| PathFromTo(g, q, b, c);
    var r := p + q[1..];
    forall i | 0 <= i < |r| - 1 ensures HasEdge(g, r[i], r[i + 1]) {
      if i < |p| - 1 {
        assert r[i] == p[i] && r[i + 1] == p[i + 1];
      } else {
        assert r[i] == q[i - |p| + 1] && r[i + 1] == q[i - |p| + 2];
      }
    }
    assert PathFromTo(g, r, a, c);
  }

  /** Two components are the same or disjoint. */
  lemma SameOrDisjoint(g: Graph, a: int, b: int)
    requires WellFormed(g)
    ensures ReachSet(g, a) == ReachSet(g, b) || ReachSet(g, a) !! ReachSet(g, b)
  {
    if !(ReachSet(g, a) !! ReachSet(g, b)) {
      var v :| v in ReachSet(g, a) && v in ReachSet(g, b);
      ReachSymmetric(g, b, v);
      ReachSymmetric(g, a, v);
      forall w | w in ReachSet(g, a) ensures w in ReachSet(g, b) {
        ReachTransitive(g, v, a, w);
        ReachTransitive(g, b, v, w);
      }
      forall w | w in ReachSet(g, b) ensures w in ReachSet(g, a) {
        ReachTransitive(g, v, b, w);
        ReachTransitive(g, a, v, w);
      }
    }
  }

  /** No edge leaves c. */
  ghost predicate Closed(g: Graph, c: set<int>)
  {
    forall v, w :: v in c && HasEdge(g, v, w) ==> w in c
  }

  /** A closed set holding the start of a path holds all of it. */
  lemma {:induction false} ClosedHoldsPath(g: Graph, c: set<int>, p: seq<int>)
    requires Closed(g, c) && IsPath(g, p) && p[0] in c
    ensures p[|p| - 1] in c
    decreases |p|
  {
    if |p| > 1 {
      var q := p[..|p| - 1];
      assert IsPath(g, q) by {
        forall i | 0 <= i < |q| - 1 ensures HasEdge(g, q[i], q[i + 1]) {
          assert q[i] == p[i] && q[i + 1] == p[i + 1];
        }
      }
      ClosedHoldsPath(g, c, q);
      assert HasEdge(g, p[|p| - 2], p[|p| - 1]);
    }
  }

  /** A closed set holding s holds s's whole component. */
  lemma ClosedContainsReach(g: Graph, c: set<int>, s: int)
    requires Closed(g, c) && s in c
    ensures ReachSet(g, s) <= c
  {
    forall v | v in ReachSet(g, s) ensures v in c {
      var p :| PathFromTo(g, p, s, v);
      ClosedHoldsPath(g, c, p);
    }
  }

  lemma {:induction false} SubsetCard(a: set<int>, b: set<int>)
    requires a <= b
    ensures |a| <= |b|
    decreases |a|
  {
    if a != {} {
      NonEmptyHasElement(a);
      var y :| y in a;
      SubsetCard(a - {y}, b - {y});
    }
  }

  lemma CardSubset(a: set<int>, b: set<int>, x: int)
    requires a <= b && x in b && x !in a
    ensures |a| < |b|
  {
    SubsetCard(a, b - {x});
  }

  /** What the search knows part-way: every node found has a path from s, and
      the nodes already expanded have all their neighbours found. */
  ghost predicate Searched(g: Graph, s: int, c: set<int>, work: set<int>, paths: map<int, seq<int>>)
  {
    && work <= c <= g.adj.Keys && s in c
    && paths.Keys == c && (forall v :: v in c ==> PathFromTo(g, paths[v], s, v))
    && (forall v, w :: v in c - work && HasEdge(g, v, w) ==> w in c)
  }

  /** A path to v followed by an edge from v is a path. */
  lemma ExtendPath(g: Graph, p: seq<int>, s: int, v: int, w: int)
    requires PathFromTo(g, p, s, v) && HasEdge(g, v, w)
    ensures PathFromTo(g, p + [w], s, w)
  {
    var q := p + [w];
    forall i | 0 <= i < |q| - 1 ensures HasEdge(g, q[i], q[i + 1]) {
      if i < |q| - 2 { assert q[i] == p[i] && q[i + 1] == p[i + 1]; }
    }
  }

  lemma SearchStep(g: Graph, s: int, c: set<int>, work: set<int>, paths: map<int, seq<int>>, v: int)
      returns (paths': map<int, seq<int>>)
    requires WellFormed(g) && Searched(g, s, c, work, paths) && v in work
    ensures Searched(g, s, c + (g.adj[v].Keys - c), work - {v} + (g.adj[v].Keys - c), paths')
  {
    var found := g.adj[v].Keys - c;
    paths' := paths + map w | w in found :: paths[v] + [w];
    forall w | w in c + found ensures PathFromTo(g, paths'[w], s, w) {
      if w in found {
        ExtendPath(g, paths[v], s, v, w);
      }
    }
  }

  /** Expanding v finds new nodes or shrinks the work list. */
  lemma FoundShrinks(keys: set<int>, c: set<int>, work: set<int>, v: int, found: set<int>)
    requires found <= keys && found !! c && v in work
    ensures |keys - (c + found)| < |keys - c| || (c + found == c && |work - {v} + found| < |work|)
  {
    if found != {} {
      NonEmptyHasElement(found);
      var w :| w in found;
      CardSubset(keys - (c + found), keys - c, w);
    } else {
      assert work - {v} + found == work - {v};
    }
  }

  /** Once nothing is left to expand, the found nodes are exactly the component. */
  lemma SearchDone(g: Graph, s: int, c: set<int>, paths: map<int, seq<int>>)
    requires WellFormed(g) && Searched(g, s, c, {}, paths)
    ensures c == ReachSet(g, s)
  {
    assert Closed(g, c);
    ClosedContainsReach(g, c, s);
    forall w | w in c ensures w in ReachSet(g, s) {
      assert PathFromTo(g, paths[w], s, w);
    }
  }

  /** The breadth-first search networkx runs from s: the nodes reachable from s. */
  method Component(g: Graph, s: int) returns (c: set<int>)
    requires WellFormed(g) && s in g.adj
    ensures c == ReachSet(g, s)
  {
    c := {s};
    var work := {s};
    ghost var paths: map<int, seq<int>> := map[s := [s]];
    assert PathFromTo(g, [s], s, s);
    while work != {}
      invariant Searched(g, s, c, work, paths)
      decreases |g.adj.Keys - c|, |work|
    {
      NonEmptyHasElement(work);
      var v :| v in work;
      var found := g.adj[v].Keys - c;
      paths := SearchStep(g, s, c, work, paths, v);
      FoundShrinks(g.adj.Keys, c, work, v, found);
      c := c + found;
      work := work - {v} + found;
    }
    SearchDone(g, s, c, paths);
  }

  /** What the component loop knows part-way: the components found so far are
      distinct components, disjoint from the nodes not yet covered. */
  ghost predicate Covered(g: Graph, comps: seq<set<int>>, seeds: seq<int>, rest: set<int>)
  {
    && rest <= g.adj.Keys && |seeds| == |comps|
    && (forall i :: 0 <= i < |comps| ==> seeds[i] in g.adj && comps[i] == ReachSet(g, seeds[i]))
    && (forall i, j :: 0 <= i < j < |comps| ==> comps[i] !! comps[j])
    && (forall i :: 0 <= i < |comps| ==> comps[i] !! rest)
    && (forall v {:trigger InSome(comps, v)} :: v in g.adj && v !in rest ==> InSome(comps, v))
  }

  /** A component seeded from an uncovered node lies among the uncovered nodes. */
  lemma NewComponentFresh(g: Graph, comps: seq<set<int>>, seeds: seq<int>, rest: set<int>, s: int)
    requires WellFormed(g) && Covered(g, comps, seeds, rest) && s in rest
    ensures ReachSet(g, s) <= rest
    ensures forall i :: 0 <= i < |comps| ==> comps[i] !! ReachSet(g, s)
  {
    var c := ReachSet(g, s);
    assert PathFromTo(g, [s], s, s);
    forall i | 0 <= i < |comps| ensures comps[i] !! c {
      SameOrDisjoint(g, seeds[i], s);
    }
    forall v | v in g.adj.Keys - rest ensures v !in c {
      assert InSome(comps, v);
      var i :| 0 <= i < |comps| && v in comps[i];
    }
  }

  /** Every node outside the remaining ones is in one of the components so far,
      the new one included. */
  lemma CoverExtends(g: Graph, comps: seq<set<int>>, rest: set<int>, c: set<int>)
    requires forall v {:trigger InSome(comps, v)} :: v in g.adj && v !in rest ==> InSome(comps, v)
    ensures forall v {:trigger InSome(comps + [c], v)} :: v in g.adj && v !in rest - c ==> InSome(comps + [c], v)
  {
    var comps' := comps + [c];
    forall v | v in g.adj && v !in rest - c ensures InSome(comps', v) {
      if v in c {
        assert comps'[|comps|] == c;
      } else {
        assert InSome(comps, v);
        var i :| 0 <= i < |comps| && v in comps[i];
        assert comps'[i] == comps[i];
      }
    }
  }

  lemma CoveredStep(g: Graph, comps: seq<set<int>>, seeds: seq<int>, rest: set<int>, s: int)
    requires WellFormed(g) && Covered(g, comps, seeds, rest) && s in rest
    ensures ReachSet(g, s) <= rest
    ensures Covered(g, comps + [ReachSet(g, s)], seeds + [s], rest - ReachSet(g, s))
  {
    var c := ReachSet(g, s);
    var comps', seeds', rest' := comps + [c], seeds + [s], rest - c;
    NewComponentFresh(g, comps, seeds, rest, s);
    CoverExtends(g, comps, rest, c);
    forall i | 0 <= i < |comps'| ensures seeds'[i] in g.adj && comps'[i] == ReachSet(g, seeds'[i]) && comps'[i] !! rest' {
      if i < |comps| {
        assert comps'[i] == comps[i] && seeds'[i] == seeds[i];
      }
    }
    forall i, j | 0 <= i < j < |comps'| ensures comps'[i] !! comps'[j] {
      assert comps'[i] == comps[i];
      if j < |comps| {
        assert comps'[j] == comps[j];
      }
    }
  }

  /** v lies in one of comps. */
  ghost predicate InSome(comps: seq<set<int>>, v: int)
  {
    exists i :: 0 <= i < |comps| && v in comps[i]
  }

  /** Every node of g lies in one of comps. The quantifier fires only where
      InSome is mentioned, so that it does not feed on every fact `v in g.adj`. */
  ghost predicate Covers(g: Graph, comps: seq<set<int>>)
  {
    forall v {:trigger InSome(comps, v)} :: v in g.adj ==> InSome(comps, v)
  }

  /** `nx.connected_components(G)`: the components, each once, covering every node. */
  method Components(g: Graph) returns (comps: seq<set<int>>, seeds: seq<int>)
    requires WellFormed(g)
    ensures |seeds| == |comps|
    ensures forall i :: 0 <= i < |comps| ==> seeds[i] in g.adj && comps[i] == ReachSet(g, seeds[i])
    ensures forall i, j :: 0 <= i < j < |comps| ==> comps[i] !! comps[j]
    ensures Covers(g, comps)
  {
    comps, seeds := [], [];
    var rest := g.adj.Keys;
    while rest != {}
      invariant Covered(g, comps, seeds, rest)
      decreases |rest|
    {
      NonEmptyHasElement(rest);
      var s :| s in rest;
      var c := Component(g, s);
      CoveredStep(g, comps, seeds, rest, s);
      assert s in c by { assert PathFromTo(g, [s], s, s); }
      comps, seeds := comps + [c], seeds + [s];
      rest := rest - c;
    }
  }
}
