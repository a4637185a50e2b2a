/** The in-memory graph NeuroDB keeps beside its store, and how each of its
    operations moves it. `Mirrors` is the agreement between the graph and the
    tables; the lemmas say which operations keep it and where the graph and the
    store part ways. */
module Mirror {
  import opened Records
  import opened Tables
  import opened Graphs

  function OptStr(o: Option<string>): Value
  {
    if o.Some? then VStr(o.value) else VNone
  }

  function OptInt(o: Option<int>): Value
  {
    if o.Some? then VInt(o.value) else VNone
  }

  const AttrKeys: set<AttrKey> := {KCoord, KCreator, KType, KChecked, KStatus, KDate}

  /** The attribute dictionary init_graph and add_nodes give a node: its row's columns. */
  function RowAttrs(r: NodeRow): (a: Attrs)
    ensures a.Keys == AttrKeys
  {
    map[KCoord := VCoord(r.coord), KCreator := OptStr(r.creator), KType := OptInt(r.kind),
        KChecked := OptInt(r.checked), KStatus := OptInt(r.status), KDate := VDate(r.date)]
  }

  /** A node's dictionary determines its row: the mirror loses nothing of the table. */
  lemma RowAttrsInjective(r1: NodeRow, r2: NodeRow)
    requires RowAttrs(r1) == RowAttrs(r2)
    ensures r1 == r2
  {
    assert RowAttrs(r1)[KCreator] == RowAttrs(r2)[KCreator];
    assert RowAttrs(r1)[KType] == RowAttrs(r2)[KType];
    assert RowAttrs(r1)[KChecked] == RowAttrs(r2)[KChecked];
    assert RowAttrs(r1)[KStatus] == RowAttrs(r2)[KStatus];
    assert RowAttrs(r1)[KCoord] == RowAttrs(r2)[KCoord];
    assert RowAttrs(r1)[KDate] == RowAttrs(r2)[KDate];
  }

  /** The ids an edge row names. */
  function Endpoints(e: EdgeTable): set<int>
  {
    (set p | p in e :: p.0) + (set p | p in e :: p.1)
  }

  /** Each stored node carries its row, any other node of the graph is bare (an
      endpoint added by add_edge), and every stored endpoint is a node. */
  ghost predicate NodesMirror(node: map<int, Attrs>, nodes: NodeTable, edges: EdgeTable)
  {
    && nodes.Keys + Endpoints(edges) <= node.Keys
    && (forall n :: n in node ==> node[n] == if n in nodes then RowAttrs(nodes[n]) else map[])
  }

  /** The graph's edges are exactly the stored pairs. */
  ghost predicate EdgesMirror(adj: map<int, map<int, EdgeRow>>, edges: EdgeTable)
  {
    forall u, v :: u in adj && v in adj[u] <==> Canon(u, v) in edges
  }

  /** The graph agrees with the tables. */
  ghost predicate Mirrors(g: Graph, nodes: NodeTable, edges: EdgeTable)
  {
    WellFormed(g) && NodesMirror(g.node, nodes, edges) && EdgesMirror(g.adj, edges)
  }

  /** Each edge of the graph carries its stored row. */
  ghost predicate EdgeDataMirror(adj: map<int, map<int, EdgeRow>>, edges: EdgeTable)
  {
    forall u, v :: u in adj && v in adj[u] ==> Canon(u, v) in edges && adj[u][v] == edges[Canon(u, v)]
  }

  /** As init_graph leaves it: no node beyond the tables', and every edge carries its row. */
  ghost predicate ExactMirror(g: Graph, nodes: NodeTable, edges: EdgeTable)
  {
    && Mirrors(g, nodes, edges)
    && g.node.Keys == nodes.Keys + Endpoints(edges)
    && EdgeDataMirror(g.adj, edges)
  }

  lemma CanonSame(a: int, b: int, u: int, v: int)
    ensures Canon(a, b) == Canon(u, v) <==> (a == u && b == v) || (a == v && b == u)
  {
  }

  // ----------------------------------------------------------- single steps

  /** Giving one node a row's dictionary tracks storing that row. */
  lemma SetNodeMirrors(node: map<int, Attrs>, nodes: NodeTable, edges: EdgeTable, k: int, r: NodeRow)
    requires NodesMirror(node, nodes, edges)
    ensures NodesMirror(node[k := RowAttrs(r)], nodes[k := r], edges)
  {
  }

  lemma AddBareEdges(adj: map<int, map<int, EdgeRow>>, edges: EdgeTable, k: int)
    requires EdgesMirror(adj, edges)
    ensures EdgesMirror(if k in adj then adj else adj[k := map[]], edges)
    ensures EdgeDataMirror(adj, edges) ==> EdgeDataMirror(if k in adj then adj else adj[k := map[]], edges)
  {
  }

  /** A row's dictionary replaces whatever the node carried. */
  lemma AddRowNode(g: Graph, k: int, r: NodeRow)
    requires WellFormed(g) && forall n :: n in g.node ==> g.node[n].Keys <= AttrKeys
    ensures AddNode(g, k, RowAttrs(r)).node == g.node[k := RowAttrs(r)]
    ensures AddNode(g, k, RowAttrs(r)).adj == if k in g.adj then g.adj else g.adj[k := map[]]
  {
    var a: Attrs := if k in g.node then g.node[k] else map[];
    assert a + RowAttrs(r) == RowAttrs(r);
  }

  lemma NodesMirrorKeys(node: map<int, Attrs>, nodes: NodeTable, edges: EdgeTable)
    requires NodesMirror(node, nodes, edges)
    ensures forall n :: n in node ==> node[n].Keys <= AttrKeys
  {
  }

  lemma AddNodeMirrors(g: Graph, nodes: NodeTable, edges: EdgeTable, k: int, r: NodeRow)
    requires Mirrors(g, nodes, edges)
    ensures Mirrors(AddNode(g, k, RowAttrs(r)), nodes[k := r], edges)
    ensures ExactMirror(g, nodes, edges) ==> ExactMirror(AddNode(g, k, RowAttrs(r)), nodes[k := r], edges)
  {
    NodesMirrorKeys(g.node, nodes, edges);
    AddRowNode(g, k, r);
    SetNodeMirrors(g.node, nodes, edges, k, r);
    AddBareEdges(g.adj, edges, k);
  }

  lemma AddEdgeNodes(g: Graph, nodes: NodeTable, edges: EdgeTable, edges': EdgeTable, u: int, v: int, d: EdgeRow)
    requires NodesMirror(g.node, nodes, edges) && edges'.Keys == edges.Keys + {Canon(u, v)}
    ensures NodesMirror(AddEdge(g, u, v, d).node, nodes, edges')
  {
    assert Endpoints(edges') <= Endpoints(edges) + {u, v};
  }

  lemma AddEdgeEdges(g: Graph, edges: EdgeTable, edges': EdgeTable, u: int, v: int, d: EdgeRow)
    requires WellFormed(g) && EdgesMirror(g.adj, edges) && edges'.Keys == edges.Keys + {Canon(u, v)}
    ensures EdgesMirror(AddEdge(g, u, v, d).adj, edges')
  {
    var g' := AddEdge(g, u, v, d);
    AddEdgeSpec(g, u, v, d);
    forall a, b ensures a in g'.adj && b in g'.adj[a] <==> Canon(a, b) in edges' {
      assert HasEdge(g', a, b) == (a in g'.adj && b in g'.adj[a]);
      assert HasEdge(g, a, b) == (a in g.adj && b in g.adj[a]);
      CanonSame(a, b, u, v);
    }
  }

  lemma AddEdgeMirrors(g: Graph, nodes: NodeTable, edges: EdgeTable, edges': EdgeTable, u: int, v: int, d: EdgeRow)
    requires Mirrors(g, nodes, edges) && edges'.Keys == edges.Keys + {Canon(u, v)}
    ensures Mirrors(AddEdge(g, u, v, d), nodes, edges')
  {
    AddEdgeWellFormed(g, u, v, d);
    AddEdgeNodes(g, nodes, edges, edges', u, v, d);
    AddEdgeEdges(g, edges, edges', u, v, d);
  }

  lemma AddEdgeData(g: Graph, edges: EdgeTable, u: int, v: int, d: EdgeRow)
    requires WellFormed(g) && EdgeDataMirror(g.adj, edges) && u <= v
    ensures EdgeDataMirror(AddEdge(g, u, v, d).adj, edges[(u, v) := d])
  {
    var g' := AddEdge(g, u, v, d);
    var edges' := edges[(u, v) := d];
    AddEdgeSpec(g, u, v, d);
    forall a, b | a in g'.adj && b in g'.adj[a] ensures Canon(a, b) in edges' && g'.adj[a][b] == edges'[Canon(a, b)] {
      assert HasEdge(g', a, b);
      CanonSame(a, b, u, v);
      if !((a == u && b == v) || (a == v && b == u)) {
        assert HasEdge(g, a, b);
      }
    }
  }

  lemma EndpointsAdd(edges: EdgeTable, u: int, v: int, d: EdgeRow)
    ensures Endpoints(edges[(u, v) := d]) == Endpoints(edges) + {u, v}
  {
  }

  lemma AddEdgeExact(g: Graph, nodes: NodeTable, edges: EdgeTable, u: int, v: int, d: EdgeRow)
    requires ExactMirror(g, nodes, edges) && u <= v
    ensures ExactMirror(AddEdge(g, u, v, d), nodes, edges[(u, v) := d])
  {
    var edges' := edges[(u, v) := d];
    assert Canon(u, v) == (u, v);
    AddEdgeMirrors(g, nodes, edges, edges', u, v, d);
    AddEdgeData(g, edges, u, v, d);
    EndpointsAdd(edges, u, v, d);
    assert AddEdge(g, u, v, d).node.Keys == g.node.Keys + {u, v};
  }

  lemma RemoveNodeMirrors(g: Graph, nodes: NodeTable, edges: EdgeTable, n: int)
    requires Mirrors(g, nodes, edges)
    ensures Mirrors(RemoveNode(g, n), DropNodes(nodes, [n]), DropIncident(edges, [n]))
  {
    RemoveNodeSpec(g, n);
    var g' := RemoveNode(g, n);
    var e' := DropIncident(edges, [n]);
    assert Endpoints(e') <= Endpoints(edges) - {n};
    forall a, b ensures a in g'.adj && b in g'.adj[a] <==> Canon(a, b) in e' {
      assert HasEdge(g', a, b) == (a in g'.adj && b in g'.adj[a]);
      assert HasEdge(g, a, b) == (a in g.adj && b in g.adj[a]);
    }
  }

  lemma RemoveEdgeMirrors(g: Graph, nodes: NodeTable, edges: EdgeTable, u: int, v: int)
    requires Mirrors(g, nodes, edges) && HasEdge(g, u, v)
    ensures RemoveEdge(g, u, v).Some?
    ensures Mirrors(RemoveEdge(g, u, v).value, nodes, edges - {Canon(u, v)})
  {
    RemoveEdgeSpec(g, u, v);
    var g' := RemoveEdge(g, u, v).value;
    forall a, b ensures a in g'.adj && b in g'.adj[a] <==> Canon(a, b) in edges - {Canon(u, v)} {
      assert HasEdge(g', a, b) == (a in g'.adj && b in g'.adj[a]);
      assert HasEdge(g, a, b) == (a in g.adj && b in g.adj[a]);
      CanonSame(a, b, u, v);
    }
    assert Endpoints(edges - {Canon(u, v)}) <= Endpoints(edges);
  }

  // --------------------------------------------------------------- add_nodes

  /** The graph side of add_nodes: `G.add_node` for each entry with its row's values. */
  function MirrorAddNodes(g: Graph, b: seq<NodeIn>, now: Date): Graph
    decreases |b|
  {
    if b == [] then g
    else MirrorAddNodes(AddNode(g, b[0].nid, RowAttrs(NodeEntry(b[0], now))), b[1..], now)
  }

  /** Both sides use the same dated entries, so a successful add_nodes keeps the
      graph in agreement with the tables. */
  lemma {:induction false} AddNodesKeepMirror(g: Graph, nodes: NodeTable, edges: EdgeTable, b: seq<NodeIn>, now: Date)
    requires Mirrors(g, nodes, edges) && InsertNodes(nodes, b, now).Some?
    ensures Mirrors(MirrorAddNodes(g, b, now), InsertNodes(nodes, b, now).value, edges)
    decreases |b|
  {
    if b != [] {
      var e := NodeEntry(b[0], now);
      AddNodeMirrors(g, nodes, edges, b[0].nid, e);
      AddNodesKeepMirror(AddNode(g, b[0].nid, RowAttrs(e)), nodes[b[0].nid := e], edges, b[1..], now);
    }
  }

  // --------------------------------------------------------------- add_edges

  /** The graph side of add_edges: `G.add_edge` for each entry with its creator and date. */
  function MirrorAddEdges(g: Graph, b: seq<EdgeIn>, now: Date): Graph
    decreases |b|
  {
    if b == [] then g
    else MirrorAddEdges(AddEdge(g, b[0].src, b[0].dst, EdgeEntry(b[0], now)), b[1..], now)
  }

  /** add_edges keeps the graph's edges equal to the stored pairs. */
  lemma {:induction false} AddEdgesKeepMirror(g: Graph, nodes: NodeTable, edges: EdgeTable, b: seq<EdgeIn>, now: Date)
    requires Mirrors(g, nodes, edges)
    ensures Mirrors(MirrorAddEdges(g, b, now), nodes, InsertOrIgnore(edges, b, now))
    decreases |b|
  {
    if b != [] {
      var k := EdgeKey(b[0]);
      var e1 := if k in edges then edges else edges[k := EdgeEntry(b[0], now)];
      AddEdgeMirrors(g, nodes, edges, e1, b[0].src, b[0].dst, EdgeEntry(b[0], now));
      AddEdgesKeepMirror(AddEdge(g, b[0].src, b[0].dst, EdgeEntry(b[0], now)), nodes, e1, b[1..], now);
    }
  }

  /** Adding an edge that is already stored, under another creator: INSERT OR IGNORE
      keeps the stored row while `add_edge` overwrites the graph's data. */
  lemma ReaddedEdgeDiverges(g: Graph, nodes: NodeTable, edges: EdgeTable, e: EdgeIn, now: Date)
    requires ExactMirror(g, nodes, edges) && EdgeKey(e) in edges && edges[EdgeKey(e)].creator != e.creator
    ensures InsertOrIgnore(edges, [e], now) == edges
    ensures HasEdge(MirrorAddEdges(g, [e], now), e.src, e.dst)
    ensures MirrorAddEdges(g, [e], now).adj[e.src][e.dst].creator == e.creator != edges[EdgeKey(e)].creator
  {
    AddEdgeSpec(g, e.src, e.dst, EdgeEntry(e, now));
    assert MirrorAddEdges(g, [e], now) == AddEdge(g, e.src, e.dst, EdgeEntry(e, now));
    assert InsertOrIgnore(edges, [e], now) == InsertOrIgnore(edges, [], now);
  }

  // ------------------------------------------------------------ delete_nodes

  /** `G.remove_nodes_from(nids)`. */
  function MirrorRemoveNodes(g: Graph, nids: seq<int>): Graph
    decreases |nids|
  {
    if nids == [] then g else MirrorRemoveNodes(RemoveNode(g, nids[0]), nids[1..])
  }

  /** delete_nodes removes the same nodes and incident edges on both sides. */
  lemma {:induction false} RemoveNodesKeepMirror(g: Graph, nodes: NodeTable, edges: EdgeTable, nids: seq<int>)
    requires Mirrors(g, nodes, edges)
    ensures Mirrors(MirrorRemoveNodes(g, nids), DropNodes(nodes, nids), DropIncident(edges, nids))
    decreases |nids|
  {
    if nids == [] {
      assert DropNodes(nodes, nids) == nodes;
      assert DropIncident(edges, nids) == edges;
    } else {
      var n1 := DropNodes(nodes, [nids[0]]);
      var e1 := DropIncident(edges, [nids[0]]);
      RemoveNodeMirrors(g, nodes, edges, nids[0]);
      RemoveNodesKeepMirror(RemoveNode(g, nids[0]), n1, e1, nids[1..]);
      DropNodesCons(nodes, nids);
      DropIncidentCons(edges, nids);
    }
  }

  // ------------------------------------------------------------ delete_edges

  /** The graph after a loop of graph calls, and whether the loop ran to its end
      (false: a call raised part-way and the graph keeps the earlier calls' effect). */
  datatype Run = Run(g: Graph, ok: bool)

  /** `for src, dst in edges: G.remove_edge(src, dst)`. */
  function MirrorRemoveEdges(g: Graph, pairs: seq<(int, int)>): Run
    decreases |pairs|
  {
    if pairs == [] then Run(g, true)
    else match RemoveEdge(g, pairs[0].0, pairs[0].1)
      case None => Run(g, false)
      case Some(g1) => MirrorRemoveEdges(g1, pairs[1..])
  }

  /** Every pair names a stored edge, and no two pairs name the same one. */
  ghost predicate PresentOnce(edges: EdgeTable, pairs: seq<(int, int)>)
  {
    && (forall i :: 0 <= i < |pairs| ==> Canon(pairs[i].0, pairs[i].1) in edges)
    && (forall i, j :: 0 <= i < j < |pairs| ==> Canon(pairs[i].0, pairs[i].1) != Canon(pairs[j].0, pairs[j].1))
  }

  lemma PresentOnceStep(edges: EdgeTable, pairs: seq<(int, int)>)
    requires pairs != []
    ensures PresentOnce(edges, pairs) <==>
              Canon(pairs[0].0, pairs[0].1) in edges &&
              PresentOnce(edges - {Canon(pairs[0].0, pairs[0].1)}, pairs[1..])
  {
    var c0 := Canon(pairs[0].0, pairs[0].1);
    var rest := pairs[1..];
    if PresentOnce(edges, pairs) {
      forall i | 0 <= i < |rest| ensures Canon(rest[i].0, rest[i].1) in edges - {c0} {
        assert rest[i] == pairs[i + 1];
      }
      forall i, j | 0 <= i < j < |rest| ensures Canon(rest[i].0, rest[i].1) != Canon(rest[j].0, rest[j].1) {
        assert rest[i] == pairs[i + 1] && rest[j] == pairs[j + 1];
      }
    }
    if c0 in edges && PresentOnce(edges - {c0}, rest) {
      forall i | 0 <= i < |pairs| ensures Canon(pairs[i].0, pairs[i].1) in edges {
        if i > 0 { assert pairs[i] == rest[i - 1]; }
      }
      forall i, j | 0 <= i < j < |pairs| ensures Canon(pairs[i].0, pairs[i].1) != Canon(pairs[j].0, pairs[j].1) {
        assert pairs[j] == rest[j - 1];
        if i > 0 { assert pairs[i] == rest[i - 1]; }
      }
    }
  }

  /** The store deletes whatever pairs it is given, but the graph raises on a pair
      it does not hold: the loop runs to its end exactly when every pair names a
      stored edge once, and then both sides have lost the same edges. */
  lemma {:induction false} RemoveEdgesMirror(g: Graph, nodes: NodeTable, edges: EdgeTable, pairs: seq<(int, int)>)
    requires Mirrors(g, nodes, edges)
    ensures MirrorRemoveEdges(g, pairs).ok <==> PresentOnce(edges, pairs)
    ensures MirrorRemoveEdges(g, pairs).ok ==> Mirrors(MirrorRemoveEdges(g, pairs).g, nodes, DropPairs(edges, pairs))
    decreases |pairs|
  {
    if pairs == [] {
      assert PairKeys(pairs) == {};
    } else {
      var u, v := pairs[0].0, pairs[0].1;
      var c0 := Canon(u, v);
      PresentOnceStep(edges, pairs);
      RemoveEdgeSpec(g, u, v);
      if HasEdge(g, u, v) {
        var g1 := RemoveEdge(g, u, v).value;
        assert MirrorRemoveEdges(g, pairs) == MirrorRemoveEdges(g1, pairs[1..]);
        RemoveEdgeMirrors(g, nodes, edges, u, v);
        RemoveEdgesMirror(g1, nodes, edges - {c0}, pairs[1..]);
        PairKeysCons(pairs);
        assert DropPairs(edges - {c0}, pairs[1..]) == DropPairs(edges, pairs);
      } else {
        assert c0 !in edges;
      }
    }
  }

  // ------------------------------------------------------------ update_nodes

  /** Which supplied values `_update_nodes_in_graph` acts on: as written, the
      truthy ones (`if value and ...`); as intended, every value that is not None. */
  datatype ValueTest = IfTruthy | IfNotNone

  predicate Truthy(v: Value)
  {
    match v
    case VInt(i) => i != 0
    case VStr(s) => s != ""
    case VNone => false
    case VCoord(_) => true
    case VDate(_) => true
  }

  predicate Passes(test: ValueTest, v: Value)
  {
    if test.IfTruthy? then Truthy(v) else v != VNone
  }

  /** `_update_nodes_in_graph(key, value, date)` on node nid: a passing value that
      differs from the node's is set, with the date; reading the node's key raises
      when the node or the key is missing. */
  function SetIfChanged(g: Graph, nid: int, key: AttrKey, v: Value, date: Date, test: ValueTest): Run
  {
    if !Passes(test, v) then Run(g, true)
    else if nid !in g.node || key !in g.node[nid] then Run(g, false)
    else if v == g.node[nid][key] then Run(g, true)
    else Run(g.(node := g.node[nid := g.node[nid][key := v][KDate := VDate(date)]]), true)
  }

  /** The next call, unless an earlier one raised. */
  function Then(r: Run, nid: int, key: AttrKey, v: Value, date: Date, test: ValueTest): Run
  {
    if !r.ok then r else SetIfChanged(r.g, nid, key, v, date, test)
  }

  /** The four calls update_nodes makes for one nid. */
  function UpdateOne(g: Graph, nid: int, f: Fields, date: Date, test: ValueTest): Run
  {
    var r1 := SetIfChanged(g, nid, KCreator, OptStr(f.creator), date, test);
    var r2 := Then(r1, nid, KType, OptInt(f.kind), date, test);
    var r3 := Then(r2, nid, KChecked, OptInt(f.checked), date, test);
    Then(r3, nid, KStatus, OptInt(f.status), date, test)
  }

  /** The graph side of update_nodes: UpdateOne for each nid, stopping at the first that raises. */
  function MirrorUpdate(g: Graph, nids: seq<int>, f: Fields, date: Date, test: ValueTest): Run
    decreases |nids|
  {
    if nids == [] then Run(g, true)
    else
      var r := UpdateOne(g, nids[0], f, date, test);
      if !r.ok then r else MirrorUpdate(r.g, nids[1..], f, date, test)
  }

  /** update_nodes only rewrites attributes: the graph keeps its nodes and edges. */
  lemma ThenFrame(r: Run, nid: int, key: AttrKey, v: Value, date: Date, test: ValueTest)
    ensures Then(r, nid, key, v, date, test).g.node.Keys == r.g.node.Keys
    ensures Then(r, nid, key, v, date, test).g.adj == r.g.adj
  {
  }

  lemma UpdateOneFrame(g: Graph, nid: int, f: Fields, date: Date, test: ValueTest)
    ensures UpdateOne(g, nid, f, date, test).g.node.Keys == g.node.Keys
    ensures UpdateOne(g, nid, f, date, test).g.adj == g.adj
  {
    var r1 := SetIfChanged(g, nid, KCreator, OptStr(f.creator), date, test);
    ThenFrame(Run(g, true), nid, KCreator, OptStr(f.creator), date, test);
    var r2 := Then(r1, nid, KType, OptInt(f.kind), date, test);
    ThenFrame(r1, nid, KType, OptInt(f.kind), date, test);
    var r3 := Then(r2, nid, KChecked, OptInt(f.checked), date, test);
    ThenFrame(r2, nid, KChecked, OptInt(f.checked), date, test);
    ThenFrame(r3, nid, KStatus, OptInt(f.status), date, test);
  }

  lemma {:induction false} MirrorUpdateFrame(g: Graph, nids: seq<int>, f: Fields, date: Date, test: ValueTest)
    ensures MirrorUpdate(g, nids, f, date, test).g.node.Keys == g.node.Keys
    ensures MirrorUpdate(g, nids, f, date, test).g.adj == g.adj
    decreases |nids|
  {
    if nids != [] {
      UpdateOneFrame(g, nids[0], f, date, test);
      MirrorUpdateFrame(UpdateOne(g, nids[0], f, date, test).g, nids[1..], f, date, test);
    }
  }

  /** The row the store holds after update_nodes visits nid. */
  function EmbeddedStep(r: NodeRow, f: Fields, date: Date): NodeRow
  {
    if EmbeddedWhere(r, f) then Assign(r, f, date) else r
  }

  /** Setting one attribute and the date of a node's dictionary is the dictionary
      of the row with that column and the date set. */
  lemma SetCreatorAttrs(r: NodeRow, c: Option<string>, date: Date)
    ensures RowAttrs(r.(creator := c, date := date)) == RowAttrs(r)[KCreator := OptStr(c)][KDate := VDate(date)]
  {
  }

  lemma SetKindAttrs(r: NodeRow, k: Option<int>, date: Date)
    ensures RowAttrs(r.(kind := k, date := date)) == RowAttrs(r)[KType := OptInt(k)][KDate := VDate(date)]
  {
  }

  lemma SetCheckedAttrs(r: NodeRow, c: Option<int>, date: Date)
    ensures RowAttrs(r.(checked := c, date := date)) == RowAttrs(r)[KChecked := OptInt(c)][KDate := VDate(date)]
  {
  }

  lemma SetStatusAttrs(r: NodeRow, st: Option<int>, date: Date)
    ensures RowAttrs(r.(status := st, date := date)) == RowAttrs(r)[KStatus := OptInt(st)][KDate := VDate(date)]
  {
  }

  /** One `_update_nodes_in_graph` call, as intended, on a node that carries row r:
      the node then carries r', which is r with the column and the date set when the
      value is supplied and the column is NULL or differs, and r otherwise. */
  lemma SetIfChangedOnRow(g: Graph, nid: int, r: NodeRow, r': NodeRow, key: AttrKey, v: Value, date: Date)
    requires nid in g.node && g.node[nid] == RowAttrs(r) && key != KDate
    requires v == VNone || v == RowAttrs(r)[key] ==> r' == r
    requires v != VNone && v != RowAttrs(r)[key] ==> RowAttrs(r') == RowAttrs(r)[key := v][KDate := VDate(date)]
    ensures SetIfChanged(g, nid, key, v, date, IfNotNone) == Run(g.(node := g.node[nid := RowAttrs(r')]), true)
  {
    if v == VNone || v == RowAttrs(r)[key] {
      assert g.node[nid := RowAttrs(r')] == g.node;
    }
  }

  // The store's change-only update, one column at a time, as the graph takes it.

  function CreatorStep(r: NodeRow, f: Fields, date: Date): NodeRow
  {
    if NullOrDiffers(r.creator, f.creator) then r.(creator := f.creator, date := date) else r
  }

  function KindStep(r: NodeRow, f: Fields, date: Date): NodeRow
  {
    if NullOrDiffers(r.kind, f.kind) then r.(kind := f.kind, date := date) else r
  }

  function CheckedStep(r: NodeRow, f: Fields, date: Date): NodeRow
  {
    if NullOrDiffers(r.checked, f.checked) then r.(checked := f.checked, date := date) else r
  }

  function StatusStep(r: NodeRow, f: Fields, date: Date): NodeRow
  {
    if NullOrDiffers(r.status, f.status) then r.(status := f.status, date := date) else r
  }

  /** Column by column, the steps reach the store's row. */
  lemma EmbeddedStepByColumn(r: NodeRow, f: Fields, date: Date)
    ensures StatusStep(CheckedStep(KindStep(CreatorStep(r, f, date), f, date), f, date), f, date) == EmbeddedStep(r, f, date)
  {
  }

  lemma CreatorOnRow(g: Graph, nid: int, r: NodeRow, f: Fields, date: Date)
    requires nid in g.node && g.node[nid] == RowAttrs(r)
    ensures SetIfChanged(g, nid, KCreator, OptStr(f.creator), date, IfNotNone) ==
              Run(g.(node := g.node[nid := RowAttrs(CreatorStep(r, f, date))]), true)
  {
    SetCreatorAttrs(r, f.creator, date);
    SetIfChangedOnRow(g, nid, r, CreatorStep(r, f, date), KCreator, OptStr(f.creator), date);
  }

  lemma KindOnRow(g: Graph, nid: int, r: NodeRow, f: Fields, date: Date)
    requires nid in g.node && g.node[nid] == RowAttrs(r)
    ensures SetIfChanged(g, nid, KType, OptInt(f.kind), date, IfNotNone) ==
              Run(g.(node := g.node[nid := RowAttrs(KindStep(r, f, date))]), true)
  {
    SetKindAttrs(r, f.kind, date);
    SetIfChangedOnRow(g, nid, r, KindStep(r, f, date), KType, OptInt(f.kind), date);
  }

  lemma CheckedOnRow(g: Graph, nid: int, r: NodeRow, f: Fields, date: Date)
    requires nid in g.node && g.node[nid] == RowAttrs(r)
    ensures SetIfChanged(g, nid, KChecked, OptInt(f.checked), date, IfNotNone) ==
              Run(g.(node := g.node[nid := RowAttrs(CheckedStep(r, f, date))]), true)
  {
    SetCheckedAttrs(r, f.checked, date);
    SetIfChangedOnRow(g, nid, r, CheckedStep(r, f, date), KChecked, OptInt(f.checked), date);
  }

  lemma StatusOnRow(g: Graph, nid: int, r: NodeRow, f: Fields, date: Date)
    requires nid in g.node && g.node[nid] == RowAttrs(r)
    ensures SetIfChanged(g, nid, KStatus, OptInt(f.status), date, IfNotNone) ==
              Run(g.(node := g.node[nid := RowAttrs(StatusStep(r, f, date))]), true)
  {
    SetStatusAttrs(r, f.status, date);
    SetIfChangedOnRow(g, nid, r, StatusStep(r, f, date), KStatus, OptInt(f.status), date);
  }

  lemma CreatorKindOnRow(g: Graph, nid: int, r: NodeRow, f: Fields, date: Date)
    requires nid in g.node && g.node[nid] == RowAttrs(r)
    ensures Then(SetIfChanged(g, nid, KCreator, OptStr(f.creator), date, IfNotNone), nid, KType, OptInt(f.kind), date, IfNotNone) ==
              Run(g.(node := g.node[nid := RowAttrs(KindStep(CreatorStep(r, f, date), f, date))]), true)
  {
    var r1 := CreatorStep(r, f, date);
    var g1 := g.(node := g.node[nid := RowAttrs(r1)]);
    CreatorOnRow(g, nid, r, f, date);
    KindOnRow(g1, nid, r1, f, date);
  }

  lemma CheckedStatusOnRow(g: Graph, nid: int, r: NodeRow, f: Fields, date: Date)
    requires nid in g.node && g.node[nid] == RowAttrs(r)
    ensures Then(Then(Run(g, true), nid, KChecked, OptInt(f.checked), date, IfNotNone), nid, KStatus, OptInt(f.status), date, IfNotNone) ==
              Run(g.(node := g.node[nid := RowAttrs(StatusStep(CheckedStep(r, f, date), f, date))]), true)
  {
    var r1 := CheckedStep(r, f, date);
    var g1 := g.(node := g.node[nid := RowAttrs(r1)]);
    CheckedOnRow(g, nid, r, f, date);
    StatusOnRow(g1, nid, r1, f, date);
  }

  /** On a node that carries its row, the intended update moves the node exactly as
      the store moves the row. */
  lemma UpdateOneOnRow(g: Graph, nid: int, r: NodeRow, f: Fields, date: Date)
    requires nid in g.node && g.node[nid] == RowAttrs(r)
    ensures UpdateOne(g, nid, f, date, IfNotNone) ==
              Run(g.(node := g.node[nid := RowAttrs(EmbeddedStep(r, f, date))]), true)
  {
    var r2 := KindStep(CreatorStep(r, f, date), f, date);
    var g2 := g.(node := g.node[nid := RowAttrs(r2)]);
    var r4 := StatusStep(CheckedStep(r2, f, date), f, date);
    CreatorKindOnRow(g, nid, r, f, date);
    CheckedStatusOnRow(g2, nid, r2, f, date);
    EmbeddedStepByColumn(r, f, date);
    assert g2.(node := g2.node[nid := RowAttrs(r4)]) == g.(node := g.node[nid := RowAttrs(r4)]);
  }

  /** On a node without its row (absent, or bare), the intended update raises as soon
      as some field is supplied, having changed nothing. */
  lemma UpdateOneOffRow(g: Graph, nid: int, f: Fields, date: Date)
    requires nid !in g.node || g.node[nid] == map[]
    requires !NoneSupplied(f)
    ensures UpdateOne(g, nid, f, date, IfNotNone) == Run(g, false)
  {
  }

  lemma UpdateOneNoneSupplied(g: Graph, nid: int, f: Fields, date: Date, test: ValueTest)
    requires NoneSupplied(f)
    ensures UpdateOne(g, nid, f, date, test) == Run(g, true)
  {
  }

  /** Visiting the first listed nid and then the rest is the store's update. */
  lemma EmbeddedUpdateStep(t: NodeTable, nids: seq<int>, f: Fields, date: Date)
    requires nids != [] && !NoneSupplied(f)
    ensures EmbeddedUpdate(t, nids, f, date) ==
              EmbeddedUpdate(EmbeddedUpdate(t, [nids[0]], f, date), nids[1..], f, date)
  {
    var t1 := EmbeddedUpdate(t, [nids[0]], f, date);
    assert forall k :: k in nids <==> k == nids[0] || k in nids[1..];
    forall k | k in t ensures !EmbeddedWhere(Assign(t[k], f, date), f) {
    }
  }

  /** Giving one stored node its row's new dictionary keeps the agreement. */
  lemma SetRowMirrors(g: Graph, nodes: NodeTable, edges: EdgeTable, n: int, r: NodeRow)
    requires Mirrors(g, nodes, edges) && n in nodes
    ensures Mirrors(g.(node := g.node[n := RowAttrs(r)]), nodes[n := r], edges)
  {
    SetNodeMirrors(g.node, nodes, edges, n, r);
  }

  /** One nid of the intended update, on a stored node. */
  lemma UpdateOneMirrors(g: Graph, nodes: NodeTable, edges: EdgeTable, n: int, f: Fields, date: Date)
    requires Mirrors(g, nodes, edges) && n in nodes
    ensures UpdateOne(g, n, f, date, IfNotNone).ok
    ensures Mirrors(UpdateOne(g, n, f, date, IfNotNone).g, nodes[n := EmbeddedStep(nodes[n], f, date)], edges)
  {
    UpdateOneOnRow(g, n, nodes[n], f, date);
    SetRowMirrors(g, nodes, edges, n, EmbeddedStep(nodes[n], f, date));
  }

  lemma AllListedStep(nodes: NodeTable, t1: NodeTable, nids: seq<int>)
    requires nids != [] && nids[0] in nodes && t1.Keys == nodes.Keys
    ensures (forall i :: 0 <= i < |nids| ==> nids[i] in nodes) <==>
            (forall i :: 0 <= i < |nids[1..]| ==> nids[1..][i] in t1)
  {
    if forall i :: 0 <= i < |nids[1..]| ==> nids[1..][i] in t1 {
      forall i | 0 <= i < |nids| ensures nids[i] in nodes {
        if i > 0 { assert nids[i] == nids[1..][i - 1]; }
      }
    }
  }

  /** The intended update_nodes (acting on every supplied value) keeps the graph in
      agreement with the tables, and raises exactly when some value is supplied and
      some listed nid has no row. */
  lemma {:induction false} UpdateKeepsMirror(g: Graph, nodes: NodeTable, edges: EdgeTable, nids: seq<int>, f: Fields, date: Date)
    requires Mirrors(g, nodes, edges)
    ensures MirrorUpdate(g, nids, f, date, IfNotNone).ok <==>
              NoneSupplied(f) || forall i :: 0 <= i < |nids| ==> nids[i] in nodes
    ensures MirrorUpdate(g, nids, f, date, IfNotNone).ok ==>
              Mirrors(MirrorUpdate(g, nids, f, date, IfNotNone).g, EmbeddedUpdate(nodes, nids, f, date), edges)
    decreases |nids|
  {
    if nids != [] {
      var n := nids[0];
      if NoneSupplied(f) {
        UpdateOneNoneSupplied(g, n, f, date, IfNotNone);
        UpdateKeepsMirror(g, nodes, edges, nids[1..], f, date);
      } else if n in nodes {
        var t1 := EmbeddedUpdate(nodes, [n], f, date);
        assert t1 == nodes[n := EmbeddedStep(nodes[n], f, date)];
        UpdateOneMirrors(g, nodes, edges, n, f, date);
        UpdateKeepsMirror(UpdateOne(g, n, f, date, IfNotNone).g, t1, edges, nids[1..], f, date);
        EmbeddedUpdateStep(nodes, nids, f, date);
        AllListedStep(nodes, t1, nids);
        if nids[1..] == [] {
          assert EmbeddedUpdate(t1, nids[1..], f, date) == t1;
        }
      } else {
        UpdateOneOffRow(g, n, f, date);
      }
    }
  }

  /** As written, update_nodes acts only on truthy values: setting a status to 0
      changes the stored row but leaves the graph as it was, so the two part ways. */
  lemma ZeroNotMirrored(g: Graph, nodes: NodeTable, edges: EdgeTable, nid: int, date: Date)
    requires Mirrors(g, nodes, edges) && nid in nodes && nodes[nid].status != Some(0)
    ensures MirrorUpdate(g, [nid], Fields(None, None, None, Some(0)), date, IfTruthy) == Run(g, true)
    ensures EmbeddedUpdate(nodes, [nid], Fields(None, None, None, Some(0)), date)[nid].status == Some(0)
    ensures !Mirrors(g, EmbeddedUpdate(nodes, [nid], Fields(None, None, None, Some(0)), date), edges)
  {
    var t := EmbeddedUpdate(nodes, [nid], Fields(None, None, None, Some(0)), date);
    assert g.node[nid][KStatus] == OptInt(nodes[nid].status);
    assert RowAttrs(t[nid])[KStatus] == VInt(0);
  }

  // ------------------------------------------------------ check / uncheck

  /** `G.nodes[nid]['checked'] = v; G.nodes[nid]['date'] = date` on one node. */
  function SetChecked(g: Graph, n: int, v: int, date: Date): Graph
    requires n in g.node
  {
    g.(node := g.node[n := g.node[n][KChecked := VInt(v)][KDate := VDate(date)]])
  }

  /** SetChecked for each nid, which raises at the first nid the graph does not hold. */
  function MirrorSetChecked(g: Graph, nids: seq<int>, v: int, date: Date): (r: Run)
    ensures r.ok <==> forall i :: 0 <= i < |nids| ==> nids[i] in g.node
    ensures r.g.node.Keys == g.node.Keys && r.g.adj == g.adj
    decreases |nids|
  {
    if nids == [] then Run(g, true)
    else if nids[0] !in g.node then Run(g, false)
    else
      var r1 := MirrorSetChecked(SetChecked(g, nids[0], v, date), nids[1..], v, date);
      assert forall i :: 1 <= i < |nids| ==> nids[i] == nids[1..][i - 1];
      r1
  }

  /** One node of a check or uncheck, on a stored node. */
  lemma SetCheckedMirrors(g: Graph, nodes: NodeTable, edges: EdgeTable, n: int, v: int, date: Date)
    requires Mirrors(g, nodes, edges) && n in nodes
    requires nodes[n].checked != Some(v) || nodes[n].date == date
    ensures n in g.node
    ensures Mirrors(SetChecked(g, n, v, date), EmbeddedUpdate(nodes, [n], CheckedOnly(v), date), edges)
  {
    var f := CheckedOnly(v);
    var r' := EmbeddedStep(nodes[n], f, date);
    assert EmbeddedUpdate(nodes, [n], f, date) == nodes[n := r'];
    SetCheckedAttrs(nodes[n], Some(v), date);
    assert SetChecked(g, n, v, date) == g.(node := g.node[n := RowAttrs(r')]);
    SetRowMirrors(g, nodes, edges, n, r');
  }

  /** Checking (v = 1) or unchecking (v = -1) nodes that carry their rows keeps the
      graph in agreement with the tables, unless a node already held v under another
      date: the store then leaves the row alone while the graph re-dates it. */
  lemma {:induction false} SetCheckedKeepsMirror(g: Graph, nodes: NodeTable, edges: EdgeTable, nids: seq<int>, v: int, date: Date)
    requires Mirrors(g, nodes, edges)
    requires forall i :: 0 <= i < |nids| ==> nids[i] in nodes && (nodes[nids[i]].checked != Some(v) || nodes[nids[i]].date == date)
    ensures MirrorSetChecked(g, nids, v, date).ok
    ensures Mirrors(MirrorSetChecked(g, nids, v, date).g, EmbeddedUpdate(nodes, nids, CheckedOnly(v), date), edges)
    decreases |nids|
  {
    if nids != [] {
      var n := nids[0];
      var f := CheckedOnly(v);
      var t1 := EmbeddedUpdate(nodes, [n], f, date);
      SetCheckedMirrors(g, nodes, edges, n, v, date);
      assert t1 == nodes[n := EmbeddedStep(nodes[n], f, date)];
      forall i | 0 <= i < |nids[1..]|
        ensures nids[1..][i] in t1 && (t1[nids[1..][i]].checked != Some(v) || t1[nids[1..][i]].date == date)
      {
        assert nids[1..][i] == nids[i + 1];
      }
      SetCheckedKeepsMirror(SetChecked(g, n, v, date), t1, edges, nids[1..], v, date);
      EmbeddedUpdateStep(nodes, nids, f, date);
      if nids[1..] == [] {
        assert EmbeddedUpdate(t1, nids[1..], f, date) == t1;
      }
    }
  }

  /** Re-checking a checked node on another date: the store keeps the row (its
      update is change-only) while the graph takes the new date. */
  lemma RecheckRedates(g: Graph, nodes: NodeTable, edges: EdgeTable, nid: int, date: Date)
    requires Mirrors(g, nodes, edges) && nid in nodes
    requires nodes[nid].checked == Some(1) && nodes[nid].date != date
    ensures EmbeddedUpdate(nodes, [nid], CheckedOnly(1), date) == nodes
    ensures MirrorSetChecked(g, [nid], 1, date).ok
    ensures !Mirrors(MirrorSetChecked(g, [nid], 1, date).g, EmbeddedUpdate(nodes, [nid], CheckedOnly(1), date), edges)
  {
    var g1 := SetChecked(g, nid, 1, date);
    assert MirrorSetChecked(g, [nid], 1, date).g == g1 by {
      assert [nid][1..] == [];
    }
    assert g1.node[nid][KDate] == VDate(date);
    assert RowAttrs(nodes[nid])[KDate] == VDate(nodes[nid].date);
  }
}
