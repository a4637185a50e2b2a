/** The NeuroDB facade: a store and an in-memory undirected graph that mirrors it.
    Every write goes to the store first and then to the graph; the contracts say
    what each side becomes and when the two stay in agreement (Mirror.Mirrors).
    The facade is modelled over the embedded (SQLite) store. */
module NeuroDb {
  import opened Records
  import opened Tables
  import opened Graphs
  import opened Mirror
  import opened SqliteIO
  import opened Annotation

  // --------------------------------------------------------------- dating

  /** `if 'date' not in n: n['date'] = date` on one node entry. */
  function StampNode(n: NodeIn, now: Date): NodeIn
  {
    if n.date.None? then n.(date := Some(now)) else n
  }

  function StampEdge(e: EdgeIn, now: Date): EdgeIn
  {
    if e.date.None? then e.(date := Some(now)) else e
  }

  function StampNodes(b: seq<NodeIn>, now: Date): (s: seq<NodeIn>)
    ensures |s| == |b| && forall i :: 0 <= i < |b| ==> s[i] == StampNode(b[i], now)
  {
    seq(|b|, i requires 0 <= i < |b| => StampNode(b[i], now))
  }

  function StampEdges(b: seq<EdgeIn>, now: Date): (s: seq<EdgeIn>)
    ensures |s| == |b| && forall i :: 0 <= i < |b| ==> s[i] == StampEdge(b[i], now)
  {
    seq(|b|, i requires 0 <= i < |b| => StampEdge(b[i], now))
  }

  /** Once every entry carries a date, the store's own clock no longer matters: the
      stamped batch inserts what the original batch inserts at the stamping time. */
  lemma {:induction false} StampedNodesIgnoreClock(t: NodeTable, b: seq<NodeIn>, now: Date, later: Date)
    ensures InsertNodes(t, StampNodes(b, now), later) == InsertNodes(t, b, now)
    decreases |b|
  {
    if b != [] {
      assert StampNodes(b, now)[1..] == StampNodes(b[1..], now);
      assert NodeEntry(StampNode(b[0], now), later) == NodeEntry(b[0], now);
      StampedNodesIgnoreClock(t[b[0].nid := NodeEntry(b[0], now)], b[1..], now, later);
    }
  }

  lemma {:induction false} StampedNodesGraph(g: Graph, b: seq<NodeIn>, now: Date, later: Date)
    ensures MirrorAddNodes(g, StampNodes(b, now), later) == MirrorAddNodes(g, b, now)
    decreases |b|
  {
    if b != [] {
      assert StampNodes(b, now)[1..] == StampNodes(b[1..], now);
      assert NodeEntry(StampNode(b[0], now), later) == NodeEntry(b[0], now);
      StampedNodesGraph(AddNode(g, b[0].nid, RowAttrs(NodeEntry(b[0], now))), b[1..], now, later);
    }
  }

  lemma {:induction false} StampedEdgesIgnoreClock(t: EdgeTable, b: seq<EdgeIn>, now: Date, later: Date)
    ensures InsertOrIgnore(t, StampEdges(b, now), later) == InsertOrIgnore(t, b, now)
    decreases |b|
  {
    if b != [] {
      assert StampEdges(b, now)[1..] == StampEdges(b[1..], now);
      assert EdgeEntry(StampEdge(b[0], now), later) == EdgeEntry(b[0], now);
      assert EdgeKey(StampEdge(b[0], now)) == EdgeKey(b[0]);
      var k := EdgeKey(b[0]);
      StampedEdgesIgnoreClock(if k in t then t else t[k := EdgeEntry(b[0], now)], b[1..], now, later);
    }
  }

  lemma {:induction false} StampedEdgesGraph(g: Graph, b: seq<EdgeIn>, now: Date, later: Date)
    ensures MirrorAddEdges(g, StampEdges(b, now), later) == MirrorAddEdges(g, b, now)
    decreases |b|
  {
    if b != [] {
      assert StampEdges(b, now)[1..] == StampEdges(b[1..], now);
      assert EdgeEntry(StampEdge(b[0], now), later) == EdgeEntry(b[0], now);
      StampedEdgesGraph(AddEdge(g, b[0].src, b[0].dst, EdgeEntry(b[0], now)), b[1..], now, later);
    }
  }

  // ------------------------------------------------------------ init_graph

  /** The rows of t whose keys are in ks. */
  function Restrict<K, V>(t: map<K, V>, ks: set<K>): (r: map<K, V>)
    ensures r.Keys == t.Keys * ks
    ensures forall k :: k in r ==> r[k] == t[k]
  {
    map k | k in t && k in ks :: t[k]
  }

  lemma EmptyExact()
    ensures ExactMirror(Empty(), map[], map[])
  {
    assert Endpoints(map[]) == {};
  }

  /** `remove_nodes_from` leaves a well-formed graph. */
  lemma {:induction false} RemoveNodesWellFormed(g: Graph, nids: seq<int>)
    requires WellFormed(g)
    ensures WellFormed(MirrorRemoveNodes(g, nids))
    decreases |nids|
  {
    if nids != [] {
      RemoveNodeSpec(g, nids[0]);
      RemoveNodesWellFormed(RemoveNode(g, nids[0]), nids[1..]);
    }
  }

  /** Restricting to one more row's key adds that row's entry. */
  lemma RestrictPrefixStep<K, V>(t: map<K, V>, rows: seq<(K, V)>, i: int)
    requires 0 <= i < |rows| && rows[i].0 in t
    ensures Restrict(t, Firsts(rows[..i + 1])) == Restrict(t, Firsts(rows[..i]))[rows[i].0 := t[rows[i].0]]
  {
    assert rows[..i + 1] == rows[..i] + [rows[i]];
    FirstsAppend(rows[..i], rows[i]);
  }

  /** One `add_node` of init_graph extends the agreement by that row. */
  lemma NodeRowStep(h: Graph, nodes: NodeTable, rows: seq<(int, NodeRow)>, i: int)
    requires 0 <= i < |rows| && ExactMirror(h, Restrict(nodes, Firsts(rows[..i])), map[])
    requires rows[i].0 in nodes && rows[i].1 == nodes[rows[i].0]
    ensures ExactMirror(AddNode(h, rows[i].0, RowAttrs(rows[i].1)), Restrict(nodes, Firsts(rows[..i + 1])), map[])
  {
    var before := Restrict(nodes, Firsts(rows[..i]));
    RestrictPrefixStep(nodes, rows, i);
    AddNodeMirrors(h, before, map[], rows[i].0, rows[i].1);
  }

  /** One `add_edge` of init_graph extends the agreement by that stored pair. */
  lemma EdgeRowStep(h: Graph, nodes: NodeTable, edges: EdgeTable, rows: seq<((int, int), EdgeRow)>, j: int)
    requires 0 <= j < |rows| && ExactMirror(h, nodes, Restrict(edges, Firsts(rows[..j])))
    requires Canonical(edges) && rows[j].0 in edges && rows[j].1 == edges[rows[j].0]
    ensures ExactMirror(AddEdge(h, rows[j].0.0, rows[j].0.1, rows[j].1), nodes, Restrict(edges, Firsts(rows[..j + 1])))
  {
    var p := rows[j].0;
    var before := Restrict(edges, Firsts(rows[..j]));
    RestrictPrefixStep(edges, rows, j);
    AddEdgeExact(h, nodes, before, p.0, p.1, rows[j].1);
  }

  /** The date-filling loop of add_nodes: every entry without a date gets `now`. */
  method StampNodeDates(batch: seq<NodeIn>, now: Date) returns (stamped: seq<NodeIn>)
    ensures stamped == StampNodes(batch, now)
  {
    stamped := batch;
    var i := 0;
    while i < |stamped|
      invariant 0 <= i <= |stamped| && |stamped| == |batch|
      invariant forall m :: 0 <= m < i ==> stamped[m] == StampNode(batch[m], now)
      invariant forall m :: i <= m < |batch| ==> stamped[m] == batch[m]
    {
      if stamped[i].date.None? {
        stamped := stamped[i := stamped[i].(date := Some(now))];
      }
      i := i + 1;
    }
  }

  /** The date-filling loop of add_edges. */
  method StampEdgeDates(batch: seq<EdgeIn>, now: Date) returns (stamped: seq<EdgeIn>)
    ensures stamped == StampEdges(batch, now)
  {
    stamped := batch;
    var i := 0;
    while i < |stamped|
      invariant 0 <= i <= |stamped| && |stamped| == |batch|
      invariant forall m :: 0 <= m < i ==> stamped[m] == StampEdge(batch[m], now)
      invariant forall m :: i <= m < |batch| ==> stamped[m] == batch[m]
    {
      if stamped[i].date.None? {
        stamped := stamped[i := stamped[i].(date := Some(now))];
      }
      i := i + 1;
    }
  }

  /** The `add_node` loop of add_nodes, one call per stamped entry. */
  method AddNodesToGraph(g: Graph, stamped: seq<NodeIn>, now: Date) returns (h: Graph)
    requires WellFormed(g)
    ensures WellFormed(h) && h == MirrorAddNodes(g, stamped, now)
  {
    h := g;
    var i := 0;
    while i < |stamped|
      invariant 0 <= i <= |stamped| && WellFormed(h)
      invariant MirrorAddNodes(g, stamped, now) == MirrorAddNodes(h, stamped[i..], now)
    {
      assert stamped[i..][1..] == stamped[i + 1..];
      h := AddNode(h, stamped[i].nid, RowAttrs(NodeEntry(stamped[i], now)));
      i := i + 1;
    }
  }

  /** The `add_edge` loop of add_edges, one call per stamped entry. */
  method AddEdgesToGraph(g: Graph, stamped: seq<EdgeIn>, now: Date) returns (h: Graph)
    requires WellFormed(g)
    ensures WellFormed(h) && h == MirrorAddEdges(g, stamped, now)
  {
    h := g;
    var i := 0;
    while i < |stamped|
      invariant 0 <= i <= |stamped| && WellFormed(h)
      invariant MirrorAddEdges(g, stamped, now) == MirrorAddEdges(h, stamped[i..], now)
    {
      assert stamped[i..][1..] == stamped[i + 1..];
      AddEdgeWellFormed(h, stamped[i].src, stamped[i].dst, EdgeEntry(stamped[i], now));
      h := AddEdge(h, stamped[i].src, stamped[i].dst, EdgeEntry(stamped[i], now));
      i := i + 1;
    }
  }

  // ----------------------------------------------------------------- class

  class NeuroDB {
    const db: SqliteStore
    var g: Graph

    ghost predicate Valid()
      reads this, db
    {
      db.Valid() && WellFormed(g)
    }

    /** The graph agrees with the store's nodes and edges. */
    ghost predicate InSync()
      reads this, db
    {
      Mirrors(g, db.nodes, db.edges)
    }

    /** `NeuroDB(db_name)` on a `.db` file: an empty graph filled by init_graph. */
    constructor (store: SqliteStore)
      requires store.Valid()
      ensures db == store && Valid() && InSync()
      ensures ExactMirror(g, db.nodes, db.edges)
      ensures db.nodes == old(store.nodes) && db.edges == old(store.edges) && db.segs == old(store.segs)
    {
      db := store;
      g := Empty();
      new;
      InitGraph();
    }

    /** init_graph: one `add_node` per stored node with its row's values, then one
        `add_edge` per stored edge. The graph then holds exactly the stored nodes
        and the endpoints of stored edges, with the stored attributes and edge data. */
    method InitGraph()
      requires db.Valid() && g == Empty()
      modifies this
      ensures db.Valid() && WellFormed(g)
      ensures ExactMirror(g, db.nodes, db.edges)
    {
      var rows := db.ReadNodes();
      var erows := db.ReadEdges(None);
      var nodes, edges := db.nodes, db.edges;
      var h := Empty();
      EmptyExact();
      var i := 0;
      while i < |rows|
        invariant 0 <= i <= |rows|
        invariant ExactMirror(h, Restrict(nodes, Firsts(rows[..i])), map[])
      {
        NodeRowStep(h, nodes, rows, i);
        h := AddNode(h, rows[i].0, RowAttrs(rows[i].1));
        i := i + 1;
      }
      assert rows[..i] == rows;
      assert Restrict(nodes, Firsts(rows)) == nodes;
      assert Firsts(erows) == edges.Keys;
      var j := 0;
      assert Restrict(edges, Firsts(erows[..0])) == map[];
      while j < |erows|
        invariant 0 <= j <= |erows|
        invariant ExactMirror(h, nodes, Restrict(edges, Firsts(erows[..j])))
      {
        EdgeRowStep(h, nodes, edges, erows, j);
        h := AddEdge(h, erows[j].0.0, erows[j].0.1, erows[j].1);
        j := j + 1;
      }
      assert erows[..j] == erows;
      assert Restrict(edges, Firsts(erows)) == edges;
      g := h;
    }

    /** add_nodes: entries without a date get the call time (the caller's entries
        are returned stamped), the store inserts the batch, and only if that did
        not raise does the graph get one `add_node` per entry. */
    method AddNodes(batch: seq<NodeIn>, now: Date) returns (ok: bool, stamped: seq<NodeIn>)
      requires Valid()
      modifies this, db
      ensures Valid()
      ensures stamped == StampNodes(batch, now)
      ensures ok <==> InsertNodes(old(db.nodes), batch, now).Some?
      ensures db.nodes == (if ok then InsertNodes(old(db.nodes), batch, now).value else old(db.nodes))
      ensures g == (if ok then MirrorAddNodes(old(g), batch, now) else old(g))
      ensures db.edges == old(db.edges) && db.segs == old(db.segs)
      ensures old(InSync()) ==> InSync()
    {
      stamped := StampNodeDates(batch, now);
      StampedNodesIgnoreClock(db.nodes, batch, now, now);
      StampedNodesGraph(g, batch, now, now);
      ghost var g0, n0 := g, db.nodes;
      ok := db.AddNodes(stamped, now);
      if !ok {
        return;
      }
      var h := AddNodesToGraph(g, stamped, now);
      g := h;
      if old(InSync()) {
        AddNodesKeepMirror(g0, n0, db.edges, batch, now);
      }
    }

    /** add_edges: entries are stamped as in add_nodes, the store inserts them
        (ignoring pairs it already holds), and the graph gets one `add_edge` each. */
    method AddEdges(batch: seq<EdgeIn>, now: Date) returns (stamped: seq<EdgeIn>)
      requires Valid()
      modifies this, db
      ensures Valid()
      ensures stamped == StampEdges(batch, now)
      ensures db.edges == InsertOrIgnore(old(db.edges), batch, now)
      ensures g == MirrorAddEdges(old(g), batch, now)
      ensures db.nodes == old(db.nodes) && db.segs == old(db.segs)
      ensures old(InSync()) ==> InSync()
    {
      stamped := StampEdgeDates(batch, now);
      StampedEdgesIgnoreClock(db.edges, batch, now, now);
      StampedEdgesGraph(g, batch, now, now);
      ghost var g0, e0 := g, db.edges;
      db.AddEdges(stamped, now);
      var h := AddEdgesToGraph(g, stamped, now);
      g := h;
      if old(InSync()) {
        AddEdgesKeepMirror(g0, db.nodes, e0, batch, now);
      }
    }

    /** delete_nodes: the store drops the rows and their incident edges, and
        `remove_nodes_from` drops the nodes (ignoring absent ones) and their edges. */
    method DeleteNodes(nids: seq<int>)
      requires Valid()
      modifies this, db
      ensures Valid()
      ensures db.nodes == DropNodes(old(db.nodes), nids)
      ensures db.edges == DropIncident(old(db.edges), nids)
      ensures g == MirrorRemoveNodes(old(g), nids)
      ensures db.segs == old(db.segs)
      ensures old(InSync()) ==> InSync()
    {
      ghost var g0, n0, e0 := g, db.nodes, db.edges;
      db.DeleteNodes(nids);
      RemoveNodesWellFormed(g, nids);
      g := MirrorRemoveNodes(g, nids);
      if old(InSync()) {
        RemoveNodesKeepMirror(g0, n0, e0, nids);
      }
    }

    /** delete_edges: the store drops the pairs in either orientation, then
        `remove_edge` runs per pair and raises at the first pair the graph does not
        hold (ok false), leaving the earlier removals in place. */
    method DeleteEdges(pairs: seq<(int, int)>) returns (ok: bool)
      requires Valid()
      modifies this, db
      ensures Valid()
      ensures db.edges == DropPairs(old(db.edges), pairs)
      ensures Run(g, ok) == MirrorRemoveEdges(old(g), pairs)
      ensures db.nodes == old(db.nodes) && db.segs == old(db.segs)
      ensures old(InSync()) ==> (ok <==> PresentOnce(old(db.edges), pairs))
      ensures old(InSync()) && ok ==> InSync()
    {
      ghost var g0, e0 := g, db.edges;
      db.DeleteEdges(pairs);
      var h := g;
      var i := 0;
      ok := true;
      while i < |pairs|
        invariant 0 <= i <= |pairs| && WellFormed(h) && ok
        modifies {}
        invariant MirrorRemoveEdges(g0, pairs) == MirrorRemoveEdges(h, pairs[i..])
      {
        assert pairs[i..][1..] == pairs[i + 1..];
        RemoveEdgeSpec(h, pairs[i].0, pairs[i].1);
        var r := RemoveEdge(h, pairs[i].0, pairs[i].1);
        if r.None? {
          assert MirrorRemoveEdges(h, pairs[i..]) == Run(h, false);
          ok := false;
          break;
        }
        h := r.value;
        i := i + 1;
      }
      assert ok ==> pairs[i..] == [];
      g := h;
      if old(InSync()) {
        RemoveEdgesMirror(g0, db.nodes, e0, pairs);
      }
    }

    /** The loop of update_nodes over the graph: the four attribute calls per nid,
        stopping where a call raises. */
    method UpdateGraph(nids: seq<int>, f: Fields, date: Date, test: ValueTest) returns (ok: bool)
      requires WellFormed(g)
      modifies this
      ensures WellFormed(g)
      ensures Run(g, ok) == MirrorUpdate(old(g), nids, f, date, test)
    {
      ghost var g0 := g;
      var h := g;
      var i := 0;
      ok := true;
      while i < |nids|
        invariant 0 <= i <= |nids|
        invariant h.node.Keys == g0.node.Keys && h.adj == g0.adj
        invariant MirrorUpdate(g0, nids, f, date, test) == MirrorUpdate(h, nids[i..], f, date, test)
      {
        assert nids[i..][1..] == nids[i + 1..];
        UpdateOneFrame(h, nids[i], f, date, test);
        var r := UpdateOne(h, nids[i], f, date, test);
        if !r.ok {
          assert MirrorUpdate(h, nids[i..], f, date, test) == r;
          h, ok := r.g, false;
          break;
        }
        h := r.g;
        i := i + 1;
      }
      assert ok ==> nids[i..] == [];
      assert WellFormed(g0);
      g := h;
    }

    /** update_nodes acting on every supplied value (None means "not supplied"):
        the store's conditional UPDATE, dated now, and the same change on the graph.
        The graph side raises exactly when a value is supplied for a nid with no row. */
    method UpdateNodes(nids: seq<int>, f: Fields, now: Date) returns (ok: bool)
      requires Valid()
      modifies this, db
      ensures Valid()
      ensures db.nodes == EmbeddedUpdate(old(db.nodes), nids, f, now)
      ensures Run(g, ok) == MirrorUpdate(old(g), nids, f, now, IfNotNone)
      ensures db.edges == old(db.edges) && db.segs == old(db.segs)
      ensures old(InSync()) ==> (ok <==> NoneSupplied(f) || forall i :: 0 <= i < |nids| ==> nids[i] in old(db.nodes))
      ensures old(InSync()) && ok ==> InSync()
    {
      ghost var g0, n0 := g, db.nodes;
      db.UpdateNodes(nids, f, Some(now), now);
      ok := UpdateGraph(nids, f, now, IfNotNone);
      if old(InSync()) {
        UpdateKeepsMirror(g0, n0, db.edges, nids, f, now);
      }
    }

    /** update_nodes with the graph side as written: the graph acts only on truthy
        values, so a 0 or an empty string reaches the intended store update but not
        the graph (Mirror.ZeroNotMirrored). The store side is the intended update. */
    method UpdateNodesAsWritten(nids: seq<int>, f: Fields, now: Date) returns (ok: bool)
      requires Valid()
      modifies this, db
      ensures Valid()
      ensures db.nodes == EmbeddedUpdate(old(db.nodes), nids, f, now)
      ensures Run(g, ok) == MirrorUpdate(old(g), nids, f, now, IfTruthy)
      ensures db.edges == old(db.edges) && db.segs == old(db.segs)
    {
      db.UpdateNodes(nids, f, Some(now), now);
      ok := UpdateGraph(nids, f, now, IfTruthy);
    }

    /** check_node: under the intended store update the row is marked checked (1) if
        it is not already, and the graph sets checked and date on the node, raising
        if the graph lacks it. */
    method CheckNode(nid: int, now: Date) returns (ok: bool)
      requires Valid()
      modifies this, db
      ensures Valid()
      ensures db.nodes == EmbeddedUpdate(old(db.nodes), [nid], CheckedOnly(1), now)
      ensures Run(g, ok) == MirrorSetChecked(old(g), [nid], 1, now)
      ensures db.edges == old(db.edges) && db.segs == old(db.segs)
      ensures old(InSync()) && nid in old(db.nodes) && (old(db.nodes)[nid].checked != Some(1) || old(db.nodes)[nid].date == now) ==> ok && InSync()
    {
      ghost var g0, n0 := g, db.nodes;
      db.CheckNode(nid, Some(now), now);
      ok := nid in g.node;
      if ok {
        g := SetChecked(g, nid, 1, now);
      }
      assert [nid][1..] == [];
      if old(InSync()) && nid in n0 && (n0[nid].checked != Some(1) || n0[nid].date == now) {
        SetCheckedKeepsMirror(g0, n0, db.edges, [nid], 1, now);
      }
    }

    /** uncheck_node as intended: the store's uncheck_nodes marks the rows unchecked
        (-1), and the graph sets checked and date per nid, raising at the first nid
        the graph lacks. */
    method UncheckNode(nids: seq<int>, now: Date) returns (ok: bool)
      requires Valid()
      modifies this, db
      ensures Valid()
      ensures db.nodes == EmbeddedUpdate(old(db.nodes), nids, CheckedOnly(-1), now)
      ensures Run(g, ok) == MirrorSetChecked(old(g), nids, -1, now)
      ensures db.edges == old(db.edges) && db.segs == old(db.segs)
      ensures old(InSync()) && (forall i :: 0 <= i < |nids| ==> nids[i] in old(db.nodes) && (old(db.nodes)[nids[i]].checked != Some(-1) || old(db.nodes)[nids[i]].date == now)) ==> ok && InSync()
    {
      ghost var g0, n0 := g, db.nodes;
      db.UncheckNodes(nids, Some(now), now);
      ok := UncheckGraph(nids, now);
      if old(InSync()) && forall i :: 0 <= i < |nids| ==> nids[i] in n0 && (n0[nids[i]].checked != Some(-1) || n0[nids[i]].date == now) {
        SetCheckedKeepsMirror(g0, n0, db.edges, nids, -1, now);
      }
    }

    /** The loop of uncheck_node over the graph. */
    method UncheckGraph(nids: seq<int>, now: Date) returns (ok: bool)
      requires WellFormed(g)
      modifies this
      ensures WellFormed(g)
      ensures Run(g, ok) == MirrorSetChecked(old(g), nids, -1, now)
    {
      ghost var g0 := g;
      var h := g;
      var i := 0;
      ok := true;
      while i < |nids|
        invariant 0 <= i <= |nids|
        invariant h.node.Keys == g0.node.Keys && h.adj == g0.adj
        invariant MirrorSetChecked(g0, nids, -1, now) == MirrorSetChecked(h, nids[i..], -1, now)
      {
        assert nids[i..][1..] == nids[i + 1..];
        if nids[i] !in h.node {
          ok := false;
          break;
        }
        h := SetChecked(h, nids[i], -1, now);
        i := i + 1;
      }
      assert ok ==> nids[i..] == [];
      assert WellFormed(g0);
      g := h;
    }

    /** uncheck_node as written: it calls `uncheck_node` on the store, which the
        SQLite store does not define (it has `uncheck_nodes`), so the call raises
        before either side changes. */
    method UncheckNodeAsWritten(nids: seq<int>, now: Date) returns (ok: bool)
      requires Valid()
      ensures !ok
      ensures g == old(g) && db.nodes == old(db.nodes) && db.edges == old(db.edges)
    {
      ok := false;
    }

    /** get_annotation_info: the connected components of the graph with at least
        `threshold` nodes and no flagged node, each with its nodes, branch nodes, end
        nodes and length, longest first. It raises (ok false) when the scan reads
        the checked value of a node that has none, or when the length loop reads
        the coordinate of an edge endpoint of a kept component that has none; with
        every checked value and every endpoint's coordinate present it completes. */
    method GetAnnotationInfo(threshold: int, length: set<int> -> int) returns (info: seq<Info>, ok: bool)
      requires Valid()
      ensures ok ==> Annotated(g, threshold, length, info)
      ensures !ok ==> AnnotationRaises(g, threshold)
      ensures AnnotationComplete(g) ==> ok
    {
      var h := g;
      var comps, seeds := Components(h);
      var kept; ghost var idx;
      kept, idx, ok := SelectKept(h, threshold, comps, seeds);
      if !ok {
        return [], false;
      }
      forall k | 0 <= k < |kept| ensures Closed(h, kept[k]) && kept[k] <= h.adj.Keys {
        ReachSetClosed(h, seeds[idx[k]]);
      }
      var unsorted;
      unsorted, ok := DescribeAll(h, kept, length);
      KeptCoords(h, threshold, comps, seeds, kept, idx);
      if AnnotationComplete(h) {
        CoordsEverywhere(h, kept);
      }
      if !ok {
        return [], false;
      }
      ghost var perm;
      info, perm := SortByLength(unsorted);
      KeptDisjoint(h, threshold, length, comps, seeds, kept, idx, unsorted);
      RearrangedDisjoint(info, unsorted, perm);
      SortedEntriesReported(h, threshold, length, comps, seeds, kept, idx, unsorted, info, perm);
      KeptComponentsListed(h, threshold, length, comps, seeds, kept, idx, unsorted, info);
    }
  }
}
