/** upgrade_database_schema: the one-time move of an embedded database file from
    the legacy layout (a nodes table with a textual `coord` column, an edges table
    whose second endpoint is `des`) to the current one. A table's layout is the
    set of its column names; its rows are held in the legacy or in the current
    shape accordingly. */
module Migration {
  import opened Records
  import opened Tables

  /** A legacy nodes row; `coord` is None when its text does not decode to three values. */
  datatype LegacyNode = LegacyNode(nid: int, coord: Option<Coord>, creator: Option<string>, kind: Option<int>,
                                   checked: Option<int>, status: Option<int>, date: Date)

  /** A legacy edges row, in whichever order its endpoints were written. */
  datatype LegacyEdge = LegacyEdge(src: int, des: int, creator: Option<string>, date: Date)

  const NodeColumns: set<string> := {"nid", "x", "y", "z", "creator", "type", "checked", "status", "date"}
  const EdgeColumns: set<string> := {"src", "dst", "creator", "date"}
  /** The columns the copy loops read from a legacy row. */
  const LegacyNodeColumns: set<string> := {"nid", "coord", "creator", "type", "checked", "status", "date"}
  const LegacyEdgeColumns: set<string> := {"src", "des", "creator", "date"}

  /** The node step's guard: a `coord` column and not all of x, y and z. */
  predicate NodeStepDue(cols: set<string>)
  {
    "coord" in cols && !("x" in cols && "y" in cols && "z" in cols)
  }

  /** The edge step's guard: a `des` column and no `dst`. */
  predicate EdgeStepDue(cols: set<string>)
  {
    "des" in cols && "dst" !in cols
  }

  /** The index step needs the three indexed columns. */
  predicate IndexableColumns(nodeCols: set<string>, edgeCols: set<string>)
  {
    "nid" in nodeCols && "src" in edgeCols && "dst" in edgeCols
  }

  /** A legacy node row with a decoded coordinate, as an insert entry that keeps
      its own date. */
  function Upgraded(r: LegacyNode): NodeIn
    requires r.coord.Some?
  {
    NodeIn(r.nid, r.coord.value, r.creator, r.kind, r.checked, r.status, Some(r.date))
  }

  /** A legacy edge row as an insert entry that keeps its own date. */
  function UpgradedEdge(r: LegacyEdge): EdgeIn
  {
    EdgeIn(r.src, r.des, r.creator, Some(r.date))
  }

  function UpgradedEdges(rows: seq<LegacyEdge>): (b: seq<EdgeIn>)
    ensures |b| == |rows|
    ensures forall i :: 0 <= i < |rows| ==> b[i] == UpgradedEdge(rows[i])
  {
    seq(|rows|, i requires 0 <= i < |rows| => UpgradedEdge(rows[i]))
  }

  /** The node step's copy loop: row by row into the new table, failing at a
      coordinate that does not decode or at a nid already copied. */
  function CopyNodeRows(t: NodeTable, rows: seq<LegacyNode>): Option<NodeTable>
    decreases |rows|
  {
    if rows == [] then Some(t)
    else if rows[0].coord.None? || rows[0].nid in t then None
    else CopyNodeRows(t[rows[0].nid := NodeEntry(Upgraded(rows[0]), 0)], rows[1..])
  }

  ghost predicate AllDecoded(rows: seq<LegacyNode>)
  {
    forall i :: 0 <= i < |rows| ==> rows[i].coord.Some?
  }

  function UpgradedRows(rows: seq<LegacyNode>): (b: seq<NodeIn>)
    requires AllDecoded(rows)
    ensures |b| == |rows|
    ensures forall i :: 0 <= i < |rows| ==> b[i] == Upgraded(rows[i])
  {
    seq(|rows|, i requires 0 <= i < |rows| => Upgraded(rows[i]))
  }

  /** The copy is the plain insert of the decoded rows; it fails exactly when some
      coordinate does not decode or that insert fails. */
  lemma {:induction false} CopyNodeRowsIsInsert(t: NodeTable, rows: seq<LegacyNode>)
    ensures CopyNodeRows(t, rows).Some? ==> AllDecoded(rows)
    ensures AllDecoded(rows) ==> CopyNodeRows(t, rows) == InsertNodes(t, UpgradedRows(rows), 0)
    decreases |rows|
  {
    if rows != [] {
      if rows[0].coord.Some? {
        CopyNodeRowsIsInsert(t[rows[0].nid := NodeEntry(Upgraded(rows[0]), 0)], rows[1..]);
      }
      assert forall i :: 0 < i < |rows| ==> rows[1..][i - 1] == rows[i];
      if CopyNodeRows(t, rows).Some? {
        forall i | 0 <= i < |rows| ensures rows[i].coord.Some? {
          if i > 0 { assert rows[1..][i - 1] == rows[i]; }
        }
      }
      if AllDecoded(rows) {
        assert AllDecoded(rows[1..]) by {
          forall i | 0 <= i < |rows[1..]| ensures rows[1..][i].coord.Some? {
            assert rows[1..][i] == rows[i + 1];
          }
        }
        assert UpgradedRows(rows)[1..] == UpgradedRows(rows[1..]);
      }
    }
  }

  /** What a successful node step keeps: every legacy row becomes the row of its
      nid with x, y, z split out of its coordinate and nid, creator, type,
      checked, status and date unchanged; the step fails exactly on an undecodable
      coordinate or a repeated nid. */
  lemma NodeStepKeepsRows(rows: seq<LegacyNode>)
    ensures CopyNodeRows(map[], rows).Some? <==>
              AllDecoded(rows) && forall i, j :: 0 <= i < j < |rows| ==> rows[i].nid != rows[j].nid
    ensures CopyNodeRows(map[], rows).Some? ==>
              var t := CopyNodeRows(map[], rows).value;
              && (forall k :: k in t <==> exists i :: 0 <= i < |rows| && rows[i].nid == k)
              && (forall i :: 0 <= i < |rows| ==>
                    t[rows[i].nid] == NodeRow(rows[i].coord.value, rows[i].creator, rows[i].kind,
                                              rows[i].checked, rows[i].status, rows[i].date))
  {
    CopyNodeRowsIsInsert(map[], rows);
    if AllDecoded(rows) {
      var b := UpgradedRows(rows);
      InsertNodesSpec(map[], b, 0);
      if InsertNodes(map[], b, 0).Some? {
        var t := InsertNodes(map[], b, 0).value;
        forall k | k in t ensures exists i :: 0 <= i < |rows| && rows[i].nid == k {
          var i :| 0 <= i < |b| && b[i].nid == k;
          assert rows[i].nid == k;
        }
        forall k | (exists i :: 0 <= i < |rows| && rows[i].nid == k) ensures k in t {
          var i :| 0 <= i < |rows| && rows[i].nid == k;
          assert b[i].nid == k;
        }
      }
    }
  }

  /** Row i is the first legacy row naming its pair, in either order. */
  ghost predicate FirstOfPair(rows: seq<LegacyEdge>, i: int)
    requires 0 <= i < |rows|
  {
    forall j :: 0 <= j < i ==> Canon(rows[j].src, rows[j].des) != Canon(rows[i].src, rows[i].des)
  }

  /** What the edge step keeps: exactly the legacy pairs, each stored smaller id
      first, so a pair written several times (in either order) collapses to one row. */
  lemma EdgeStepCollapses(rows: seq<LegacyEdge>)
    ensures Canonical(InsertOrIgnore(map[], UpgradedEdges(rows), 0))
    ensures forall p :: p in InsertOrIgnore(map[], UpgradedEdges(rows), 0) <==>
              exists i :: 0 <= i < |rows| && Canon(rows[i].src, rows[i].des) == p
  {
    var b := UpgradedEdges(rows);
    InsertOrIgnoreKeys(map[], b, 0);
    UpgradedEdgeKeys(rows);
  }

  /** The keys of the upgraded batch are the legacy pairs, canonicalised. */
  lemma UpgradedEdgeKeys(rows: seq<LegacyEdge>)
    ensures forall p :: p in EdgeKeys(UpgradedEdges(rows)) ==> p.0 <= p.1
    ensures forall p :: p in EdgeKeys(UpgradedEdges(rows)) <==>
              exists i :: 0 <= i < |rows| && Canon(rows[i].src, rows[i].des) == p
  {
    var b := UpgradedEdges(rows);
    forall p | p in EdgeKeys(b) ensures p.0 <= p.1 && exists i :: 0 <= i < |rows| && Canon(rows[i].src, rows[i].des) == p {
      var i :| 0 <= i < |b| && EdgeKey(b[i]) == p;
      assert Canon(rows[i].src, rows[i].des) == p;
    }
    forall p | (exists i :: 0 <= i < |rows| && Canon(rows[i].src, rows[i].des) == p) ensures p in EdgeKeys(b) {
      var i :| 0 <= i < |rows| && Canon(rows[i].src, rows[i].des) == p;
      assert EdgeKey(b[i]) == p;
    }
  }

  /** A collapsed pair keeps the creator and date of its first legacy row. */
  lemma EdgeStepKeepsFirst(rows: seq<LegacyEdge>, i: int)
    requires 0 <= i < |rows| && FirstOfPair(rows, i)
    ensures Canon(rows[i].src, rows[i].des) in InsertOrIgnore(map[], UpgradedEdges(rows), 0)
    ensures InsertOrIgnore(map[], UpgradedEdges(rows), 0)[Canon(rows[i].src, rows[i].des)] == EdgeRow(rows[i].creator, rows[i].date)
  {
    var b := UpgradedEdges(rows);
    InsertOrIgnoreSpec(map[], b, 0);
    assert EdgeKey(b[i]) in EdgeKeys(b);
    assert FirstFor(b, i);
  }

  /** The node step's loop, over the legacy rows. */
  method CopyNodes(rows: seq<LegacyNode>) returns (t: NodeTable, good: bool)
    ensures good <==> CopyNodeRows(map[], rows).Some?
    ensures good ==> t == CopyNodeRows(map[], rows).value
  {
    t := map[];
    var i := 0;
    while i < |rows|
      invariant 0 <= i <= |rows|
      invariant CopyNodeRows(map[], rows) == CopyNodeRows(t, rows[i..])
    {
      assert rows[i..][1..] == rows[i + 1..];
      var r := rows[i];
      if r.coord.None? || r.nid in t {
        return t, false;
      }
      var c := r.coord.value;
      t := t[r.nid := NodeRow(c, r.creator, r.kind, r.checked, r.status, r.date)];
      i := i + 1;
    }
    good := true;
  }

  /** The edge step's loop: canonicalise each legacy pair and INSERT OR IGNORE it. */
  method CopyEdges(rows: seq<LegacyEdge>) returns (t: EdgeTable)
    ensures t == InsertOrIgnore(map[], UpgradedEdges(rows), 0)
  {
    t := map[];
    var i := 0;
    while i < |rows|
      invariant 0 <= i <= |rows|
      invariant InsertOrIgnore(map[], UpgradedEdges(rows), 0) == InsertOrIgnore(t, UpgradedEdges(rows)[i..], 0)
    {
      assert UpgradedEdges(rows)[i..][1..] == UpgradedEdges(rows)[i + 1..];
      var src, dst := rows[i].src, rows[i].des;
      if src > dst {
        src, dst := dst, src;
      }
      if (src, dst) !in t {
        t := t[(src, dst) := EdgeRow(rows[i].creator, rows[i].date)];
      }
      i := i + 1;
    }
  }

  /** A database file as the upgrade finds it. `legacyNodes` holds the nodes rows
      while the nodes table has the legacy layout and `nodes` once it has the
      current one; likewise for the edges. */
  class SqliteFile {
    var nodeCols: set<string>
    var edgeCols: set<string>
    var legacyNodes: seq<LegacyNode>
    var legacyEdges: seq<LegacyEdge>
    var nodes: NodeTable
    var edges: EdgeTable

    /** The node step: copy every legacy row into a table of the current layout
        (a missing column fails as soon as a row is read); any failure rolls back
        and leaves the file as it was. */
    ghost function NodeStep(cols: set<string>, rows: seq<LegacyNode>): Option<NodeTable>
    {
      if rows != [] && !(LegacyNodeColumns <= cols) then None else CopyNodeRows(map[], rows)
    }

    ghost predicate EdgeStepFails(cols: set<string>, rows: seq<LegacyEdge>)
    {
      rows != [] && !(LegacyEdgeColumns <= cols)
    }

    /** upgrade_database_schema. Each step runs only when its guard holds; the node
        step commits before the edge step starts, so a failing edge step keeps it.
        A successful run leaves neither guard true, and a run where neither guard
        holds changes nothing, so a second run is a no-op. */
    method Upgrade() returns (ok: bool)
      modifies this
      ensures ok ==> !NodeStepDue(nodeCols) && !EdgeStepDue(edgeCols) && IndexableColumns(nodeCols, edgeCols)
      ensures !NodeStepDue(old(nodeCols)) && !EdgeStepDue(old(edgeCols)) ==>
                nodeCols == old(nodeCols) && edgeCols == old(edgeCols) && legacyNodes == old(legacyNodes) &&
                legacyEdges == old(legacyEdges) && nodes == old(nodes) && edges == old(edges) &&
                (ok <==> IndexableColumns(nodeCols, edgeCols))
      ensures NodeStepDue(old(nodeCols)) && NodeStep(old(nodeCols), old(legacyNodes)).None? ==>
                !ok && nodeCols == old(nodeCols) && edgeCols == old(edgeCols) && legacyNodes == old(legacyNodes) &&
                legacyEdges == old(legacyEdges) && nodes == old(nodes) && edges == old(edges)
      ensures NodeStepDue(old(nodeCols)) && NodeStep(old(nodeCols), old(legacyNodes)).Some? ==>
                nodeCols == NodeColumns && legacyNodes == [] && nodes == NodeStep(old(nodeCols), old(legacyNodes)).value
      ensures !NodeStepDue(old(nodeCols)) ==> nodeCols == old(nodeCols) && legacyNodes == old(legacyNodes) && nodes == old(nodes)
      ensures EdgeStepDue(old(edgeCols)) && EdgeStepFails(old(edgeCols), old(legacyEdges)) ==>
                !ok && edgeCols == old(edgeCols) && legacyEdges == old(legacyEdges) && edges == old(edges)
      ensures EdgeStepDue(old(edgeCols)) && !EdgeStepFails(old(edgeCols), old(legacyEdges)) &&
              !(NodeStepDue(old(nodeCols)) && NodeStep(old(nodeCols), old(legacyNodes)).None?) ==>
                edgeCols == EdgeColumns && legacyEdges == [] && edges == InsertOrIgnore(map[], UpgradedEdges(old(legacyEdges)), 0)
      ensures !EdgeStepDue(old(edgeCols)) ==> edgeCols == old(edgeCols) && legacyEdges == old(legacyEdges) && edges == old(edges)
    {
      if NodeStepDue(nodeCols) {
        if legacyNodes != [] && !(LegacyNodeColumns <= nodeCols) {
          return false;
        }
        var t, good := CopyNodes(legacyNodes);
        if !good {
          return false;
        }
        nodes, legacyNodes, nodeCols := t, [], NodeColumns;
      }
      if EdgeStepDue(edgeCols) {
        if legacyEdges != [] && !(LegacyEdgeColumns <= edgeCols) {
          return false;
        }
        var t := CopyEdges(legacyEdges);
        edges, legacyEdges, edgeCols := t, [], EdgeColumns;
      }
      ok := IndexableColumns(nodeCols, edgeCols);
    }
  }
}
