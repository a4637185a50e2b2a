/** The embedded store: one SQLite file with a segs, a nodes and an edges table.
    Each method opens its own connection, runs its statements and commits; here a
    method changes the three table fields, and its contract says which function
    of the old tables they become. */
module SqliteIO {
  import opened Records
  import opened Tables
  import opened Segments

  /** read_edges' optional creator filter: it applies only to a non-empty string. */
  predicate Selected(r: EdgeRow, creator: Option<string>)
  {
    creator.None? || creator.value == "" || r.creator == creator
  }

  /** The keys a list of rows names. */
  function Firsts<K, V>(rows: seq<(K, V)>): set<K>
  {
    set i | 0 <= i < |rows| :: rows[i].0
  }

  lemma FirstsAppend<K, V>(rows: seq<(K, V)>, x: (K, V))
    ensures Firsts(rows + [x]) == Firsts(rows) + {x.0}
  {
    var r := rows + [x];
    assert r[|rows|] == x;
    forall q | q in Firsts(rows) ensures q in Firsts(r) {
      var i :| 0 <= i < |rows| && rows[i].0 == q;
      assert r[i] == rows[i];
    }
  }

  /** What the listing loops keep: `rows` lists, once each and in increasing
      order, the keys of t already taken out of `rest`, all below those left. */
  ghost predicate SortedSoFar(t: NodeTable, rows: seq<(int, NodeRow)>, rest: set<int>)
  {
    && rest <= t.Keys
    && (forall i, j :: 0 <= i < j < |rows| ==> rows[i].0 < rows[j].0)
    && (forall i :: 0 <= i < |rows| ==> rows[i].0 in t && rows[i].1 == t[rows[i].0])
    && (forall i, k :: 0 <= i < |rows| && k in rest ==> rows[i].0 < k)
    && Firsts(rows) == t.Keys - rest
  }

  /** Taking the smallest remaining key keeps SortedSoFar. */
  lemma SortedStep(t: NodeTable, rows: seq<(int, NodeRow)>, rest: set<int>, k: int)
    requires SortedSoFar(t, rows, rest)
    requires k in rest && forall j :: j in rest ==> k <= j
    ensures SortedSoFar(t, rows + [(k, t[k])], rest - {k})
  {
    FirstsAppend(rows, (k, t[k]));
    var r := rows + [(k, t[k])];
    assert forall i :: 0 <= i < |rows| ==> r[i] == rows[i];
    assert t.Keys - (rest - {k}) == (t.Keys - rest) + {k};
  }

  /** The rows of a nodes table in increasing nid order (`ORDER BY nid`). */
  method SortedRows(t: NodeTable) returns (rows: seq<(int, NodeRow)>)
    ensures forall i, j :: 0 <= i < j < |rows| ==> rows[i].0 < rows[j].0
    ensures forall i :: 0 <= i < |rows| ==> rows[i].0 in t && rows[i].1 == t[rows[i].0]
    ensures Firsts(rows) == t.Keys
  {
    rows := [];
    var rest := t.Keys;
    while rest != {}
      invariant SortedSoFar(t, rows, rest)
      decreases |rest|
    {
      MinExists(rest);
      var k :| k in rest && forall j :: j in rest ==> k <= j;
      SortedStep(t, rows, rest, k);
      rows := rows + [(k, t[k])];
      rest := rest - {k};
    }
  }

  /** What the filtering loop keeps: `rows` lists, once each, the keys of t already
      taken out of `rest` whose row passes the filter. */
  ghost predicate SelectedSoFar(t: EdgeTable, creator: Option<string>, rows: seq<((int, int), EdgeRow)>, rest: set<(int, int)>)
  {
    && rest <= t.Keys
    && (forall i, j :: 0 <= i < j < |rows| ==> rows[i].0 != rows[j].0)
    && (forall i :: 0 <= i < |rows| ==> rows[i].0 in t && rows[i].0 !in rest && rows[i].1 == t[rows[i].0])
    && Firsts(rows) == set p | p in t && p !in rest && Selected(t[p], creator)
  }

  /** Looking at one more remaining pair keeps SelectedSoFar. */
  lemma SelectedStep(t: EdgeTable, creator: Option<string>, rows: seq<((int, int), EdgeRow)>, rest: set<(int, int)>, p: (int, int))
    requires SelectedSoFar(t, creator, rows, rest) && p in rest
    ensures Selected(t[p], creator) ==> SelectedSoFar(t, creator, rows + [(p, t[p])], rest - {p})
    ensures !Selected(t[p], creator) ==> SelectedSoFar(t, creator, rows, rest - {p})
  {
    var before := set q | q in t && q !in rest && Selected(t[q], creator);
    var after := set q | q in t && q !in rest - {p} && Selected(t[q], creator);
    if Selected(t[p], creator) {
      FirstsAppend(rows, (p, t[p]));
      var r := rows + [(p, t[p])];
      assert forall i :: 0 <= i < |rows| ==> r[i] == rows[i];
      assert after == before + {p};
    } else {
      assert after == before;
    }
  }

  /** The rows of an edges table that pass the creator filter, in no fixed order. */
  method SelectedRows(t: EdgeTable, creator: Option<string>) returns (rows: seq<((int, int), EdgeRow)>)
    ensures forall i, j :: 0 <= i < j < |rows| ==> rows[i].0 != rows[j].0
    ensures forall i :: 0 <= i < |rows| ==> rows[i].0 in t && rows[i].1 == t[rows[i].0]
    ensures Firsts(rows) == set p | p in t && Selected(t[p], creator)
  {
    rows := [];
    var rest := t.Keys;
    while rest != {}
      invariant SelectedSoFar(t, creator, rows, rest)
      decreases |rest|
    {
      NonEmptyHasPair(rest);
      var p :| p in rest;
      SelectedStep(t, creator, rows, rest, p);
      if Selected(t[p], creator) {
        rows := rows + [(p, t[p])];
      }
      rest := rest - {p};
    }
  }

  class SqliteStore {
    var nodes: NodeTable
    var edges: EdgeTable
    var segs: SegTable

    /** The CHECK (src <= dst) constraint of the edges table. */
    ghost predicate Valid()
      reads this
    {
      Canonical(edges)
    }

    /** A fresh database file: three empty tables. */
    constructor ()
      ensures Valid()
      ensures nodes == map[] && edges == map[] && segs == map[]
    {
      nodes := map[];
      edges := map[];
      segs := map[];
    }

    /** add_nodes: a plain INSERT of every entry, dated `now` unless the entry has
        a date. A nid that is already stored (or repeated) raises, and the
        uncommitted rows of the batch are discarded with the connection. */
    method AddNodes(batch: seq<NodeIn>, now: Date) returns (ok: bool)
      requires Valid()
      modifies this
      ensures Valid()
      ensures ok <==> InsertNodes(old(nodes), batch, now).Some?
      ensures nodes == if ok then InsertNodes(old(nodes), batch, now).value else old(nodes)
      ensures edges == old(edges) && segs == old(segs)
    {
      var t := nodes;
      var i := 0;
      while i < |batch|
        invariant 0 <= i <= |batch|
        invariant InsertNodes(nodes, batch, now) == InsertNodes(t, batch[i..], now)
      {
        assert batch[i..][1..] == batch[i + 1..];
        if batch[i].nid in t {
          return false;
        }
        t := t[batch[i].nid := NodeEntry(batch[i], now)];
        i := i + 1;
      }
      nodes := t;
      ok := true;
    }

    /** add_edges: every entry is stored with the smaller id first, by INSERT OR
        IGNORE, so a pair that is already stored keeps its row. */
    method AddEdges(batch: seq<EdgeIn>, now: Date)
      requires Valid()
      modifies this
      ensures Valid()
      ensures edges == InsertOrIgnore(old(edges), batch, now)
      ensures nodes == old(nodes) && segs == old(segs)
    {
      var t := edges;
      var i := 0;
      while i < |batch|
        invariant 0 <= i <= |batch|
        invariant Canonical(t)
        invariant InsertOrIgnore(edges, batch, now) == InsertOrIgnore(t, batch[i..], now)
      {
        assert batch[i..][1..] == batch[i + 1..];
        var src, dst := batch[i].src, batch[i].dst;
        if src > dst {
          src, dst := dst, src;
        }
        if (src, dst) !in t {
          t := t[(src, dst) := EdgeRow(batch[i].creator, DateOr(batch[i].date, now))];
        }
        i := i + 1;
      }
      edges := t;
    }

    /** read_nodes: every row exactly once, in increasing nid order. */
    method ReadNodes() returns (rows: seq<(int, NodeRow)>)
      ensures forall i, j :: 0 <= i < j < |rows| ==> rows[i].0 < rows[j].0
      ensures forall i :: 0 <= i < |rows| ==> rows[i].0 in nodes && rows[i].1 == nodes[rows[i].0]
      ensures Firsts(rows) == nodes.Keys
    {
      rows := SortedRows(nodes);
    }

    /** read_edges: every row whose creator passes the filter, each exactly once. */
    method ReadEdges(creator: Option<string>) returns (rows: seq<((int, int), EdgeRow)>)
      ensures forall i, j :: 0 <= i < j < |rows| ==> rows[i].0 != rows[j].0
      ensures forall i :: 0 <= i < |rows| ==> rows[i].0 in edges && rows[i].1 == edges[rows[i].0]
      ensures Firsts(rows) == set p | p in edges && Selected(edges[p], creator)
    {
      rows := SelectedRows(edges, creator);
    }

    /** delete_nodes: the listed rows go, and with them every edge that touches one. */
    method DeleteNodes(nids: seq<int>)
      requires Valid()
      modifies this
      ensures Valid()
      ensures nodes == DropNodes(old(nodes), nids)
      ensures edges == DropIncident(old(edges), nids)
      ensures segs == old(segs)
    {
      nodes := DropNodes(nodes, nids);
      edges := DropIncident(edges, nids);
    }

    /** delete_edges: each pair is canonicalised and its row, if any, removed. */
    method DeleteEdges(pairs: seq<(int, int)>)
      requires Valid()
      modifies this
      ensures Valid()
      ensures edges == DropPairs(old(edges), pairs)
      ensures nodes == old(nodes) && segs == old(segs)
    {
      var i := 0;
      while i < |pairs|
        invariant 0 <= i <= |pairs|
        invariant Canonical(edges) && nodes == old(nodes) && segs == old(segs)
        invariant edges == old(edges) - PairKeys(pairs[..i])
      {
        var src, dst := pairs[i].0, pairs[i].1;
        if src > dst {
          src, dst := dst, src;
        }
        assert PairKeys(pairs[..i + 1]) == PairKeys(pairs[..i]) + {(src, dst)} by {
          assert pairs[..i + 1][i] == pairs[i];
          forall q | q in PairKeys(pairs[..i + 1]) ensures q in PairKeys(pairs[..i]) + {(src, dst)} {
            var j :| 0 <= j < i + 1 && Canon(pairs[..i + 1][j].0, pairs[..i + 1][j].1) == q;
            if j < i { assert pairs[..i][j] == pairs[..i + 1][j]; }
          }
          forall q | q in PairKeys(pairs[..i]) ensures q in PairKeys(pairs[..i + 1]) {
            var j :| 0 <= j < i && Canon(pairs[..i][j].0, pairs[..i][j].1) == q;
            assert pairs[..i + 1][j] == pairs[..i][j];
          }
        }
        edges := edges - {(src, dst)};
        i := i + 1;
      }
      assert pairs[..|pairs|] == pairs;
    }

    /** update_nodes as its statement is meant to run: with some field supplied and a
        non-empty list, the listed rows where a supplied column is NULL or differs
        take the supplied values and the date (the call-time one when none is given);
        otherwise nothing happens. The code binds its parameters out of placeholder
        order; Binding models that statement and proves this is what the placeholder
        order gives (Binding.InOrderIsIntended). */
    method UpdateNodes(nids: seq<int>, f: Fields, date: Option<Date>, now: Date)
      requires Valid()
      modifies this
      ensures Valid()
      ensures nodes == EmbeddedUpdate(old(nodes), nids, f, DateOr(date, now))
      ensures edges == old(edges) && segs == old(segs)
    {
      if NoneSupplied(f) || nids == [] {
        return;
      }
      var d := DateOr(date, now);
      nodes := map k | k in nodes :: if k in nids && EmbeddedWhere(nodes[k], f) then Assign(nodes[k], f, d) else nodes[k];
    }

    /** check_node under the intended update: the node is marked checked (1); it is
        redated only if it was not. As written the statement matches no row
        (Binding.CheckNodeMatchesNothing). */
    method CheckNode(nid: int, date: Option<Date>, now: Date)
      requires Valid()
      modifies this
      ensures Valid()
      ensures nodes == EmbeddedUpdate(old(nodes), [nid], CheckedOnly(1), DateOr(date, now))
      ensures nodes.Keys == old(nodes).Keys
      ensures nid in nodes ==> nodes[nid].checked == Some(1)
      ensures nid in nodes && old(nodes)[nid].checked == Some(1) ==> nodes[nid] == old(nodes)[nid]
      ensures forall k :: k in nodes && k != nid ==> nodes[k] == old(nodes)[k]
      ensures edges == old(edges) && segs == old(segs)
    {
      UpdateNodes([nid], CheckedOnly(1), date, now);
      EmbeddedUpdateChangeOnly(old(nodes), [nid], CheckedOnly(1), DateOr(date, now));
    }

    /** uncheck_nodes under the intended update: every listed node is marked
        unchecked (-1). As written only nids before the last can change
        (Binding.UncheckPairAsWritten). */
    method UncheckNodes(nids: seq<int>, date: Option<Date>, now: Date)
      requires Valid()
      modifies this
      ensures Valid()
      ensures nodes == EmbeddedUpdate(old(nodes), nids, CheckedOnly(-1), DateOr(date, now))
      ensures nodes.Keys == old(nodes).Keys
      ensures forall k :: k in nodes && k in nids ==> nodes[k].checked == Some(-1)
      ensures forall k :: k in nodes && k !in nids ==> nodes[k] == old(nodes)[k]
      ensures edges == old(edges) && segs == old(segs)
    {
      UpdateNodes(nids, CheckedOnly(-1), date, now);
      EmbeddedUpdateChangeOnly(old(nodes), nids, CheckedOnly(-1), DateOr(date, now));
    }

    /** get_max_nid: the largest nid, or 0 when the table is empty. */
    method GetMaxNid() returns (m: int)
      ensures IsMaxOrZero(nodes.Keys, m)
      ensures m == MaxOrZero(nodes.Keys)
    {
      m := MaxKey(nodes.Keys);
    }

    /** read_nid_within_roi: the nids of the nodes with offset <= coord <= offset +
        size on all three axes (bounds included), each once. */
    method ReadNidWithinRoi(roi: seq<int>) returns (nids: seq<int>)
      requires |roi| >= 3
      ensures forall i, j :: 0 <= i < j < |nids| ==> nids[i] != nids[j]
      ensures forall k :: k in nids <==> k in nodes && InEmbeddedBox(nodes[k].coord, roi)
    {
      nids := [];
      var rest := nodes.Keys;
      while rest != {}
        invariant rest <= nodes.Keys
        invariant forall i, j :: 0 <= i < j < |nids| ==> nids[i] != nids[j]
        invariant forall k :: k in nids ==> k in nodes && k !in rest && InEmbeddedBox(nodes[k].coord, roi)
        invariant forall k :: k in nodes && k !in rest && InEmbeddedBox(nodes[k].coord, roi) ==> k in nids
        decreases |rest|
      {
        NonEmptyHasElement(rest);
        var k :| k in rest;
        if InEmbeddedBox(nodes[k].coord, roi) {
          nids := nids + [k];
        }
        rest := rest - {k};
      }
    }

    /** The tables segs2db is meant to leave: the segments numbered after the
        largest sid, their sampled points as nodes numbered after the largest nid
        (dated by add_nodes' clock reading), and the chains as edges (dated by
        add_edges' reading). The node insert cannot fail: every new nid is above
        the largest stored one. */
    method Segs2Db(batch: seq<Seg>, nodesNow: Date, edgesNow: Date)
      requires Valid()
      modifies this
      ensures Valid()
      ensures segs == old(segs) + Numbered(batch, MaxOrZero(old(segs).Keys))
      ensures InsertNodes(old(nodes), SegNodes(batch, MaxOrZero(old(nodes).Keys)), nodesNow).Some?
      ensures nodes == InsertNodes(old(nodes), SegNodes(batch, MaxOrZero(old(nodes).Keys)), nodesNow).value
      ensures edges == InsertOrIgnore(old(edges), SegEdges(batch, MaxOrZero(old(nodes).Keys)), edgesNow)
    {
      InsertSegRows(batch);
      var maxNid := GetMaxNid();
      var ns, es := SegLists(batch, maxNid);
      SegNidsFresh(batch, maxNid, nodes, nodesNow);
      var ok := AddNodes(ns, nodesNow);
      AddEdges(es, edgesNow);
    }

    /** The first loop of segs2db: one segs row per segment, sids counting up
        from the largest stored one. */
    method InsertSegRows(batch: seq<Seg>)
      modifies this
      ensures segs == old(segs) + Numbered(batch, MaxOrZero(old(segs).Keys))
      ensures nodes == old(nodes) && edges == old(edges)
    {
      var maxSid := MaxKey(segs.Keys);
      var sid := maxSid;
      var i := 0;
      while i < |batch|
        invariant 0 <= i <= |batch| && sid == maxSid + i
        invariant segs == old(segs) + Numbered(batch[..i], maxSid)
        invariant nodes == old(nodes) && edges == old(edges)
      {
        assert Init(batch[..i + 1]) == batch[..i];
        sid := sid + 1;
        segs := segs[sid := batch[i]];
        i := i + 1;
      }
      assert batch[..|batch|] == batch;
    }

    /** segs2db as written: the segs rows go through a connection that is never
        committed, and that connection's open write transaction keeps add_nodes'
        own connection from inserting. A batch with a sampled point therefore ends
        in an error and leaves every table as it was; a batch without one ends
        normally but still leaves the segs table unchanged. */
    method Segs2DbAsWritten(batch: seq<Seg>) returns (ok: bool)
      ensures ok <==> PointCount(batch) == 0
      ensures nodes == old(nodes) && edges == old(edges) && segs == old(segs)
    {
      var maxSid := MaxKey(segs.Keys);
      var pending := NumberSegs(batch, maxSid);  // never committed
      var maxNid := GetMaxNid();
      var ns, es := SegLists(batch, maxNid);
      SegNodesNumbering(batch, maxNid);
      ok := ns == [];
    }
  }
}
