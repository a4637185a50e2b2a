/** The managed store: the same three tables kept by a DataJoint schema on a
    database server. Edges carry two foreign keys into the nodes table, inserts
    reject duplicate keys instead of skipping them, and the update filter is a
    conjunction. A library error that the source catches is the `fault`
    parameter of the operation that catches it. */
module DataJointIO {
  import opened Records
  import opened Tables
  import opened Segments

  /** The foreign keys of the edges table: both endpoints of every edge are nodes. */
  ghost predicate EndpointsStored(e: EdgeTable, nids: set<int>)
  {
    forall p :: p in e ==> p.0 in nids && p.1 in nids
  }

  /** `MAX(key)` as segs2db and get_max_nid read it: 0 for an empty table and
      also when the library reports an error. */
  ghost function MaxOrZeroUnless(keys: set<int>, fault: bool): int
  {
    if fault then 0 else MaxOrZero(keys)
  }

  class DataJointStore {
    var nodes: NodeTable
    var edges: EdgeTable
    var segs: SegTable

    ghost predicate Valid()
      reads this
    {
      Canonical(edges) && EndpointsStored(edges, nodes.Keys)
    }

    /** init_db on an empty schema: three empty tables. */
    constructor ()
      ensures Valid()
      ensures nodes == map[] && edges == map[] && segs == map[]
    {
      nodes := map[];
      edges := map[];
      segs := map[];
    }

    /** add_nodes: one insert of the whole batch (none for an empty batch); a
        duplicate nid rejects the insert, and the error reaches the caller. */
    method AddNodes(batch: seq<NodeIn>, now: Date) returns (ok: bool)
      requires Valid()
      modifies this
      ensures Valid()
      ensures ok <==> InsertNodes(old(nodes), batch, now).Some?
      ensures nodes == if ok then InsertNodes(old(nodes), batch, now).value else old(nodes)
      ensures edges == old(edges) && segs == old(segs)
    {
      if batch == [] {
        return true;
      }
      var t := nodes;
      var i := 0;
      while i < |batch|
        invariant 0 <= i <= |batch|
        invariant InsertNodes(nodes, batch, now) == InsertNodes(t, batch[i..], now)
      {
        assert batch[i..][1..] == batch[i + 1..];
        if batch[i].nid in t {
          return false;
        }
        t := t[batch[i].nid := NodeEntry(batch[i], now)];
        i := i + 1;
      }
      InsertNodesSpec(nodes, batch, now);
      nodes := t;
      ok := true;
    }

    /** add_edges: each entry is canonicalised and the batch inserted at once; a
        pair already stored or repeated, or an endpoint that is not a node,
        rejects the whole insert, and the error reaches the caller. */
    method AddEdges(batch: seq<EdgeIn>, now: Date) returns (ok: bool)
      requires Valid()
      modifies this
      ensures Valid()
      ensures ok <==> InsertEdgesStrict(old(edges), old(nodes).Keys, batch, now).Some?
      ensures edges == if ok then InsertEdgesStrict(old(edges), old(nodes).Keys, batch, now).value else old(edges)
      ensures nodes == old(nodes) && segs == old(segs)
    {
      if batch == [] {
        return true;
      }
      var t := edges;
      var i := 0;
      while i < |batch|
        invariant 0 <= i <= |batch|
        invariant InsertEdgesStrict(edges, nodes.Keys, batch, now) == InsertEdgesStrict(t, nodes.Keys, batch[i..], now)
      {
        assert batch[i..][1..] == batch[i + 1..];
        var src, dst := batch[i].src, batch[i].dst;
        if src > dst {
          src, dst := dst, src;
        }
        if (src, dst) in t || src !in nodes || dst !in nodes {
          return false;
        }
        t := t[(src, dst) := EdgeRow(batch[i].creator, DateOr(batch[i].date, now))];
        i := i + 1;
      }
      InsertEdgesStrictSpec(edges, nodes.Keys, batch, now);
      forall p | p in t ensures p.0 <= p.1 && p.0 in nodes && p.1 in nodes {
        if p !in edges {
          var j :| 0 <= j < |batch| && EdgeKey(batch[j]) == p;
        }
      }
      edges := t;
      ok := true;
    }

    /** delete_edges: the rows of the canonicalised pairs are deleted together;
        a library error is reported as false and deletes nothing. */
    method DeleteEdges(pairs: seq<(int, int)>, fault: bool) returns (ok: bool)
      requires Valid()
      modifies this
      ensures Valid()
      ensures ok == !fault
      ensures edges == if fault then old(edges) else DropPairs(old(edges), pairs)
      ensures nodes == old(nodes) && segs == old(segs)
    {
      var keys: set<(int, int)> := {};
      var i := 0;
      while i < |pairs|
        invariant 0 <= i <= |pairs|
        invariant keys == PairKeys(pairs[..i])
      {
        var src, dst := pairs[i].0, pairs[i].1;
        if src > dst {
          src, dst := dst, src;
        }
        assert PairKeys(pairs[..i + 1]) == PairKeys(pairs[..i]) + {(src, dst)} by {
          assert pairs[..i + 1][i] == pairs[i];
          forall q | q in PairKeys(pairs[..i + 1]) ensures q in PairKeys(pairs[..i]) + {(src, dst)} {
            var j :| 0 <= j < i + 1 && Canon(pairs[..i + 1][j].0, pairs[..i + 1][j].1) == q;
            if j < i { assert pairs[..i][j] == pairs[..i + 1][j]; }
          }
          forall q | q in PairKeys(pairs[..i]) ensures q in PairKeys(pairs[..i + 1]) {
            var j :| 0 <= j < i && Canon(pairs[..i][j].0, pairs[..i][j].1) == q;
            assert pairs[..i + 1][j] == pairs[..i][j];
          }
        }
        keys := keys + {(src, dst)};
        i := i + 1;
      }
      assert pairs[..|pairs|] == pairs;
      if fault {
        return false;
      }
      edges := edges - keys;
      ok := true;
    }

    /** update_nodes: the listed rows whose every supplied column holds a value
        other than the supplied one take the supplied values and the date (the
        call-time one when none is given). Nothing returns early, so with no field
        supplied every listed row is redated. A library error is reported as false
        and updates nothing. */
    method UpdateNodes(nids: seq<int>, f: Fields, date: Option<Date>, now: Date, fault: bool) returns (ok: bool)
      requires Valid()
      modifies this
      ensures Valid()
      ensures ok == !fault
      ensures nodes == if fault then old(nodes) else ManagedUpdate(old(nodes), nids, f, DateOr(date, now))
      ensures edges == old(edges) && segs == old(segs)
    {
      if fault {
        return false;
      }
      var d := DateOr(date, now);
      nodes := map k | k in nodes :: if k in nids && ManagedWhere(nodes[k], f) then Assign(nodes[k], f, d) else nodes[k];
      ok := true;
    }

    /** check_node: the node is marked checked (1) unless its checked column is
        NULL, which `!=` never matches; every other row is untouched. */
    method CheckNode(nid: int, date: Option<Date>, now: Date, fault: bool) returns (ok: bool)
      requires Valid()
      modifies this
      ensures Valid()
      ensures ok == !fault
      ensures nodes == if fault then old(nodes) else ManagedUpdate(old(nodes), [nid], CheckedOnly(1), DateOr(date, now))
      ensures nodes.Keys == old(nodes).Keys
      ensures !fault && nid in nodes && old(nodes)[nid].checked.Some? ==> nodes[nid].checked == Some(1)
      ensures nid in nodes && old(nodes)[nid].checked.None? ==> nodes[nid] == old(nodes)[nid]
      ensures forall k :: k in nodes && k != nid ==> nodes[k] == old(nodes)[k]
      ensures edges == old(edges) && segs == old(segs)
    {
      ok := UpdateNodes([nid], CheckedOnly(1), date, now, fault);
    }

    /** uncheck_node: every listed node whose checked column is not NULL is marked
        unchecked (-1). */
    method UncheckNode(nids: seq<int>, date: Option<Date>, now: Date, fault: bool) returns (ok: bool)
      requires Valid()
      modifies this
      ensures Valid()
      ensures ok == !fault
      ensures nodes == if fault then old(nodes) else ManagedUpdate(old(nodes), nids, CheckedOnly(-1), DateOr(date, now))
      ensures nodes.Keys == old(nodes).Keys
      ensures forall k :: !fault && k in nodes && k in nids && old(nodes)[k].checked.Some? ==> nodes[k].checked == Some(-1)
      ensures forall k :: k in nodes && k !in nids ==> nodes[k] == old(nodes)[k]
      ensures edges == old(edges) && segs == old(segs)
    {
      ok := UpdateNodes(nids, CheckedOnly(-1), date, now, fault);
    }

    /** get_max_nid: the largest nid, or 0 for an empty table or a library error. */
    method GetMaxNid(fault: bool) returns (m: int)
      ensures fault ==> m == 0
      ensures !fault ==> IsMaxOrZero(nodes.Keys, m)
      ensures m == MaxOrZeroUnless(nodes.Keys, fault)
    {
      if fault {
        return 0;
      }
      m := MaxKey(nodes.Keys);
    }

    /** read_nid_within_roi: the nids of the nodes with offset <= coord <= offset +
        size - 1 on all three axes (`between` includes both ends), each once. */
    method ReadNidWithinRoi(roi: seq<int>) returns (nids: seq<int>)
      requires |roi| >= 3
      ensures forall i, j :: 0 <= i < j < |nids| ==> nids[i] != nids[j]
      ensures forall k :: k in nids <==> k in nodes && InManagedBox(nodes[k].coord, roi)
    {
      nids := [];
      var rest := nodes.Keys;
      while rest != {}
        invariant rest <= nodes.Keys
        invariant forall i, j :: 0 <= i < j < |nids| ==> nids[i] != nids[j]
        invariant forall k :: k in nids ==> k in nodes && k !in rest && InManagedBox(nodes[k].coord, roi)
        invariant forall k :: k in nodes && k !in rest && InManagedBox(nodes[k].coord, roi) ==> k in nids
        decreases |rest|
      {
        NonEmptyHasElement(rest);
        var k :| k in rest;
        if InManagedBox(nodes[k].coord, roi) {
          nids := nids + [k];
        }
        rest := rest - {k};
      }
    }

    /** segs2db: the segments are numbered after the largest sid (after 0 when
        reading it fails) and inserted together, which a sid clash rejects; then the
        sampled points are inserted as nodes numbered after the largest nid (after
        0 when reading it fails), which a nid clash rejects with the segments
        already stored; then the chain edges, which always go in once their nodes
        did. An error reaches the caller, shown here as ok == false. */
    method Segs2Db(batch: seq<Seg>, sidFault: bool, nidFault: bool, nodesNow: Date, edgesNow: Date) returns (ok: bool)
      requires Valid()
      modifies this
      ensures Valid()
      ensures var sids := Numbered(batch, MaxOrZeroUnless(old(segs).Keys, sidFault));
              segs == if sids.Keys !! old(segs).Keys then old(segs) + sids else old(segs)
      ensures var sids := Numbered(batch, MaxOrZeroUnless(old(segs).Keys, sidFault));
              var ns := SegNodes(batch, MaxOrZeroUnless(old(nodes).Keys, nidFault));
              ok <==> sids.Keys !! old(segs).Keys && InsertNodes(old(nodes), ns, nodesNow).Some?
      ensures var base := MaxOrZeroUnless(old(nodes).Keys, nidFault);
              ok ==> && nodes == InsertNodes(old(nodes), SegNodes(batch, base), nodesNow).value
                     && InsertEdgesStrict(old(edges), nodes.Keys, SegEdges(batch, base), edgesNow).Some?
                     && edges == InsertEdgesStrict(old(edges), nodes.Keys, SegEdges(batch, base), edgesNow).value
      ensures !ok ==> nodes == old(nodes) && edges == old(edges)
      ensures !sidFault && !nidFault ==> ok
    {
      var maxSid := 0;
      if !sidFault {
        maxSid := MaxKey(segs.Keys);
      }
      var entries := NumberSegs(batch, maxSid);
      if !sidFault {
        NumberedSpec(batch, maxSid);
        forall k | k in entries.Keys ensures k !in segs.Keys {
          assert k > maxSid;
        }
      }
      if !(entries.Keys !! segs.Keys) {
        return false;
      }
      segs := segs + entries;

      var maxNid := GetMaxNid(nidFault);
      var ns, es := SegLists(batch, maxNid);
      if !nidFault {
        SegNidsFresh(batch, maxNid, nodes, nodesNow);
      }
      ghost var nodes0, edges0 := nodes, edges;
      ok := AddNodes(ns, nodesNow);
      if !ok {
        return false;
      }
      ChainGoesIn(batch, maxNid, nodes0, edges0, nodesNow, edgesNow);
      var added := AddEdges(es, edgesNow);
    }
  }

  /** Once the chain's nodes are inserted, the managed store accepts its edges: the
      new nids were not nodes before, so no stored edge touches them. */
  lemma ChainGoesIn(batch: seq<Seg>, base: int, n0: NodeTable, e0: EdgeTable, nodesNow: Date, edgesNow: Date)
    requires EndpointsStored(e0, n0.Keys)
    requires InsertNodes(n0, SegNodes(batch, base), nodesNow).Some?
    ensures InsertEdgesStrict(e0, InsertNodes(n0, SegNodes(batch, base), nodesNow).value.Keys, SegEdges(batch, base), edgesNow).Some?
  {
    var ns := SegNodes(batch, base);
    var n1 := InsertNodes(n0, ns, nodesNow).value;
    SegNodesNumbering(batch, base);
    InsertNodesSpec(n0, ns, nodesNow);
    forall v | v in Interval(base + 1, PointCount(batch)) ensures v in n1.Keys && v !in n0 {
      assert ns[v - base - 1].nid == v;
    }
    SegEdgesInsertable(batch, base, e0, n1.Keys, edgesNow);
  }
}
