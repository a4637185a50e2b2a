/** The three tables as values and the effect of each write on them, shared by
    the embedded (SQLite) store and the managed (DataJoint) store. Each store
    method is proved to leave its tables equal to one of these functions of the
    old tables; the lemmas here say what those functions mean. */
module Tables {
  import opened Records

  type NodeTable = map<int, NodeRow>
  type EdgeTable = map<(int, int), EdgeRow>
  type SegTable = map<int, Seg>

  /** Every stored pair has src <= dst (the CHECK constraint of the edges table). */
  ghost predicate Canonical(e: EdgeTable)
  {
    forall p :: p in e ==> p.0 <= p.1
  }

  // ---------------------------------------------------------------- entries

  /** The row an add_nodes entry becomes: the coordinate split into x, y, z and
      the call-time date when the entry has none. */
  function NodeEntry(n: NodeIn, now: Date): NodeRow
  {
    NodeRow(n.coord, n.creator, n.kind, n.checked, n.status, DateOr(n.date, now))
  }

  /** The stored pair of an add_edges entry. */
  function EdgeKey(e: EdgeIn): (int, int)
  {
    Canon(e.src, e.dst)
  }

  /** The non-key columns of an add_edges entry. */
  function EdgeEntry(e: EdgeIn, now: Date): EdgeRow
  {
    EdgeRow(e.creator, DateOr(e.date, now))
  }

  function Nids(b: seq<NodeIn>): set<int>
  {
    set i | 0 <= i < |b| :: b[i].nid
  }

  ghost predicate DistinctNids(b: seq<NodeIn>)
  {
    forall i, j :: 0 <= i < j < |b| ==> b[i].nid != b[j].nid
  }

  function EdgeKeys(b: seq<EdgeIn>): set<(int, int)>
  {
    set i | 0 <= i < |b| :: EdgeKey(b[i])
  }

  // ------------------------------------------------------------ node insert

  /** A plain INSERT of the batch into the nodes table (nid is the primary key):
      the whole batch or, at the first clashing nid, nothing. */
  function InsertNodes(t: NodeTable, b: seq<NodeIn>, now: Date): Option<NodeTable>
    decreases |b|
  {
    if b == [] then Some(t)
    else if b[0].nid in t then None
    else InsertNodes(t[b[0].nid := NodeEntry(b[0], now)], b[1..], now)
  }

  /** The insert succeeds exactly when the batch's nids are distinct and new; it then
      adds one row per entry, dated with the entry's own date or `now`, and keeps
      every old row. */
  lemma {:induction false} InsertNodesSpec(t: NodeTable, b: seq<NodeIn>, now: Date)
    ensures InsertNodes(t, b, now).Some? <==>
              DistinctNids(b) && forall i :: 0 <= i < |b| ==> b[i].nid !in t
    ensures InsertNodes(t, b, now).Some? ==>
              var t' := InsertNodes(t, b, now).value;
              && t'.Keys == t.Keys + Nids(b)
              && (forall k :: k in t ==> t'[k] == t[k])
              && (forall i :: 0 <= i < |b| ==> t'[b[i].nid] == NodeEntry(b[i], now))
    decreases |b|
  {
    if b != [] {
      var t1 := t[b[0].nid := NodeEntry(b[0], now)];
      InsertNodesSpec(t1, b[1..], now);
      if InsertNodes(t, b, now).Some? {
        var t' := InsertNodes(t, b, now).value;
        assert t' == InsertNodes(t1, b[1..], now).value;
        assert Nids(b) == {b[0].nid} + Nids(b[1..]) by {
          forall k | k in Nids(b) ensures k in {b[0].nid} + Nids(b[1..]) {
            var i :| 0 <= i < |b| && b[i].nid == k;
            if i > 0 { assert b[1..][i - 1].nid == k; }
          }
        }
        forall i | 0 <= i < |b| ensures t'[b[i].nid] == NodeEntry(b[i], now) {
          if i > 0 { assert b[1..][i - 1] == b[i]; }
        }
        forall i, j | 0 <= i < j < |b| ensures b[i].nid != b[j].nid {
          assert b[1..][j - 1] == b[j];
          if i > 0 { assert b[1..][i - 1] == b[i]; }
        }
      } else if b[0].nid !in t {
        // the rest of the batch fails on t1: a repeated nid, or one already in t1
        if !DistinctNids(b[1..]) {
          var i, j :| 0 <= i < j < |b[1..]| && b[1..][i].nid == b[1..][j].nid;
          assert b[i + 1].nid == b[j + 1].nid;
        } else {
          var i :| 0 <= i < |b[1..]| && b[1..][i].nid in t1;
          assert b[i + 1].nid in t1;
          assert b[i + 1].nid == b[0].nid || b[i + 1].nid in t;
        }
      }
    } else {
      assert Nids(b) == {};
    }
  }

  // ------------------------------------------------------------ edge insert

  /** INSERT OR IGNORE of the batch into the edges table: each entry is
      canonicalised, and one whose pair is already stored (earlier in the table or
      earlier in the batch) is skipped, so the first row for a pair wins. */
  function InsertOrIgnore(t: EdgeTable, b: seq<EdgeIn>, now: Date): EdgeTable
    decreases |b|
  {
    if b == [] then t
    else
      var k := EdgeKey(b[0]);
      InsertOrIgnore(if k in t then t else t[k := EdgeEntry(b[0], now)], b[1..], now)
  }

  /** The first entry of the batch that names pair k, if its index is i. */
  ghost predicate FirstFor(b: seq<EdgeIn>, i: int)
    requires 0 <= i < |b|
  {
    forall j :: 0 <= j < i ==> EdgeKey(b[j]) != EdgeKey(b[i])
  }

  /** INSERT OR IGNORE adds exactly the batch's canonical pairs, keeps every row it
      had (creator and date included), and a new pair gets the columns of the
      first entry that names it. */
  lemma {:induction false} InsertOrIgnoreSpec(t: EdgeTable, b: seq<EdgeIn>, now: Date)
    ensures InsertOrIgnore(t, b, now).Keys == t.Keys + EdgeKeys(b)
    ensures forall k :: k in t ==> InsertOrIgnore(t, b, now)[k] == t[k]
    ensures forall i :: 0 <= i < |b| && EdgeKey(b[i]) !in t && FirstFor(b, i) ==>
              InsertOrIgnore(t, b, now)[EdgeKey(b[i])] == EdgeEntry(b[i], now)
    decreases |b|
  {
    if b != [] {
      var k := EdgeKey(b[0]);
      var t1 := if k in t then t else t[k := EdgeEntry(b[0], now)];
      InsertOrIgnoreSpec(t1, b[1..], now);
      assert EdgeKeys(b) == {k} + EdgeKeys(b[1..]) by {
        forall p | p in EdgeKeys(b) ensures p in {k} + EdgeKeys(b[1..]) {
          var i :| 0 <= i < |b| && EdgeKey(b[i]) == p;
          if i > 0 { assert EdgeKey(b[1..][i - 1]) == p; }
        }
      }
      forall i | 0 <= i < |b| && EdgeKey(b[i]) !in t && FirstFor(b, i)
        ensures InsertOrIgnore(t, b, now)[EdgeKey(b[i])] == EdgeEntry(b[i], now)
      {
        if i > 0 {
          assert b[1..][i - 1] == b[i];
          assert EdgeKey(b[i]) != k;
          assert FirstFor(b[1..], i - 1) by {
            forall j | 0 <= j < i - 1 ensures EdgeKey(b[1..][j]) != EdgeKey(b[1..][i - 1]) {
              assert b[1..][j] == b[j + 1];
            }
          }
        }
      }
    } else {
      assert EdgeKeys(b) == {};
    }
  }

  /** The keys part of InsertOrIgnoreSpec on its own. */
  lemma InsertOrIgnoreKeys(t: EdgeTable, b: seq<EdgeIn>, now: Date)
    ensures InsertOrIgnore(t, b, now).Keys == t.Keys + EdgeKeys(b)
  {
    InsertOrIgnoreSpec(t, b, now);
  }

  /** Re-inserting pairs that are all stored, in either orientation, leaves the
      edges table as it was. */
  lemma {:induction false} ReinsertIsNoOp(t: EdgeTable, b: seq<EdgeIn>, now: Date)
    requires forall i :: 0 <= i < |b| ==> Canon(b[i].src, b[i].dst) in t || Canon(b[i].dst, b[i].src) in t
    ensures InsertOrIgnore(t, b, now) == t
    decreases |b|
  {
    if b != [] {
      CanonSymmetric(b[0].src, b[0].dst);
      assert EdgeKey(b[0]) in t;
      forall i | 0 <= i < |b[1..]|
        ensures Canon(b[1..][i].src, b[1..][i].dst) in t || Canon(b[1..][i].dst, b[1..][i].src) in t
      {
        assert b[1..][i] == b[i + 1];
      }
      ReinsertIsNoOp(t, b[1..], now);
    }
  }

  /** The managed store's insert: the batch is canonicalised, and the whole insert
      fails if a pair is already stored or repeated in the batch (primary key), or
      names a node that does not exist (the two foreign keys). */
  function InsertEdgesStrict(t: EdgeTable, nodes: set<int>, b: seq<EdgeIn>, now: Date): Option<EdgeTable>
    decreases |b|
  {
    if b == [] then Some(t)
    else
      var k := EdgeKey(b[0]);
      if k in t || k.0 !in nodes || k.1 !in nodes then None
      else InsertEdgesStrict(t[k := EdgeEntry(b[0], now)], nodes, b[1..], now)
  }

  /** The keys of a batch: the first entry's and the rest's. */
  lemma EdgeKeysCons(b: seq<EdgeIn>)
    requires b != []
    ensures EdgeKeys(b) == {EdgeKey(b[0])} + EdgeKeys(b[1..])
  {
    forall p | p in EdgeKeys(b) ensures p in {EdgeKey(b[0])} + EdgeKeys(b[1..]) {
      var i :| 0 <= i < |b| && EdgeKey(b[i]) == p;
      if i > 0 { assert EdgeKey(b[1..][i - 1]) == p; }
    }
    forall p | p in EdgeKeys(b[1..]) ensures p in EdgeKeys(b) {
      var i :| 0 <= i < |b[1..]| && EdgeKey(b[1..][i]) == p;
      assert b[1..][i] == b[i + 1];
    }
  }

  /** What the managed insert demands of a batch: new pairs, existing endpoints,
      no pair named twice. */
  ghost predicate StrictInsertable(t: EdgeTable, nodes: set<int>, b: seq<EdgeIn>)
  {
    && (forall i :: 0 <= i < |b| ==> EdgeKey(b[i]) !in t)
    && (forall i :: 0 <= i < |b| ==> b[i].src in nodes && b[i].dst in nodes)
    && (forall i, j :: 0 <= i < j < |b| ==> EdgeKey(b[i]) != EdgeKey(b[j]))
  }

  /** A batch is insertable when its first entry is, and the rest is once that
      entry is stored. */
  lemma StrictInsertableCons(t: EdgeTable, nodes: set<int>, b: seq<EdgeIn>, r: EdgeRow)
    requires b != []
    ensures StrictInsertable(t, nodes, b) <==>
              && EdgeKey(b[0]) !in t && EdgeKey(b[0]).0 in nodes && EdgeKey(b[0]).1 in nodes
              && StrictInsertable(t[EdgeKey(b[0]) := r], nodes, b[1..])
  {
    var k := EdgeKey(b[0]);
    var rest := b[1..];
    assert forall i :: 0 <= i < |rest| ==> rest[i] == b[i + 1];
    assert k.0 in nodes && k.1 in nodes <==> b[0].src in nodes && b[0].dst in nodes;
    if StrictInsertable(t, nodes, b) {
      forall i | 0 <= i < |rest| ensures EdgeKey(rest[i]) !in t[k := r] {
        assert EdgeKey(b[0]) != EdgeKey(b[i + 1]);
      }
    }
    if k !in t && k.0 in nodes && k.1 in nodes && StrictInsertable(t[k := r], nodes, rest) {
      forall i, j | 0 <= i < j < |b| ensures EdgeKey(b[i]) != EdgeKey(b[j]) {
        assert EdgeKey(rest[j - 1]) !in t[k := r];
      }
    }
  }

  /** The managed insert succeeds exactly when every pair is new, named once, and
      joins two existing nodes; it then adds one row per entry and keeps the rest. */
  lemma {:induction false} InsertEdgesStrictSpec(t: EdgeTable, nodes: set<int>, b: seq<EdgeIn>, now: Date)
    ensures InsertEdgesStrict(t, nodes, b, now).Some? <==> StrictInsertable(t, nodes, b)
    ensures InsertEdgesStrict(t, nodes, b, now).Some? ==>
              var t' := InsertEdgesStrict(t, nodes, b, now).value;
              && t'.Keys == t.Keys + EdgeKeys(b)
              && (forall k :: k in t ==> t'[k] == t[k])
              && (forall i :: 0 <= i < |b| ==> t'[EdgeKey(b[i])] == EdgeEntry(b[i], now))
    decreases |b|
  {
    if b != [] {
      var k := EdgeKey(b[0]);
      var t1 := t[k := EdgeEntry(b[0], now)];
      InsertEdgesStrictSpec(t1, nodes, b[1..], now);
      StrictInsertableCons(t, nodes, b, EdgeEntry(b[0], now));
      EdgeKeysCons(b);
      assert forall i :: 0 < i < |b| ==> b[1..][i - 1] == b[i];
    } else {
      assert EdgeKeys(b) == {};
    }
  }

  /** Where the two stores part ways: adding a pair that is already stored (in
      either orientation) is a no-op in the embedded store and a failed insert in
      the managed one. */
  lemma ReinsertEmbeddedVsManaged(t: EdgeTable, nodes: set<int>, e: EdgeIn, now: Date)
    requires Canon(e.dst, e.src) in t
    ensures InsertOrIgnore(t, [e], now) == t
    ensures InsertEdgesStrict(t, nodes, [e], now).None?
  {
    CanonSymmetric(e.src, e.dst);
  }

  // ---------------------------------------------------------------- deletes

  /** The nodes table after `DELETE FROM nodes WHERE nid IN nids`. */
  function DropNodes(t: NodeTable, nids: seq<int>): NodeTable
  {
    map k | k in t && k !in nids :: t[k]
  }

  /** The edges table after `DELETE FROM edges WHERE src IN nids OR dst IN nids`. */
  function DropIncident(e: EdgeTable, nids: seq<int>): EdgeTable
  {
    map p | p in e && p.0 !in nids && p.1 !in nids :: e[p]
  }

  /** Deleting the listed nids is deleting the first, then the rest. */
  lemma DropNodesCons(t: NodeTable, nids: seq<int>)
    requires nids != []
    ensures DropNodes(DropNodes(t, [nids[0]]), nids[1..]) == DropNodes(t, nids)
  {
    assert forall k :: k in nids <==> k == nids[0] || k in nids[1..];
  }

  /** Deleting the edges at the listed nids is deleting those at the first, then the rest. */
  lemma DropIncidentCons(e: EdgeTable, nids: seq<int>)
    requires nids != []
    ensures DropIncident(DropIncident(e, [nids[0]]), nids[1..]) == DropIncident(e, nids)
  {
    assert forall k :: k in nids <==> k == nids[0] || k in nids[1..];
  }

  /** The stored pairs that a list of (src, dst) pairs names after canonicalisation. */
  function PairKeys(pairs: seq<(int, int)>): set<(int, int)>
  {
    set i | 0 <= i < |pairs| :: Canon(pairs[i].0, pairs[i].1)
  }

  /** The first pair's key and the keys of the rest. */
  lemma PairKeysCons(pairs: seq<(int, int)>)
    requires pairs != []
    ensures PairKeys(pairs) == {Canon(pairs[0].0, pairs[0].1)} + PairKeys(pairs[1..])
  {
    forall q | q in PairKeys(pairs) ensures q in {Canon(pairs[0].0, pairs[0].1)} + PairKeys(pairs[1..]) {
      var i :| 0 <= i < |pairs| && Canon(pairs[i].0, pairs[i].1) == q;
      if i > 0 { assert pairs[1..][i - 1] == pairs[i]; }
    }
    forall q | q in PairKeys(pairs[1..]) ensures q in PairKeys(pairs) {
      var i :| 0 <= i < |pairs[1..]| && Canon(pairs[1..][i].0, pairs[1..][i].1) == q;
      assert pairs[1..][i] == pairs[i + 1];
    }
  }

  /** The edges table after deleting each canonicalised pair of the list. */
  function DropPairs(e: EdgeTable, pairs: seq<(int, int)>): EdgeTable
  {
    e - PairKeys(pairs)
  }

  /** The pairs of an edge batch, as delete_edges takes them. */
  function PairsOf(b: seq<EdgeIn>): (ps: seq<(int, int)>)
    ensures |ps| == |b|
    ensures forall i :: 0 <= i < |b| ==> ps[i] == (b[i].dst, b[i].src)
  {
    seq(|b|, i requires 0 <= i < |b| => (b[i].dst, b[i].src))
  }

  /** Round trip: deleting the pairs of a batch of new edges, even written the
      other way round, restores the edges table that preceded their insertion. */
  lemma AddThenDeleteEdges(t: EdgeTable, b: seq<EdgeIn>, now: Date)
    requires forall i :: 0 <= i < |b| ==> EdgeKey(b[i]) !in t
    ensures DropPairs(InsertOrIgnore(t, b, now), PairsOf(b)) == t
  {
    InsertOrIgnoreSpec(t, b, now);
    var after := InsertOrIgnore(t, b, now);
    assert PairKeys(PairsOf(b)) == EdgeKeys(b) by {
      forall p ensures p in PairKeys(PairsOf(b)) <==> p in EdgeKeys(b) {
        if p in PairKeys(PairsOf(b)) {
          var i :| 0 <= i < |b| && Canon(PairsOf(b)[i].0, PairsOf(b)[i].1) == p;
          CanonSymmetric(b[i].src, b[i].dst);
          assert EdgeKey(b[i]) == p;
        }
        if p in EdgeKeys(b) {
          var i :| 0 <= i < |b| && EdgeKey(b[i]) == p;
          CanonSymmetric(b[i].src, b[i].dst);
          assert Canon(PairsOf(b)[i].0, PairsOf(b)[i].1) == p;
        }
      }
    }
    assert DropPairs(after, PairsOf(b)).Keys == t.Keys;
  }

  // ---------------------------------------------------------------- updates

  /** No field was supplied to update_nodes. */
  predicate NoneSupplied(f: Fields)
  {
    f.creator.None? && f.kind.None? && f.checked.None? && f.status.None?
  }

  /** `(col IS NULL OR col != v)` for a supplied v; false when v is not supplied. */
  predicate NullOrDiffers<T(==)>(cur: Option<T>, v: Option<T>)
  {
    v.Some? && (cur.None? || cur.value != v.value)
  }

  /** The embedded store's WHERE: some supplied column is NULL or differs. */
  predicate EmbeddedWhere(r: NodeRow, f: Fields)
  {
    NullOrDiffers(r.creator, f.creator) || NullOrDiffers(r.kind, f.kind) ||
    NullOrDiffers(r.checked, f.checked) || NullOrDiffers(r.status, f.status)
  }

  /** One `{'!=': v}` entry of the managed store's filter, read as SQL `col != v`
      (not true of a NULL column); no entry at all when v is not supplied. */
  predicate NotEqualEntry<T(==)>(cur: Option<T>, v: Option<T>)
  {
    v.None? || (cur.Some? && cur.value != v.value)
  }

  /** The managed store's filter beyond `nid IN nids`: the conjunction of one `!=`
      entry per supplied field. */
  predicate ManagedWhere(r: NodeRow, f: Fields)
  {
    NotEqualEntry(r.creator, f.creator) && NotEqualEntry(r.kind, f.kind) &&
    NotEqualEntry(r.checked, f.checked) && NotEqualEntry(r.status, f.status)
  }

  /** The SET part: every supplied field and the date. */
  function Assign(r: NodeRow, f: Fields, date: Date): NodeRow
  {
    r.(creator := if f.creator.Some? then f.creator else r.creator,
       kind := if f.kind.Some? then f.kind else r.kind,
       checked := if f.checked.Some? then f.checked else r.checked,
       status := if f.status.Some? then f.status else r.status,
       date := date)
  }

  /** The embedded store's update_nodes: nothing when no field is supplied or the
      nid list is empty; otherwise the listed rows matching EmbeddedWhere get Assign. */
  function EmbeddedUpdate(t: NodeTable, nids: seq<int>, f: Fields, date: Date): NodeTable
  {
    if NoneSupplied(f) || nids == [] then t
    else map k | k in t :: if k in nids && EmbeddedWhere(t[k], f) then Assign(t[k], f, date) else t[k]
  }

  /** The managed store's update_nodes (no early return): the listed rows matching
      ManagedWhere get Assign. */
  function ManagedUpdate(t: NodeTable, nids: seq<int>, f: Fields, date: Date): NodeTable
  {
    map k | k in t :: if k in nids && ManagedWhere(t[k], f) then Assign(t[k], f, date) else t[k]
  }

  /** Change-only update in the embedded store: a row changes only if it is listed
      and some supplied field is NULL or differs; such a row then holds every
      supplied value and the new date, and every other row keeps its date. */
  lemma EmbeddedUpdateChangeOnly(t: NodeTable, nids: seq<int>, f: Fields, date: Date)
    ensures EmbeddedUpdate(t, nids, f, date).Keys == t.Keys
    ensures NoneSupplied(f) || nids == [] ==> EmbeddedUpdate(t, nids, f, date) == t
    ensures forall k :: k in t ==>
              var r := EmbeddedUpdate(t, nids, f, date)[k];
              if !NoneSupplied(f) && k in nids && EmbeddedWhere(t[k], f)
              then r == Assign(t[k], f, date) && r.date == date && !EmbeddedWhere(r, f)
              else r == t[k]
  {
  }

  /** Updating again with the same fields changes nothing, whatever the new date:
      every listed row already holds the supplied values. */
  lemma EmbeddedUpdateIdempotent(t: NodeTable, nids: seq<int>, f: Fields, d1: Date, d2: Date)
    ensures EmbeddedUpdate(EmbeddedUpdate(t, nids, f, d1), nids, f, d2) == EmbeddedUpdate(t, nids, f, d1)
  {
    var t1 := EmbeddedUpdate(t, nids, f, d1);
    if !NoneSupplied(f) && nids != [] {
      forall k | k in t1 && k in nids ensures !EmbeddedWhere(t1[k], f) {
        if EmbeddedWhere(t[k], f) {
          assert t1[k] == Assign(t[k], f, d1);
        } else {
          assert t1[k] == t[k];
        }
      }
      var t2 := EmbeddedUpdate(t1, nids, f, d2);
      assert t2.Keys == t1.Keys;
      forall k | k in t1 ensures t2[k] == t1[k] {
      }
    }
  }

  /** The managed update with no field supplied still rewrites the date of every
      listed row, where the embedded one does nothing. */
  lemma ManagedUpdateDatesEveryListedRow(t: NodeTable, nids: seq<int>, f: Fields, date: Date)
    requires NoneSupplied(f)
    ensures ManagedUpdate(t, nids, f, date).Keys == t.Keys
    ensures forall k :: k in t ==>
              ManagedUpdate(t, nids, f, date)[k] == if k in nids then t[k].(date := date) else t[k]
    ensures EmbeddedUpdate(t, nids, f, date) == t
  {
  }

  /** With at least one field supplied, the managed update is idempotent too: a
      rewritten row now equals every supplied value, and a listed row it skipped
      still equals one of them. */
  lemma ManagedUpdateIdempotent(t: NodeTable, nids: seq<int>, f: Fields, d1: Date, d2: Date)
    requires !NoneSupplied(f)
    ensures ManagedUpdate(ManagedUpdate(t, nids, f, d1), nids, f, d2) == ManagedUpdate(t, nids, f, d1)
  {
    var t1 := ManagedUpdate(t, nids, f, d1);
    forall k | k in t1 && k in nids ensures !ManagedWhere(t1[k], f) {
      if ManagedWhere(t[k], f) {
        assert t1[k] == Assign(t[k], f, d1);
      } else {
        assert t1[k] == t[k];
      }
    }
    var t2 := ManagedUpdate(t1, nids, f, d2);
    assert t2.Keys == t1.Keys;
    forall k | k in t1 ensures t2[k] == t1[k] {
    }
  }

  /** The two filters differ in shape: a row where one supplied field already
      holds its value and another differs is rewritten by the embedded store's
      OR and skipped by the managed store's AND. */
  lemma FilterShapesDiffer(r: NodeRow, c: int, s: int)
    requires r.checked == Some(c) && r.status.Some? && r.status.value != s
    ensures EmbeddedWhere(r, Fields(None, None, Some(c), Some(s)))
    ensures !ManagedWhere(r, Fields(None, None, Some(c), Some(s)))
  {
  }

  // ----------------------------------------------------------- max and ROI

  /** `SELECT MAX(key) ... or 0`: the largest key, or 0 for an empty table. */
  ghost predicate IsMaxOrZero(keys: set<int>, m: int)
  {
    (keys == {} ==> m == 0) && (keys != {} ==> m in keys && forall k :: k in keys ==> k <= m)
  }

  /** A non-empty finite set of ints has a largest element. */
  lemma {:induction false} MaxExists(keys: set<int>)
    requires keys != {}
    ensures exists m :: m in keys && forall k :: k in keys ==> k <= m
    decreases |keys|
  {
    NonEmptyHasElement(keys);
    var pick :| pick in keys;
    if keys != {pick} {
      var rest := keys - {pick};
      MaxExists(rest);
      var m :| m in rest && forall k :: k in rest ==> k <= m;
      var top := if pick > m then pick else m;
      forall k | k in keys ensures k <= top {
        if k != pick { assert k in rest; }
      }
    } else {
      assert forall k :: k in keys ==> k <= pick;
    }
  }

  /** A non-empty finite set of ints has a smallest element. */
  lemma {:induction false} MinExists(keys: set<int>)
    requires keys != {}
    ensures exists m :: m in keys && forall k :: k in keys ==> m <= k
    decreases |keys|
  {
    NonEmptyHasElement(keys);
    var pick :| pick in keys;
    if keys != {pick} {
      var rest := keys - {pick};
      MinExists(rest);
      var m :| m in rest && forall k :: k in rest ==> m <= k;
      var bottom := if pick < m then pick else m;
      forall k | k in keys ensures bottom <= k {
        if k != pick { assert k in rest; }
      }
    } else {
      assert forall k :: k in keys ==> pick <= k;
    }
  }

  /** The value `MAX(key) or 0` reads (a specification for the stores' loops). */
  ghost function MaxOrZero(keys: set<int>): (m: int)
    ensures IsMaxOrZero(keys, m)
  {
    if keys == {} then 0
    else
      MaxExists(keys);
      var m :| m in keys && forall k :: k in keys ==> k <= m;
      m
  }

  /** `MAX(key) or 0` names one value. */
  lemma MaxOrZeroUnique(keys: set<int>, a: int, b: int)
    requires IsMaxOrZero(keys, a) && IsMaxOrZero(keys, b)
    ensures a == b
  {
  }

  /** The largest key, or 0, computed by one pass over the keys. */
  method MaxKey(keys: set<int>) returns (m: int)
    ensures IsMaxOrZero(keys, m)
    ensures m == MaxOrZero(keys)
  {
    m := 0;
    var rest := keys;
    var first := true;
    while rest != {}
      invariant rest <= keys
      invariant first <==> keys - rest == {}
      invariant IsMaxOrZero(keys - rest, m)
      decreases |rest|
    {
      NonEmptyHasElement(rest);
      var k :| k in rest;
      ghost var seen := keys - rest;
      if first || k > m {
        m := k;
      }
      first := false;
      rest := rest - {k};
      assert keys - rest == seen + {k};
    }
    assert keys - rest == keys;
    MaxOrZeroUnique(keys, m, MaxOrZero(keys));
  }

  /** The box of a 6-value ROI: offset = roi[:3], size = roi[-3:]. */
  function Offset(roi: seq<int>, axis: nat): int
    requires |roi| >= 3 && axis < 3
  {
    roi[axis]
  }

  function Size(roi: seq<int>, axis: nat): int
    requires |roi| >= 3 && axis < 3
  {
    roi[|roi| - 3 + axis]
  }

  function Axis(c: Coord, axis: nat): int
    requires axis < 3
  {
    if axis == 0 then c.x else if axis == 1 then c.y else c.z
  }

  /** The embedded store's test: offset <= coord <= offset + size on every axis. */
  predicate InEmbeddedBox(c: Coord, roi: seq<int>)
    requires |roi| >= 3
  {
    forall axis: nat :: axis < 3 ==> Offset(roi, axis) <= Axis(c, axis) <= Offset(roi, axis) + Size(roi, axis)
  }

  /** The managed store's `between`: offset <= coord <= offset + size - 1 on every axis. */
  predicate InManagedBox(c: Coord, roi: seq<int>)
    requires |roi| >= 3
  {
    forall axis: nat :: axis < 3 ==> Offset(roi, axis) <= Axis(c, axis) <= Offset(roi, axis) + Size(roi, axis) - 1
  }

  /** The integers lo, lo + 1, ..., lo + n - 1. */
  function Interval(lo: int, n: nat): (r: set<int>)
    ensures forall v :: v in r <==> lo <= v < lo + n
  {
    if n == 0 then {} else Interval(lo, n - 1) + {lo + n - 1}
  }

  lemma {:induction false} IntervalSize(lo: int, n: nat)
    ensures |Interval(lo, n)| == n
    decreases n
  {
    if n > 0 {
      IntervalSize(lo, n - 1);
      assert lo + n - 1 !in Interval(lo, n - 1);
    }
  }

  /** The integers lo .. hi, empty when hi < lo. */
  function Span(lo: int, hi: int): set<int>
  {
    if hi < lo then {} else Interval(lo, hi - lo + 1)
  }

  lemma SpanSize(lo: int, hi: int)
    ensures |Span(lo, hi)| == if hi < lo then 0 else hi - lo + 1
  {
    if lo <= hi {
      IntervalSize(lo, hi - lo + 1);
    }
  }

  /** The values one axis of the managed box admits: offset .. offset + size - 1. */
  function ManagedAxis(offset: int, size: int): set<int>
  {
    Span(offset, offset + size - 1)
  }

  /** The values one axis of the embedded box admits: offset .. offset + size. */
  function EmbeddedAxis(offset: int, size: int): set<int>
  {
    Span(offset, offset + size)
  }

  /** Each box admits exactly the coordinates whose every axis lies in that box's
      per-axis range; the managed box lies inside the embedded one, and on an axis
      with size >= 0 it admits exactly `size` integer values where the embedded box
      admits `size + 1` (a negative size empties the managed axis). */
  lemma RoiBounds(roi: seq<int>, c: Coord, axis: nat)
    requires |roi| >= 3 && axis < 3
    ensures InManagedBox(c, roi) <==> forall a: nat :: a < 3 ==> Axis(c, a) in ManagedAxis(Offset(roi, a), Size(roi, a))
    ensures InEmbeddedBox(c, roi) <==> forall a: nat :: a < 3 ==> Axis(c, a) in EmbeddedAxis(Offset(roi, a), Size(roi, a))
    ensures InManagedBox(c, roi) ==> InEmbeddedBox(c, roi)
    ensures Size(roi, axis) >= 0 ==> |ManagedAxis(Offset(roi, axis), Size(roi, axis))| == Size(roi, axis)
    ensures Size(roi, axis) >= 0 ==> |EmbeddedAxis(Offset(roi, axis), Size(roi, axis))| == Size(roi, axis) + 1
    ensures Size(roi, axis) < 0 ==> ManagedAxis(Offset(roi, axis), Size(roi, axis)) == {}
  {
    SpanSize(Offset(roi, axis), Offset(roi, axis) + Size(roi, axis) - 1);
    SpanSize(Offset(roi, axis), Offset(roi, axis) + Size(roi, axis));
  }
}
