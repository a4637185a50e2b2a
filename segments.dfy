/** What segs2db derives from a batch of segments, shared by both stores: the
    numbering of the new segment rows, one node per sampled point with
    consecutive nids, and a chain of edges through each segment's points. The
    lists are defined segment by segment from the back, the order in which the
    stores' loops extend them. */
module Segments {
  import opened Records
  import opened Tables

  /** The creator label of every node and edge that ingestion generates. */
  const Seger: string := "seger"

  /** The node generated for a sampled point: type 0, unchecked, shown, no date. */
  function SegNode(nid: int, c: Coord): NodeIn
  {
    NodeIn(nid, c, Some(Seger), Some(0), Some(0), Some(1), None)
  }

  /** The edge generated between a point's node and the next point's node. */
  function ChainEdge(src: int): EdgeIn
  {
    EdgeIn(src, src + 1, Some(Seger), None)
  }

  function Last<T>(s: seq<T>): T
    requires s != []
  {
    s[|s| - 1]
  }

  function Init<T>(s: seq<T>): seq<T>
    requires s != []
  {
    s[..|s| - 1]
  }

  /** Number of sampled points in the batch. */
  function PointCount(segs: seq<Seg>): nat
  {
    if segs == [] then 0 else PointCount(Init(segs)) + |Last(segs).sampled|
  }

  /** Edges a chain through n points has. */
  function Links(n: nat): nat
  {
    if n == 0 then 0 else n - 1
  }

  /** Number of chain edges in the batch. */
  function LinkCount(segs: seq<Seg>): nat
  {
    if segs == [] then 0 else LinkCount(Init(segs)) + Links(|Last(segs).sampled|)
  }

  /** The nid after which segment k's nodes are numbered. */
  function Start(segs: seq<Seg>, base: int, k: nat): int
    requires k <= |segs|
  {
    base + PointCount(segs[..k])
  }

  /** The nodes of one segment's sampled points, numbered from start + 1. */
  function PointNodes(pts: seq<Coord>, start: int): seq<NodeIn>
  {
    seq(|pts|, i requires 0 <= i < |pts| => SegNode(start + 1 + i, pts[i]))
  }

  /** The k edges start+1 -> start+2, ..., start+k -> start+k+1. */
  function ChainEdges(start: int, k: nat): seq<EdgeIn>
  {
    seq(k, i requires 0 <= i < k => ChainEdge(start + 1 + i))
  }

  /** The node list segs2db builds when the largest nid is `base`. */
  function SegNodes(segs: seq<Seg>, base: int): seq<NodeIn>
  {
    if segs == [] then []
    else SegNodes(Init(segs), base) + PointNodes(Last(segs).sampled, base + PointCount(Init(segs)))
  }

  /** The edge list segs2db builds when the largest nid is `base`. */
  function SegEdges(segs: seq<Seg>, base: int): seq<EdgeIn>
  {
    if segs == [] then []
    else SegEdges(Init(segs), base) + ChainEdges(base + PointCount(Init(segs)), Links(|Last(segs).sampled|))
  }

  /** The segment rows segs2db inserts when the largest sid is `maxSid`. */
  function Numbered(segs: seq<Seg>, maxSid: int): SegTable
  {
    if segs == [] then map[] else Numbered(Init(segs), maxSid)[maxSid + |segs| := Last(segs)]
  }

  /** The new segments get the sids maxSid + 1 .. maxSid + k, in batch order. */
  lemma {:induction false} NumberedSpec(segs: seq<Seg>, maxSid: int)
    ensures Numbered(segs, maxSid).Keys == Interval(maxSid + 1, |segs|)
    ensures forall i :: 0 <= i < |segs| ==> Numbered(segs, maxSid)[maxSid + 1 + i] == segs[i]
    decreases |segs|
  {
    if segs != [] {
      NumberedSpec(Init(segs), maxSid);
      assert forall i :: 0 <= i < |segs| - 1 ==> Init(segs)[i] == segs[i];
    }
  }

  /** Point counts of prefixes grow by one segment at a time. */
  lemma PrefixCount(segs: seq<Seg>, k: nat)
    requires k < |segs|
    ensures PointCount(segs[..k + 1]) == PointCount(segs[..k]) + |segs[k].sampled|
    ensures LinkCount(segs[..k + 1]) == LinkCount(segs[..k]) + Links(|segs[k].sampled|)
  {
    assert Init(segs[..k + 1]) == segs[..k];
  }

  /** One node per sampled point. */
  lemma {:induction false} SegNodesLength(segs: seq<Seg>, base: int)
    ensures |SegNodes(segs, base)| == PointCount(segs)
    decreases |segs|
  {
    if segs != [] {
      SegNodesLength(Init(segs), base);
    }
  }

  /** One node per sampled point, and the nids run base + 1, base + 2, ... without
      a gap; every node is created by "seger" with type 0, checked 0, status 1 and
      no date of its own. */
  lemma {:induction false} SegNodesNumbering(segs: seq<Seg>, base: int)
    ensures |SegNodes(segs, base)| == PointCount(segs)
    ensures forall i :: 0 <= i < |SegNodes(segs, base)| ==>
              SegNodes(segs, base)[i] == SegNode(base + 1 + i, SegNodes(segs, base)[i].coord)
    decreases |segs|
  {
    if segs != [] {
      var init := Init(segs);
      var head := SegNodes(init, base);
      var tail := PointNodes(Last(segs).sampled, base + PointCount(init));
      SegNodesNumbering(init, base);
      assert SegNodes(segs, base) == head + tail;
      forall i | 0 <= i < |SegNodes(segs, base)|
        ensures SegNodes(segs, base)[i] == SegNode(base + 1 + i, SegNodes(segs, base)[i].coord)
      {
        if i >= |head| {
          assert SegNodes(segs, base)[i] == tail[i - |head|];
        } else {
          assert SegNodes(segs, base)[i] == head[i];
        }
      }
    }
  }

  /** A point of an earlier segment keeps its place when a segment is appended. */
  lemma SegNodeInHead(segs: seq<Seg>, base: int, k: nat, j: nat)
    requires k < |segs| - 1 && j < |segs[k].sampled|
    requires PointCount(Init(segs)[..k]) + j < |SegNodes(Init(segs), base)|
    requires SegNodes(Init(segs), base)[PointCount(Init(segs)[..k]) + j]
               == SegNode(Start(Init(segs), base, k) + 1 + j, Init(segs)[k].sampled[j])
    ensures PointCount(segs[..k]) + j < |SegNodes(segs, base)|
    ensures SegNodes(segs, base)[PointCount(segs[..k]) + j] == SegNode(Start(segs, base, k) + 1 + j, segs[k].sampled[j])
  {
    var init := Init(segs);
    var head := SegNodes(init, base);
    assert SegNodes(segs, base) == head + PointNodes(Last(segs).sampled, base + PointCount(init));
    assert init[..k] == segs[..k];
    assert init[k] == segs[k];
  }

  /** The last segment's points come after all the others. */
  lemma SegNodeInTail(segs: seq<Seg>, base: int, j: nat)
    requires segs != [] && j < |Last(segs).sampled|
    ensures PointCount(Init(segs)) + j < |SegNodes(segs, base)|
    ensures SegNodes(segs, base)[PointCount(Init(segs)) + j]
              == SegNode(base + PointCount(Init(segs)) + 1 + j, Last(segs).sampled[j])
  {
    var head := SegNodes(Init(segs), base);
    var tail := PointNodes(Last(segs).sampled, base + PointCount(Init(segs)));
    assert SegNodes(segs, base) == head + tail;
    SegNodesLength(Init(segs), base);
    assert (head + tail)[|head| + j] == tail[j];
  }

  /** Segment k's j-th sampled point becomes node Start(k) + j + 1. */
  lemma {:induction false} SegNodeAt(segs: seq<Seg>, base: int, k: nat, j: nat)
    requires k < |segs| && j < |segs[k].sampled|
    ensures PointCount(segs[..k]) + j < |SegNodes(segs, base)|
    ensures SegNodes(segs, base)[PointCount(segs[..k]) + j] == SegNode(Start(segs, base, k) + 1 + j, segs[k].sampled[j])
    decreases |segs|
  {
    if k < |segs| - 1 {
      SegNodeAt(Init(segs), base, k, j);
      SegNodeInHead(segs, base, k, j);
    } else {
      assert segs[..k] == Init(segs);
      SegNodeInTail(segs, base, j);
    }
  }

  /** The points before segment k are part of all the points. */
  lemma {:induction false} PrefixBound(segs: seq<Seg>, k: nat)
    requires k <= |segs|
    ensures PointCount(segs[..k]) <= PointCount(segs)
    ensures LinkCount(segs[..k]) <= LinkCount(segs)
    decreases |segs|
  {
    if k < |segs| {
      assert segs[..|segs| - 1][..k] == segs[..k];
      PrefixBound(Init(segs), k);
    } else {
      assert segs[..k] == segs;
    }
  }

  /** `src -> src + 1` joins two consecutive points of one segment. */
  ghost predicate WithinOneSeg(segs: seq<Seg>, base: int, src: int)
  {
    exists k :: 0 <= k < |segs| && Start(segs, base, k) < src && src + 1 <= Start(segs, base, k) + |segs[k].sampled|
  }

  /** Membership in one chain: the edges leaving start+1 .. start+k. */
  lemma ChainEdgesMember(start: int, k: nat, e: EdgeIn)
    ensures e in ChainEdges(start, k) <==> e == ChainEdge(e.src) && start < e.src <= start + k
  {
    if e == ChainEdge(e.src) && start < e.src <= start + k {
      assert ChainEdges(start, k)[e.src - start - 1] == e;
    }
    if e in ChainEdges(start, k) {
      var i :| 0 <= i < k && ChainEdges(start, k)[i] == e;
      assert ChainEdges(start, k)[i] == ChainEdge(start + 1 + i);
    }
  }

  /** Segment k of the batch starts where it starts in any longer batch. */
  lemma StartOfPrefix(segs: seq<Seg>, base: int, k: nat)
    requires k < |segs|
    ensures Start(segs, base, k) == Start(Init(segs), base, k) || k == |segs| - 1
    ensures k < |segs| - 1 ==> Init(segs)[k] == segs[k]
    ensures Start(segs, base, |segs| - 1) == base + PointCount(Init(segs))
  {
    assert segs[..|segs| - 1] == Init(segs);
    if k < |segs| - 1 {
      assert segs[..k] == Init(segs)[..k];
    }
  }

  /** An edge of the batch's list is a link within one segment, given that this
      holds of the edges listed for all but the last segment. */
  lemma SegEdgeSound(segs: seq<Seg>, base: int, e: EdgeIn)
    requires segs != [] && e in SegEdges(segs, base)
    requires e in SegEdges(Init(segs), base) ==> e == ChainEdge(e.src) && WithinOneSeg(Init(segs), base, e.src)
    ensures e == ChainEdge(e.src) && WithinOneSeg(segs, base, e.src)
  {
    var init := Init(segs);
    ChainEdgesMember(base + PointCount(init), Links(|Last(segs).sampled|), e);
    StartOfPrefix(segs, base, |segs| - 1);
    if e in SegEdges(init, base) {
      var k :| 0 <= k < |init| && Start(init, base, k) < e.src && e.src + 1 <= Start(init, base, k) + |init[k].sampled|;
      StartOfPrefix(segs, base, k);
      assert Start(segs, base, k) < e.src && e.src + 1 <= Start(segs, base, k) + |segs[k].sampled|;
    }
  }

  /** A link within one segment is in the batch's list, given that this holds of
      the links within all but the last segment. */
  lemma SegEdgeComplete(segs: seq<Seg>, base: int, e: EdgeIn)
    requires segs != [] && e == ChainEdge(e.src) && WithinOneSeg(segs, base, e.src)
    requires WithinOneSeg(Init(segs), base, e.src) ==> e in SegEdges(Init(segs), base)
    ensures e in SegEdges(segs, base)
  {
    var init := Init(segs);
    var s0 := base + PointCount(init);
    var tail := ChainEdges(s0, Links(|Last(segs).sampled|));
    assert SegEdges(segs, base) == SegEdges(init, base) + tail;
    var k :| 0 <= k < |segs| && Start(segs, base, k) < e.src && e.src + 1 <= Start(segs, base, k) + |segs[k].sampled|;
    StartOfPrefix(segs, base, k);
    if k < |init| {
      assert Start(init, base, k) < e.src && e.src + 1 <= Start(init, base, k) + |init[k].sampled|;
      assert e in SegEdges(init, base);
    } else {
      ChainEdgesMember(s0, Links(|Last(segs).sampled|), e);
      assert e in tail;
    }
  }


  /** The chain edges are exactly the links between consecutive points of the same
      segment: a segment of n points contributes n - 1 edges and no edge crosses
      from one segment to the next. */
  lemma {:induction false} SegEdgesSpec(segs: seq<Seg>, base: int)
    ensures |SegEdges(segs, base)| == LinkCount(segs)
    ensures forall e :: e in SegEdges(segs, base) <==> e == ChainEdge(e.src) && WithinOneSeg(segs, base, e.src)
    decreases |segs|
  {
    if segs != [] {
      SegEdgesSpec(Init(segs), base);
      forall e: EdgeIn | e in SegEdges(segs, base) ensures e == ChainEdge(e.src) && WithinOneSeg(segs, base, e.src) {
        SegEdgeSound(segs, base, e);
      }
      forall e: EdgeIn | e == ChainEdge(e.src) && WithinOneSeg(segs, base, e.src) ensures e in SegEdges(segs, base) {
        SegEdgeComplete(segs, base, e);
      }
    }
  }

  /** Every generated nid lies above base, so none clashes with an existing node. */
  lemma SegNidsFresh(segs: seq<Seg>, base: int, t: NodeTable, now: Date)
    requires forall k :: k in t ==> k <= base
    ensures InsertNodes(t, SegNodes(segs, base), now).Some?
    ensures forall i :: 0 <= i < |SegNodes(segs, base)| ==> SegNodes(segs, base)[i].nid !in t
    ensures DistinctNids(SegNodes(segs, base))
  {
    SegNodesNumbering(segs, base);
    InsertNodesSpec(t, SegNodes(segs, base), now);
  }

  /** The chain edges in list order: each joins its source to the next nid, both
      new (above base and at most base + PointCount), and the sources strictly
      increase, so no pair is listed twice. */
  lemma {:induction false} SegEdgesIncreasing(segs: seq<Seg>, base: int)
    ensures forall i :: 0 <= i < |SegEdges(segs, base)| ==>
              SegEdges(segs, base)[i] == ChainEdge(SegEdges(segs, base)[i].src) &&
              base < SegEdges(segs, base)[i].src && SegEdges(segs, base)[i].src + 1 <= base + PointCount(segs)
    ensures forall i, j :: 0 <= i < j < |SegEdges(segs, base)| ==> SegEdges(segs, base)[i].src < SegEdges(segs, base)[j].src
    decreases |segs|
  {
    if segs != [] {
      var init := Init(segs);
      var s0 := base + PointCount(init);
      var n := |Last(segs).sampled|;
      var head := SegEdges(init, base);
      var tail := ChainEdges(s0, Links(n));
      SegEdgesIncreasing(init, base);
      assert SegEdges(segs, base) == head + tail;
      forall i | 0 <= i < |tail| ensures tail[i] == ChainEdge(s0 + 1 + i) {
      }
    }
  }

  /** The managed store accepts the chain edges once the chain's nodes are stored:
      no stored pair starts at a new nid, and every nid base + 1 .. base +
      PointCount is a node. */
  lemma SegEdgesInsertable(segs: seq<Seg>, base: int, t: EdgeTable, nodes: set<int>, now: Date)
    requires forall p :: p in t ==> p.0 !in Interval(base + 1, PointCount(segs))
    requires Interval(base + 1, PointCount(segs)) <= nodes
    ensures InsertEdgesStrict(t, nodes, SegEdges(segs, base), now).Some?
  {
    var b := SegEdges(segs, base);
    SegEdgesIncreasing(segs, base);
    InsertEdgesStrictSpec(t, nodes, b, now);
    forall i | 0 <= i < |b| ensures EdgeKey(b[i]) == (b[i].src, b[i].src + 1) {
      assert b[i] == ChainEdge(b[i].src);
    }
  }

  /** The node and edge lists segs2db builds: for each segment, one node per sampled
      point with the next nid, and an edge to the following point's nid unless the
      point is the segment's last. */
  method SegLists(batch: seq<Seg>, maxNid: int) returns (ns: seq<NodeIn>, es: seq<EdgeIn>)
    ensures ns == SegNodes(batch, maxNid)
    ensures es == SegEdges(batch, maxNid)
  {
    ns, es := [], [];
    var nid := maxNid;
    var s := 0;
    while s < |batch|
      invariant 0 <= s <= |batch|
      invariant ns == SegNodes(batch[..s], maxNid) && es == SegEdges(batch[..s], maxNid)
      invariant nid == maxNid + PointCount(batch[..s])
    {
      var coords := batch[s].sampled;
      var start := nid;
      ghost var ns0, es0 := ns, es;
      var j := 0;
      while j < |coords|
        invariant 0 <= j <= |coords| && nid == start + j
        invariant ns == ns0 + PointNodes(coords[..j], start)
        invariant es == es0 + ChainEdges(start, if j < |coords| then j else Links(|coords|))
      {
        nid := nid + 1;
        assert PointNodes(coords[..j + 1], start) == PointNodes(coords[..j], start) + [SegNode(nid, coords[j])];
        ns := ns + [SegNode(nid, coords[j])];
        if j < |coords| - 1 {
          assert ChainEdges(start, j + 1) == ChainEdges(start, j) + [ChainEdge(nid)];
          es := es + [ChainEdge(nid)];
        }
        j := j + 1;
      }
      assert coords[..|coords|] == coords;
      assert Init(batch[..s + 1]) == batch[..s];
      s := s + 1;
    }
    assert batch[..|batch|] == batch;
  }

  /** The segment rows of a batch, numbered one by one after maxSid. */
  method NumberSegs(batch: seq<Seg>, maxSid: int) returns (entries: SegTable)
    ensures entries == Numbered(batch, maxSid)
  {
    entries := map[];
    var i := 0;
    while i < |batch|
      invariant 0 <= i <= |batch|
      invariant entries == Numbered(batch[..i], maxSid)
    {
      assert Init(batch[..i + 1]) == batch[..i];
      entries := entries[maxSid + 1 + i := batch[i]];
      i := i + 1;
    }
    assert batch[..|batch|] == batch;
  }
}
