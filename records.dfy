/** Value types shared by the two stores and by the graph mirror: the rows the
    tables hold, the dictionaries callers pass in, and the canonical order of an
    edge's endpoints. */
module Records {

  datatype Option<+T> = None | Some(value: T)

  /** An abstract instant. Every reading of the wall clock is a parameter of the
      operation that takes it. */
  type Date = int

  datatype Coord = Coord(x: int, y: int, z: int)

  /** A row of the nodes table (its key, the nid, is the key of the table).
      The four columns that update_nodes compares may hold NULL (None). */
  datatype NodeRow = NodeRow(coord: Coord, creator: Option<string>, kind: Option<int>,
                             checked: Option<int>, status: Option<int>, date: Date)

  /** A node dictionary handed to add_nodes; `date` is None when the key is absent. */
  datatype NodeIn = NodeIn(nid: int, coord: Coord, creator: Option<string>, kind: Option<int>,
                           checked: Option<int>, status: Option<int>, date: Option<Date>)

  /** The non-key columns of an edge row. */
  datatype EdgeRow = EdgeRow(creator: Option<string>, date: Date)

  /** An edge dictionary handed to add_edges; `date` is None when the key is absent. */
  datatype EdgeIn = EdgeIn(src: int, dst: int, creator: Option<string>, date: Option<Date>)

  /** A traced segment: its full polyline and the down-sampled points that become nodes. */
  datatype Seg = Seg(points: seq<Coord>, sampled: seq<Coord>)

  /** The optional arguments of update_nodes; None means "not supplied". */
  datatype Fields = Fields(creator: Option<string>, kind: Option<int>,
                           checked: Option<int>, status: Option<int>)

  /** The pair stored for an edge between a and b: the smaller id first. */
  function Canon(a: int, b: int): (p: (int, int))
    ensures p.0 <= p.1
    ensures (p.0 == a && p.1 == b) || (p.0 == b && p.1 == a)
  {
    if a > b then (b, a) else (a, b)
  }

  /** Both orientations of a pair name the same stored edge, and a stored pair is its own canonical form. */
  lemma CanonSymmetric(a: int, b: int)
    ensures Canon(a, b) == Canon(b, a)
    ensures a <= b ==> Canon(a, b) == (a, b)
  {
  }

  /** `n.get('date', now)`: the supplied date, or the call-time one. */
  function DateOr(d: Option<Date>, now: Date): Date
  {
    if d.Some? then d.value else now
  }

  /** The arguments of check_node / uncheck_nodes: only `checked` is supplied. */
  function CheckedOnly(v: int): (f: Fields)
    ensures f.checked == Some(v)
  {
    Fields(None, None, Some(v), None)
  }

  /** A non-empty set of ids has an element to pick. */
  lemma NonEmptyHasElement(s: set<int>)
    requires s != {}
    ensures exists x :: x in s
  {
    if forall x :: x !in s {
      assert false;
    }
  }

  /** A non-empty set of pairs has an element to pick. */
  lemma NonEmptyHasPair(s: set<(int, int)>)
    requires s != {}
    ensures exists p :: p in s
  {
    if forall p :: p !in s {
      assert false;
    }
  }
}
