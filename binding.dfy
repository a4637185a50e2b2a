/** The SQL statement the embedded store's update_nodes runs, with its `?`
    placeholders bound, left to right, to the parameter list the code builds.
    The store class carries the update the statement is meant to make
    (Tables.EmbeddedUpdate). This module models the statement over rows of SQL
    values, proves that binding the parameters in placeholder order yields
    exactly that intended update, and proves what the code's own order does. */
module Binding {
  import opened Records
  import opened Tables

  /** A value bound to a `?` or held in a column. sqlite3 binds a Python int or str
      as itself and a datetime as its ISO text, which never equals an integer. */
  datatype SqlValue = SqlNull | SqlInt(i: int) | SqlText(s: string) | SqlStamp(d: Date)

  /** The columns update_nodes can write. */
  datatype Column = CreatorCol | KindCol | CheckedCol | StatusCol | DateCol

  /** Those columns of one row of the nodes table. */
  datatype RawRow = RawRow(creator: SqlValue, kind: SqlValue, checked: SqlValue, status: SqlValue, date: SqlValue)

  type RawTable = map<int, RawRow>

  function Get(r: RawRow, c: Column): SqlValue
  {
    match c
    case CreatorCol => r.creator
    case KindCol => r.kind
    case CheckedCol => r.checked
    case StatusCol => r.status
    case DateCol => r.date
  }

  function Put(r: RawRow, c: Column, v: SqlValue): (r': RawRow)
    ensures Get(r', c) == v
    ensures forall d :: d != c ==> Get(r', d) == Get(r, d)
  {
    match c
    case CreatorCol => r.(creator := v)
    case KindCol => r.(kind := v)
    case CheckedCol => r.(checked := v)
    case StatusCol => r.(status := v)
    case DateCol => r.(date := v)
  }

  /** Two rows that agree on every column are equal. */
  lemma RowsAgree(a: RawRow, b: RawRow)
    requires forall c :: Get(a, c) == Get(b, c)
    ensures a == b
  {
    assert Get(a, CreatorCol) == Get(b, CreatorCol) && Get(a, KindCol) == Get(b, KindCol);
    assert Get(a, CheckedCol) == Get(b, CheckedCol) && Get(a, StatusCol) == Get(b, StatusCol);
    assert Get(a, DateCol) == Get(b, DateCol);
  }

  function OfText(o: Option<string>): SqlValue
  {
    if o.Some? then SqlText(o.value) else SqlNull
  }

  function OfInt(o: Option<int>): SqlValue
  {
    if o.Some? then SqlInt(o.value) else SqlNull
  }

  /** A stored row as SQL values; its date was bound as a datetime. */
  function Raw(r: NodeRow): RawRow
  {
    RawRow(OfText(r.creator), OfInt(r.kind), OfInt(r.checked), OfInt(r.status), SqlStamp(r.date))
  }

  function RawTableOf(t: NodeTable): RawTable
  {
    map k | k in t :: Raw(t[k])
  }

  /** The value supplied for a column; SqlNull when the argument is None. */
  function Value(f: Fields, c: Column): SqlValue
  {
    match c
    case CreatorCol => OfText(f.creator)
    case KindCol => OfInt(f.kind)
    case CheckedCol => OfInt(f.checked)
    case StatusCol => OfInt(f.status)
    case DateCol => SqlNull
  }

  /** The supplied columns, in the order update_nodes tests them. */
  function Supplied(f: Fields): (cs: seq<Column>)
    ensures cs == [] <==> NoneSupplied(f)
    ensures forall c :: c in cs <==> c != DateCol && Value(f, c) != SqlNull
    ensures |cs| <= 4
  {
    (if f.creator.Some? then [CreatorCol] else []) + (if f.kind.Some? then [KindCol] else []) +
    (if f.checked.Some? then [CheckedCol] else []) + (if f.status.Some? then [StatusCol] else [])
  }

  /** The role of one `?` of the statement. */
  datatype Slot = SetSlot(col: Column) | InSlot | WhereSlot(col: Column)

  function SetSlots(cs: seq<Column>): (s: seq<Slot>)
    ensures |s| == |cs|
  {
    seq(|cs|, i requires 0 <= i < |cs| => SetSlot(cs[i]))
  }

  function WhereSlots(cs: seq<Column>): (s: seq<Slot>)
    ensures |s| == |cs|
  {
    seq(|cs|, i requires 0 <= i < |cs| => WhereSlot(cs[i]))
  }

  function InSlots(n: nat): (s: seq<Slot>)
    ensures |s| == n
  {
    seq(n, _ => InSlot)
  }

  /** The placeholders, left to right: `col = ?` per supplied column and `date = ?`,
      one `?` per nid in `nid IN (...)`, then one `(col IS NULL OR col != ?)` per
      supplied column. */
  function Slots(f: Fields, n: nat): (s: seq<Slot>)
    ensures |s| == 2 * |Supplied(f)| + 1 + n
  {
    SetSlots(Supplied(f)) + [SetSlot(DateCol)] + InSlots(n) + WhereSlots(Supplied(f))
  }

  function Values(f: Fields, cs: seq<Column>): (vs: seq<SqlValue>)
    ensures |vs| == |cs|
  {
    seq(|cs|, i requires 0 <= i < |cs| => Value(f, cs[i]))
  }

  function Doubled(f: Fields, cs: seq<Column>): (vs: seq<SqlValue>)
    ensures |vs| == 2 * |cs|
  {
    if cs == [] then [] else [Value(f, cs[0]), Value(f, cs[0])] + Doubled(f, cs[1..])
  }

  function Ints(nids: seq<int>): (vs: seq<SqlValue>)
    ensures |vs| == |nids|
  {
    seq(|nids|, i requires 0 <= i < |nids| => SqlInt(nids[i]))
  }

  /** `params` as update_nodes builds it: each supplied value twice (once meant for
      its SET, once for its WHERE), then the date, then the nids. */
  function Params(f: Fields, date: Date, nids: seq<int>): (p: seq<SqlValue>)
    ensures |p| == |Slots(f, |nids|)|
  {
    Doubled(f, Supplied(f)) + [SqlStamp(date)] + Ints(nids)
  }

  /** The same values in the order of the placeholders. */
  function ParamsInOrder(f: Fields, date: Date, nids: seq<int>): (p: seq<SqlValue>)
    ensures |p| == |Slots(f, |nids|)|
  {
    Values(f, Supplied(f)) + [SqlStamp(date)] + Ints(nids) + Values(f, Supplied(f))
  }

  /** Each placeholder with the value bound to it. */
  function Bind(slots: seq<Slot>, params: seq<SqlValue>): (b: seq<(Slot, SqlValue)>)
    requires |slots| == |params|
    ensures |b| == |slots|
  {
    seq(|slots|, i requires 0 <= i < |slots| => (slots[i], params[i]))
  }

  /** The values of the IN list. */
  function InValues(b: seq<(Slot, SqlValue)>): set<SqlValue>
  {
    if b == [] then {} else (if b[0].0 == InSlot then {b[0].1} else {}) + InValues(b[1..])
  }

  /** `(col IS NULL OR col != v)`; `col != NULL` is never true. */
  predicate NullOrDiffersRaw(cur: SqlValue, v: SqlValue)
  {
    cur == SqlNull || (v != SqlNull && cur != v)
  }

  /** The OR of the WHERE conditions holds on the row. */
  predicate WhereHolds(row: RawRow, b: seq<(Slot, SqlValue)>)
  {
    b != [] &&
    ((b[0].0.WhereSlot? && NullOrDiffersRaw(Get(row, b[0].0.col), b[0].1)) || WhereHolds(row, b[1..]))
  }

  predicate Selected(row: RawRow, nid: int, b: seq<(Slot, SqlValue)>)
  {
    SqlInt(nid) in InValues(b) && WhereHolds(row, b)
  }

  /** The SET list applied left to right. */
  function ApplySets(row: RawRow, b: seq<(Slot, SqlValue)>): RawRow
    decreases |b|
  {
    if b == [] then row
    else ApplySets(if b[0].0.SetSlot? then Put(row, b[0].0.col, b[0].1) else row, b[1..])
  }

  /** The statement update_nodes runs with `params` bound to its placeholders; no
      statement runs when no field is supplied or the nid list is empty. */
  function UpdateWith(t: RawTable, nids: seq<int>, f: Fields, params: seq<SqlValue>): RawTable
    requires |params| == |Slots(f, |nids|)|
  {
    if NoneSupplied(f) || nids == [] then t
    else
      var b := Bind(Slots(f, |nids|), params);
      map k | k in t :: if Selected(t[k], k, b) then ApplySets(t[k], b) else t[k]
  }

  /** update_nodes as written. */
  function UpdateAsWritten(t: RawTable, nids: seq<int>, f: Fields, date: Date): RawTable
  {
    UpdateWith(t, nids, f, Params(f, date, nids))
  }

  // ---------------------------------------------------------------- the bound list

  lemma BindAppend(s1: seq<Slot>, s2: seq<Slot>, p1: seq<SqlValue>, p2: seq<SqlValue>)
    requires |s1| == |p1| && |s2| == |p2|
    ensures Bind(s1 + s2, p1 + p2) == Bind(s1, p1) + Bind(s2, p2)
  {
  }

  lemma {:induction false} InValuesAppend(b1: seq<(Slot, SqlValue)>, b2: seq<(Slot, SqlValue)>)
    ensures InValues(b1 + b2) == InValues(b1) + InValues(b2)
    decreases |b1|
  {
    if b1 != [] {
      assert (b1 + b2)[0] == b1[0] && (b1 + b2)[1..] == b1[1..] + b2;
      InValuesAppend(b1[1..], b2);
    } else {
      assert b1 + b2 == b2;
    }
  }

  lemma {:induction false} WhereAppend(row: RawRow, b1: seq<(Slot, SqlValue)>, b2: seq<(Slot, SqlValue)>)
    ensures WhereHolds(row, b1 + b2) <==> WhereHolds(row, b1) || WhereHolds(row, b2)
    decreases |b1|
  {
    if b1 != [] {
      assert (b1 + b2)[0] == b1[0] && (b1 + b2)[1..] == b1[1..] + b2;
      WhereAppend(row, b1[1..], b2);
    } else {
      assert b1 + b2 == b2;
    }
  }

  lemma {:induction false} ApplySetsAppend(row: RawRow, b1: seq<(Slot, SqlValue)>, b2: seq<(Slot, SqlValue)>)
    ensures ApplySets(row, b1 + b2) == ApplySets(ApplySets(row, b1), b2)
    decreases |b1|
  {
    if b1 != [] {
      assert (b1 + b2)[0] == b1[0] && (b1 + b2)[1..] == b1[1..] + b2;
      ApplySetsAppend(if b1[0].0.SetSlot? then Put(row, b1[0].0.col, b1[0].1) else row, b1[1..], b2);
    } else {
      assert b1 + b2 == b2;
    }
  }

  /** A stretch without IN slots adds nothing to the IN list. */
  lemma {:induction false} NoInValues(b: seq<(Slot, SqlValue)>)
    requires forall i :: 0 <= i < |b| ==> b[i].0 != InSlot
    ensures InValues(b) == {}
    decreases |b|
  {
    if b != [] {
      NoInValues(b[1..]);
    }
  }

  /** A stretch without WHERE slots adds no condition. */
  lemma {:induction false} NoWhere(row: RawRow, b: seq<(Slot, SqlValue)>)
    requires forall i :: 0 <= i < |b| ==> !b[i].0.WhereSlot?
    ensures !WhereHolds(row, b)
    decreases |b|
  {
    if b != [] {
      NoWhere(row, b[1..]);
    }
  }

  /** A stretch without SET slots writes nothing. */
  lemma {:induction false} NoSets(row: RawRow, b: seq<(Slot, SqlValue)>)
    requires forall i :: 0 <= i < |b| ==> !b[i].0.SetSlot?
    ensures ApplySets(row, b) == row
    decreases |b|
  {
    if b != [] {
      NoSets(row, b[1..]);
    }
  }

  /** The IN list holds exactly the values bound to its slots. */
  lemma {:induction false} InListValues(vs: seq<SqlValue>)
    ensures forall v :: v in InValues(Bind(InSlots(|vs|), vs)) <==> v in vs
    decreases |vs|
  {
    if vs != [] {
      assert Bind(InSlots(|vs|), vs) == [(InSlot, vs[0])] + Bind(InSlots(|vs| - 1), vs[1..]);
      InListValues(vs[1..]);
    }
  }

  /** The WHERE conditions bound in order test each supplied column against its value. */
  lemma {:induction false} WhereInOrder(row: RawRow, f: Fields, cs: seq<Column>)
    ensures WhereHolds(row, Bind(WhereSlots(cs), Values(f, cs))) <==>
            exists i :: 0 <= i < |cs| && NullOrDiffersRaw(Get(row, cs[i]), Value(f, cs[i]))
    decreases |cs|
  {
    if cs != [] {
      var b := Bind(WhereSlots(cs), Values(f, cs));
      assert b[1..] == Bind(WhereSlots(cs[1..]), Values(f, cs[1..]));
      WhereInOrder(row, f, cs[1..]);
      if exists i :: 0 <= i < |cs| && NullOrDiffersRaw(Get(row, cs[i]), Value(f, cs[i])) {
        var i :| 0 <= i < |cs| && NullOrDiffersRaw(Get(row, cs[i]), Value(f, cs[i]));
        if i > 0 {
          assert cs[1..][i - 1] == cs[i];
        }
      }
      if exists j :: 0 <= j < |cs[1..]| && NullOrDiffersRaw(Get(row, cs[1..][j]), Value(f, cs[1..][j])) {
        var j :| 0 <= j < |cs[1..]| && NullOrDiffersRaw(Get(row, cs[1..][j]), Value(f, cs[1..][j]));
        assert cs[j + 1] == cs[1..][j];
      }
    }
  }

  /** The SET list bound in order gives each supplied column its value. */
  lemma {:induction false} SetsInOrder(row: RawRow, f: Fields, cs: seq<Column>)
    ensures forall c :: Get(ApplySets(row, Bind(SetSlots(cs), Values(f, cs))), c) ==
                        if c in cs then Value(f, c) else Get(row, c)
    decreases |cs|
  {
    if cs != [] {
      var b := Bind(SetSlots(cs), Values(f, cs));
      assert b[1..] == Bind(SetSlots(cs[1..]), Values(f, cs[1..]));
      SetsInOrder(Put(row, cs[0], Value(f, cs[0])), f, cs[1..]);
      assert forall c :: c in cs <==> c == cs[0] || c in cs[1..];
    }
  }

  // ---------------------------------------------------------------- the intended binding

  /** The list bound in placeholder order, stretch by stretch. */
  lemma InOrderStretches(f: Fields, date: Date, nids: seq<int>)
    ensures var cs := Supplied(f);
            Bind(Slots(f, |nids|), ParamsInOrder(f, date, nids)) ==
            Bind(SetSlots(cs), Values(f, cs)) + [(SetSlot(DateCol), SqlStamp(date))] +
            Bind(InSlots(|nids|), Ints(nids)) + Bind(WhereSlots(cs), Values(f, cs))
  {
    var cs := Supplied(f);
    BindAppend(SetSlots(cs), [SetSlot(DateCol)], Values(f, cs), [SqlStamp(date)]);
    BindAppend(SetSlots(cs) + [SetSlot(DateCol)], InSlots(|nids|), Values(f, cs) + [SqlStamp(date)], Ints(nids));
    BindAppend(SetSlots(cs) + [SetSlot(DateCol)] + InSlots(|nids|), WhereSlots(cs),
               Values(f, cs) + [SqlStamp(date)] + Ints(nids), Values(f, cs));
  }

  /** Bound in placeholder order, the IN list is exactly the nids. */
  lemma InOrderIn(f: Fields, date: Date, nids: seq<int>, k: int)
    ensures SqlInt(k) in InValues(Bind(Slots(f, |nids|), ParamsInOrder(f, date, nids))) <==> k in nids
  {
    var cs := Supplied(f);
    var b1 := Bind(SetSlots(cs), Values(f, cs));
    var b2 := [(SetSlot(DateCol), SqlStamp(date))];
    var b3 := Bind(InSlots(|nids|), Ints(nids));
    var b4 := Bind(WhereSlots(cs), Values(f, cs));
    InOrderStretches(f, date, nids);
    InValuesAppend(b1 + b2 + b3, b4);
    InValuesAppend(b1 + b2, b3);
    InValuesAppend(b1, b2);
    NoInValues(b1);
    NoInValues(b2);
    NoInValues(b4);
    InListValues(Ints(nids));
    if k in nids {
      var i :| 0 <= i < |nids| && nids[i] == k;
      assert Ints(nids)[i] == SqlInt(k);
    }
  }

  /** Bound in placeholder order, the WHERE conditions hold on a stored row exactly
      when the intended filter does. */
  lemma InOrderWhere(r: NodeRow, f: Fields, date: Date, nids: seq<int>)
    ensures WhereHolds(Raw(r), Bind(Slots(f, |nids|), ParamsInOrder(f, date, nids))) <==> EmbeddedWhere(r, f)
  {
    var cs := Supplied(f);
    var row := Raw(r);
    var b1 := Bind(SetSlots(cs), Values(f, cs));
    var b2 := [(SetSlot(DateCol), SqlStamp(date))];
    var b3 := Bind(InSlots(|nids|), Ints(nids));
    var b4 := Bind(WhereSlots(cs), Values(f, cs));
    InOrderStretches(f, date, nids);
    WhereAppend(row, b1 + b2 + b3, b4);
    WhereAppend(row, b1 + b2, b3);
    WhereAppend(row, b1, b2);
    NoWhere(row, b1);
    NoWhere(row, b2);
    NoWhere(row, b3);
    WhereInOrder(row, f, cs);
    if EmbeddedWhere(r, f) {
      var c := if NullOrDiffers(r.creator, f.creator) then CreatorCol
               else if NullOrDiffers(r.kind, f.kind) then KindCol
               else if NullOrDiffers(r.checked, f.checked) then CheckedCol else StatusCol;
      assert c in cs && NullOrDiffersRaw(Get(row, c), Value(f, c));
    }
  }

  /** Bound in placeholder order, the SET list turns a stored row into the intended one. */
  lemma InOrderSets(r: NodeRow, f: Fields, date: Date, nids: seq<int>)
    ensures ApplySets(Raw(r), Bind(Slots(f, |nids|), ParamsInOrder(f, date, nids))) == Raw(Assign(r, f, date))
  {
    var cs := Supplied(f);
    var row := Raw(r);
    var b1 := Bind(SetSlots(cs), Values(f, cs));
    var b2 := [(SetSlot(DateCol), SqlStamp(date))];
    var b3 := Bind(InSlots(|nids|), Ints(nids));
    var b4 := Bind(WhereSlots(cs), Values(f, cs));
    InOrderStretches(f, date, nids);
    ApplySetsAppend(row, b1 + b2 + b3, b4);
    ApplySetsAppend(row, b1 + b2, b3);
    ApplySetsAppend(row, b1, b2);
    SetsInOrder(row, f, cs);
    NoSets(ApplySets(row, b1 + b2), b3);
    NoSets(ApplySets(row, b1 + b2 + b3), b4);
    var a := ApplySets(row, b1);
    assert ApplySets(a, b2) == Put(a, DateCol, SqlStamp(date)) by {
      assert b2[1..] == [];
    }
    RowsAgree(ApplySets(row, b1 + b2 + b3 + b4), Raw(Assign(r, f, date)));
  }

  /** Bound in placeholder order, the statement makes exactly the intended
      change-only update of Tables.EmbeddedUpdate. */
  lemma InOrderIsIntended(t: NodeTable, nids: seq<int>, f: Fields, date: Date)
    ensures UpdateWith(RawTableOf(t), nids, f, ParamsInOrder(f, date, nids)) == RawTableOf(EmbeddedUpdate(t, nids, f, date))
  {
    if !NoneSupplied(f) && nids != [] {
      var lhs := UpdateWith(RawTableOf(t), nids, f, ParamsInOrder(f, date, nids));
      var rhs := RawTableOf(EmbeddedUpdate(t, nids, f, date));
      forall k | k in t ensures lhs[k] == rhs[k] {
        InOrderIn(f, date, nids, k);
        InOrderWhere(t[k], f, date, nids);
        InOrderSets(t[k], f, date, nids);
      }
    }
  }

  // ---------------------------------------------------------------- the code's binding

  /** The bound values that fall into the IN list when one field is supplied: the
      date and every nid but the last. */
  function OneFieldIns(date: Date, nids: seq<int>): seq<SqlValue>
    requires nids != []
  {
    [SqlStamp(date)] + Ints(nids[..|nids| - 1])
  }

  /** With one field supplied, the code's list binds the value to both SET slots
      (the column and `date`), the date and each nid but the last to the IN slots,
      and the last nid to the WHERE slot. */
  lemma OneFieldStretches(f: Fields, date: Date, nids: seq<int>)
    requires |Supplied(f)| == 1 && nids != []
    ensures var c, v := Supplied(f)[0], Value(f, Supplied(f)[0]);
            Bind(Slots(f, |nids|), Params(f, date, nids)) ==
            [(SetSlot(c), v), (SetSlot(DateCol), v)] + Bind(InSlots(|nids|), OneFieldIns(date, nids)) +
            [(WhereSlot(c), SqlInt(nids[|nids| - 1]))]
  {
    var c, v, last := Supplied(f)[0], Value(f, Supplied(f)[0]), nids[|nids| - 1];
    var n := |nids|;
    var ins := OneFieldIns(date, nids);
    assert Slots(f, n) == [SetSlot(c), SetSlot(DateCol)] + InSlots(n) + [WhereSlot(c)];
    assert Doubled(f, Supplied(f)) == [v, v];
    assert Params(f, date, nids) == [v, v] + ins + [SqlInt(last)];
    BindAppend([SetSlot(c), SetSlot(DateCol)], InSlots(n), [v, v], ins);
    BindAppend([SetSlot(c), SetSlot(DateCol)] + InSlots(n), [WhereSlot(c)], [v, v] + ins, [SqlInt(last)]);
  }

  /** With one field supplied, a row is selected exactly when its nid is listed
      before the last one and its column is NULL or differs from the last nid. */
  lemma OneFieldSelected(row: RawRow, k: int, nids: seq<int>, f: Fields, date: Date)
    requires |Supplied(f)| == 1 && nids != []
    ensures Selected(row, k, Bind(Slots(f, |nids|), Params(f, date, nids))) <==>
            k in nids[..|nids| - 1] && NullOrDiffersRaw(Get(row, Supplied(f)[0]), SqlInt(nids[|nids| - 1]))
  {
    var c, v, last := Supplied(f)[0], Value(f, Supplied(f)[0]), nids[|nids| - 1];
    var n := |nids|;
    var ins := OneFieldIns(date, nids);
    var b1 := [(SetSlot(c), v), (SetSlot(DateCol), v)];
    var b2 := Bind(InSlots(n), ins);
    var b3 := [(WhereSlot(c), SqlInt(last))];
    OneFieldStretches(f, date, nids);
    InValuesAppend(b1 + b2, b3);
    InValuesAppend(b1, b2);
    NoInValues(b1);
    NoInValues(b3);
    InListValues(ins);
    assert SqlInt(k) in ins <==> k in nids[..n - 1] by {
      if SqlInt(k) in ins {
        var i :| 0 <= i < |ins| && ins[i] == SqlInt(k);
        assert nids[..n - 1][i - 1] == k;
      }
      if k in nids[..n - 1] {
        var i :| 0 <= i < n - 1 && nids[..n - 1][i] == k;
        assert ins[i + 1] == SqlInt(k);
      }
    }
    WhereAppend(row, b1 + b2, b3);
    WhereAppend(row, b1, b2);
    NoWhere(row, b1);
    NoWhere(row, b2);
    assert WhereHolds(row, b3) <==> NullOrDiffersRaw(Get(row, c), SqlInt(last));
  }

  /** With one field supplied, the SET list writes the value into the column and
      into `date`. */
  lemma OneFieldSets(row: RawRow, nids: seq<int>, f: Fields, date: Date)
    requires |Supplied(f)| == 1 && nids != []
    ensures var c, v := Supplied(f)[0], Value(f, Supplied(f)[0]);
            ApplySets(row, Bind(Slots(f, |nids|), Params(f, date, nids))) == Put(Put(row, c, v), DateCol, v)
  {
    var c, v, last := Supplied(f)[0], Value(f, Supplied(f)[0]), nids[|nids| - 1];
    var b1 := [(SetSlot(c), v), (SetSlot(DateCol), v)];
    var b2 := Bind(InSlots(|nids|), OneFieldIns(date, nids));
    var b3 := [(WhereSlot(c), SqlInt(last))];
    OneFieldStretches(f, date, nids);
    ApplySetsAppend(row, b1 + b2, b3);
    ApplySetsAppend(row, b1, b2);
    NoSets(ApplySets(row, b1), b2);
    NoSets(ApplySets(row, b1 + b2), b3);
    var tail := [(SetSlot(DateCol), v)];
    assert b1[1..] == tail && tail[1..] == [];
    assert ApplySets(row, b1) == ApplySets(Put(row, c, v), tail);
    assert ApplySets(Put(row, c, v), tail) == ApplySets(Put(Put(row, c, v), DateCol, v), []);
  }

  /** update_nodes as written with one field supplied: only the listed rows before
      the last nid can change, only when the supplied column is NULL or differs from
      that last nid, and both the column and `date` then take the supplied value. */
  lemma OneFieldAsWritten(t: RawTable, nids: seq<int>, f: Fields, date: Date)
    requires |Supplied(f)| == 1 && nids != []
    ensures var c, v, last := Supplied(f)[0], Value(f, Supplied(f)[0]), nids[|nids| - 1];
            UpdateAsWritten(t, nids, f, date) ==
            map k | k in t :: if k in nids[..|nids| - 1] && NullOrDiffersRaw(Get(t[k], c), SqlInt(last))
                              then Put(Put(t[k], c, v), DateCol, v) else t[k]
  {
    var c, v, last := Supplied(f)[0], Value(f, Supplied(f)[0]), nids[|nids| - 1];
    var u := UpdateAsWritten(t, nids, f, date);
    forall k | k in t
      ensures u[k] == if k in nids[..|nids| - 1] && NullOrDiffersRaw(Get(t[k], c), SqlInt(last))
                      then Put(Put(t[k], c, v), DateCol, v) else t[k]
    {
      OneFieldSelected(t[k], k, nids, f, date);
      OneFieldSets(t[k], nids, f, date);
    }
  }

  /** With one field supplied and one nid (check_node, or update_nodes with one
      keyword), the statement matches no row. */
  lemma OneNidChangesNothing(t: RawTable, nid: int, f: Fields, date: Date)
    requires |Supplied(f)| == 1
    ensures UpdateAsWritten(t, [nid], f, date) == t
  {
    OneFieldAsWritten(t, [nid], f, date);
  }

  /** check_node as written leaves the table as it is, where the intended update
      marks an unchecked stored node checked. */
  lemma CheckNodeMatchesNothing(t: NodeTable, nid: int, date: Date)
    ensures UpdateAsWritten(RawTableOf(t), [nid], CheckedOnly(1), date) == RawTableOf(t)
    ensures nid in t && t[nid].checked != Some(1) ==>
              EmbeddedUpdate(t, [nid], CheckedOnly(1), date)[nid].checked == Some(1) &&
              RawTableOf(EmbeddedUpdate(t, [nid], CheckedOnly(1), date)) != RawTableOf(t)
  {
    assert Supplied(CheckedOnly(1)) == [CheckedCol];
    OneNidChangesNothing(RawTableOf(t), nid, CheckedOnly(1), date);
    if nid in t && t[nid].checked != Some(1) {
      EmbeddedUpdateChangeOnly(t, [nid], CheckedOnly(1), date);
      assert RawTableOf(EmbeddedUpdate(t, [nid], CheckedOnly(1), date))[nid].checked == SqlInt(1);
    }
  }

  /** uncheck_nodes([a, b]) as written: row a alone can change, when its `checked` is
      NULL or differs from b, and it gets checked = -1 and date = -1; row b is never
      touched by it. */
  lemma UncheckPairAsWritten(t: RawTable, a: int, b: int, date: Date)
    ensures UpdateAsWritten(t, [a, b], CheckedOnly(-1), date) ==
            if a in t && NullOrDiffersRaw(t[a].checked, SqlInt(b))
            then t[a := Put(Put(t[a], CheckedCol, SqlInt(-1)), DateCol, SqlInt(-1))] else t
  {
    assert Supplied(CheckedOnly(-1)) == [CheckedCol];
    assert [a, b][..1] == [a];
    OneFieldAsWritten(t, [a, b], CheckedOnly(-1), date);
  }

  /** The list update_nodes([n], type=kv, checked=cv) binds. */
  lemma TwoFieldsBound(n: int, kv: int, cv: int, date: Date)
    ensures Bind(Slots(Fields(None, Some(kv), Some(cv), None), 1), Params(Fields(None, Some(kv), Some(cv), None), date, [n])) ==
            [(SetSlot(KindCol), SqlInt(kv)), (SetSlot(CheckedCol), SqlInt(kv)), (SetSlot(DateCol), SqlInt(cv))] +
            [(InSlot, SqlInt(cv))] +
            [(WhereSlot(KindCol), SqlStamp(date)), (WhereSlot(CheckedCol), SqlInt(n))]
  {
    var f := Fields(None, Some(kv), Some(cv), None);
    assert Supplied(f) == [KindCol, CheckedCol];
    assert Doubled(f, [KindCol, CheckedCol]) == [SqlInt(kv), SqlInt(kv), SqlInt(cv), SqlInt(cv)];
  }

  /** Its SET list: type and checked take kv, and date takes cv. */
  lemma TwoFieldsSets(row: RawRow, n: int, kv: int, cv: int, date: Date)
    ensures ApplySets(row, Bind(Slots(Fields(None, Some(kv), Some(cv), None), 1), Params(Fields(None, Some(kv), Some(cv), None), date, [n]))) ==
            row.(kind := SqlInt(kv), checked := SqlInt(kv), date := SqlInt(cv))
  {
    var sets := [(SetSlot(KindCol), SqlInt(kv)), (SetSlot(CheckedCol), SqlInt(kv)), (SetSlot(DateCol), SqlInt(cv))];
    var ins := [(InSlot, SqlInt(cv))];
    var wheres := [(WhereSlot(KindCol), SqlStamp(date)), (WhereSlot(CheckedCol), SqlInt(n))];
    TwoFieldsBound(n, kv, cv, date);
    ApplySetsAppend(row, sets + ins, wheres);
    ApplySetsAppend(row, sets, ins);
    NoSets(ApplySets(row, sets), ins);
    NoSets(ApplySets(row, sets + ins), wheres);
    var s1 := [(SetSlot(CheckedCol), SqlInt(kv)), (SetSlot(DateCol), SqlInt(cv))];
    var s2 := [(SetSlot(DateCol), SqlInt(cv))];
    assert sets[1..] == s1 && s1[1..] == s2 && s2[1..] == [];
    var r1 := Put(row, KindCol, SqlInt(kv));
    var r2 := Put(r1, CheckedCol, SqlInt(kv));
    assert ApplySets(row, sets) == ApplySets(r1, s1);
    assert ApplySets(r1, s1) == ApplySets(r2, s2);
    assert ApplySets(r2, s2) == ApplySets(Put(r2, DateCol, SqlInt(cv)), []);
  }

  /** update_nodes([n], type=kv, checked=cv) as written: the IN list holds cv, so the
      row whose nid is cv, not row n, is updated; it gets type = checked = kv and
      date = cv. */
  lemma TwoFieldsWriteAnotherRow(t: NodeTable, n: int, kv: int, cv: int, date: Date)
    requires cv in t && cv != n
    ensures var r := Raw(t[cv]);
            UpdateAsWritten(RawTableOf(t), [n], Fields(None, Some(kv), Some(cv), None), date) ==
            RawTableOf(t)[cv := r.(kind := SqlInt(kv), checked := SqlInt(kv), date := SqlInt(cv))]
  {
    var sets := [(SetSlot(KindCol), SqlInt(kv)), (SetSlot(CheckedCol), SqlInt(kv)), (SetSlot(DateCol), SqlInt(cv))];
    var ins := [(InSlot, SqlInt(cv))];
    var wheres := [(WhereSlot(KindCol), SqlStamp(date)), (WhereSlot(CheckedCol), SqlInt(n))];
    TwoFieldsBound(n, kv, cv, date);
    InValuesAppend(sets + ins, wheres);
    InValuesAppend(sets, ins);
    NoInValues(sets);
    NoInValues(wheres);
    assert InValues(ins) == {SqlInt(cv)} by {
      assert ins[1..] == [];
    }
    TwoFieldsSets(Raw(t[cv]), n, kv, cv, date);
    var row := Raw(t[cv]);
    WhereAppend(row, sets + ins, wheres);
    assert WhereHolds(row, wheres) by {
      assert NullOrDiffersRaw(row.kind, SqlStamp(date));
    }
  }
}
