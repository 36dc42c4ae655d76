/** The one comparator of a sorted view (liasse-expr, order.rs). */
module Order {
  import opened Values
  import opened Rows

  /** One flag per sort key, highest priority first: `true` reverses that key. */
  datatype SortOrder = SortOrder(descending: seq<bool>)
  {
    function Compare(aKeys: seq<Value>, aId: RowId, bKeys: seq<Value>, bId: RowId): Ordering {
      CompareKeys(descending, aKeys, bKeys).Then(CmpId(aId, bId))
    }

    predicate IsBefore(aKeys: seq<Value>, aId: RowId, bKeys: seq<Value>, bId: RowId) {
      Compare(aKeys, aId, bKeys, bId) == Less
    }

    /** Whether `rows`, each carrying its sort tuple, are delivered in this order. */
    ghost predicate Sorts(rows: seq<Row>) {
      forall i, j :: 0 <= i < j < |rows| ==>
        Compare(rows[i].sort, rows[i].id, rows[j].sort, rows[j].id) != Greater
    }

    /** Every row carries a full sort tuple. */
    ghost predicate Ranks(rows: seq<Row>) {
      forall i :: 0 <= i < |rows| ==> |rows[i].sort| == |descending|
    }
  }

  function Unordered(): SortOrder { SortOrder([]) }

  function Tail(keys: seq<Value>): seq<Value> {
    if keys == [] then [] else keys[1..]
  }

  /** The keys alone, before the identity tiebreak. A missing component ties. */
  function CompareKeys(descending: seq<bool>, a: seq<Value>, b: seq<Value>): Ordering {
    if descending == [] then Equal
    else
      var first := if a == [] || b == [] then Equal else Cmp(a[0], b[0]);
      (if descending[0] then first.Reverse() else first)
      .Then(CompareKeys(descending[1..], Tail(a), Tail(b)))
  }

  lemma {:induction false} KeysStrict(descending: seq<bool>, a: seq<Value>, b: seq<Value>)
    requires |a| == |b| == |descending|
    ensures Strict(a == b, CompareKeys(descending, a, b), CompareKeys(descending, b, a))
  {
    if descending != [] {
      ValueStrict(a[0], b[0]);
      KeysStrict(descending[1..], a[1..], b[1..]);
      assert a == b <==> a[0] == b[0] && a[1..] == b[1..];
    }
  }

  lemma {:induction false} KeysTransitive(descending: seq<bool>, a: seq<Value>, b: seq<Value>, c: seq<Value>)
    requires |a| == |b| == |c| == |descending|
    requires CompareKeys(descending, a, b) == CompareKeys(descending, b, c) == Less
    ensures CompareKeys(descending, a, c) == Less
  {
    if descending != [] {
      ValueStrict(a[0], b[0]);
      ValueStrict(b[0], c[0]);
      if a[0] == b[0] {
        if b[0] == c[0] { KeysTransitive(descending[1..], a[1..], b[1..], c[1..]); }
      } else if b[0] != c[0] {
        ValueStrict(a[0], c[0]);
        if descending[0] { ValueTransitive(c[0], b[0], a[0]); } else { ValueTransitive(a[0], b[0], c[0]); }
      }
    }
  }

  /** At full arity the comparator is a total order on (keys, identity): only the
      same coordinate ties, swapping reverses, and before is transitive. */
  lemma CompareIsTotal(order: SortOrder, a: seq<Value>, i: RowId, b: seq<Value>, j: RowId, c: seq<Value>, k: RowId)
    requires |a| == |b| == |c| == |order.descending|
    ensures Strict(a == b && i == j, order.Compare(a, i, b, j), order.Compare(b, j, a, i))
    ensures order.IsBefore(a, i, b, j) && order.IsBefore(b, j, c, k) ==> order.IsBefore(a, i, c, k)
  {
    KeysStrict(order.descending, a, b);
    KeysStrict(order.descending, b, c);
    IdStrict(i, j);
    if order.IsBefore(a, i, b, j) && order.IsBefore(b, j, c, k) {
      IdStrict(j, k);
      if a != b && b != c {
        KeysTransitive(order.descending, a, b, c);
      } else if a == b == c {
        KeysStrict(order.descending, a, c);
        IdTransitive(i, j, k);
      }
    }
  }

  /** Full arity is needed: with a missing component, before is not transitive. */
  lemma ShortTuplesBreakTheOrder()
    ensures exists a, b, c, i, j, k ::
      var order := SortOrder([false]);
      order.IsBefore(a, i, b, j) && order.IsBefore(b, j, c, k) && !order.IsBefore(a, i, c, k)
  {
    var a, b, c := [Int(2)], [], [Int(1)];
    var i, j, k := [Occurrence(0)], [Occurrence(1)], [Occurrence(2)];
    assert CmpPart(i[0], j[0]) == CmpPart(j[0], k[0]) == Less;
    var order := SortOrder([false]);
    assert order.IsBefore(a, i, b, j) && order.IsBefore(b, j, c, k) && !order.IsBefore(a, i, c, k);
  }

  /** A frozen gap coordinate splits delivered rows: the rows before it are exactly a
      prefix. */
  lemma {:induction false} BeforeIsAPrefix(order: SortOrder, rows: seq<Row>, keys: seq<Value>, id: RowId) returns (cut: nat)
    requires order.Sorts(rows) && order.Ranks(rows) && |keys| == |order.descending|
    ensures cut <= |rows|
    ensures forall i :: 0 <= i < |rows| ==>
      (order.IsBefore(rows[i].sort, rows[i].id, keys, id) <==> i < cut)
  {
    if rows == [] {
      return 0;
    }
    var last := rows[|rows| - 1];
    var front := rows[..|rows| - 1];
    cut := BeforeIsAPrefix(order, front, keys, id);
    if order.IsBefore(last.sort, last.id, keys, id) {
      forall i | 0 <= i < |front|
        ensures order.IsBefore(rows[i].sort, rows[i].id, keys, id)
      {
        CompareIsTotal(order, rows[i].sort, rows[i].id, last.sort, last.id, keys, id);
        assert order.Compare(rows[i].sort, rows[i].id, last.sort, last.id) != Greater;
      }
      cut := |rows|;
      assert forall i :: 0 <= i < |front| ==> front[i] == rows[i];
    }
  }

  /** A projected row with the sort tuple evaluated for it. */
  datatype Ranked = Ranked(row: Row, keys: seq<Value>)

  function Insert(order: SortOrder, x: Ranked, sorted: seq<Ranked>): (r: seq<Ranked>)
    ensures multiset(r) == multiset(sorted) + multiset{x}
  {
    if sorted == [] || order.Compare(x.keys, x.row.id, sorted[0].keys, sorted[0].row.id) != Greater
    then [x] + sorted
    else
      assert sorted == [sorted[0]] + sorted[1..];
      [sorted[0]] + Insert(order, x, sorted[1..])
  }

  /** The stable sort of the evaluator (order_rows). */
  function SortRanked(order: SortOrder, ranked: seq<Ranked>): (r: seq<Ranked>)
    ensures multiset(r) == multiset(ranked)
  {
    if ranked == [] then []
    else
      assert ranked == [ranked[0]] + ranked[1..];
      Insert(order, ranked[0], SortRanked(order, ranked[1..]))
  }

  ghost predicate SortedRanked(order: SortOrder, ranked: seq<Ranked>) {
    && (forall i :: 0 <= i < |ranked| ==> |ranked[i].keys| == |order.descending|)
    && forall i, j :: 0 <= i < j < |ranked| ==>
         order.Compare(ranked[i].keys, ranked[i].row.id, ranked[j].keys, ranked[j].row.id) != Greater
  }

  ghost predicate Leads(order: SortOrder, y: Ranked, rest: seq<Ranked>) {
    forall j :: 0 <= j < |rest| ==> order.Compare(y.keys, y.row.id, rest[j].keys, rest[j].row.id) != Greater
  }

  lemma LeaderSorts(order: SortOrder, y: Ranked, rest: seq<Ranked>)
    requires SortedRanked(order, rest) && |y.keys| == |order.descending| && Leads(order, y, rest)
    ensures SortedRanked(order, [y] + rest)
  {
  }

  lemma LeadsOn(order: SortOrder, x: Ranked, y: Ranked, rest: seq<Ranked>)
    requires |x.keys| == |y.keys| == |order.descending| && Leads(order, y, rest)
    requires forall j :: 0 <= j < |rest| ==> |rest[j].keys| == |order.descending|
    requires order.Compare(x.keys, x.row.id, y.keys, y.row.id) != Greater
    ensures Leads(order, x, [y] + rest)
  {
    forall j | 0 <= j < |rest|
      ensures order.Compare(x.keys, x.row.id, rest[j].keys, rest[j].row.id) != Greater
    {
      CompareIsTotal(order, x.keys, x.row.id, y.keys, y.row.id, rest[j].keys, rest[j].row.id);
      CompareIsTotal(order, y.keys, y.row.id, rest[j].keys, rest[j].row.id, y.keys, y.row.id);
    }
  }

  lemma LeadsInsert(order: SortOrder, x: Ranked, y: Ranked, rest: seq<Ranked>)
    requires Leads(order, y, rest) && order.Compare(y.keys, y.row.id, x.keys, x.row.id) != Greater
    ensures Leads(order, y, Insert(order, x, rest))
  {
    var r := Insert(order, x, rest);
    forall j | 0 <= j < |r|
      ensures order.Compare(y.keys, y.row.id, r[j].keys, r[j].row.id) != Greater
    {
      assert r[j] in multiset(rest) + multiset{x};
    }
  }

  lemma {:induction false} InsertSorts(order: SortOrder, x: Ranked, sorted: seq<Ranked>)
    requires SortedRanked(order, sorted) && |x.keys| == |order.descending|
    ensures SortedRanked(order, Insert(order, x, sorted))
  {
    if sorted != [] {
      var y, rest := sorted[0], sorted[1..];
      assert sorted == [y] + rest && Leads(order, y, rest);
      CompareIsTotal(order, x.keys, x.row.id, y.keys, y.row.id, y.keys, y.row.id);
      if order.Compare(x.keys, x.row.id, y.keys, y.row.id) != Greater {
        LeadsOn(order, x, y, rest);
        LeaderSorts(order, x, sorted);
      } else {
        InsertSorts(order, x, rest);
        LeadsInsert(order, x, y, rest);
        LeaderSorts(order, y, Insert(order, x, rest));
      }
    }
  }

  /** Sorting full-arity tuples delivers them in order. */
  lemma {:induction false} SortRankedSorts(order: SortOrder, ranked: seq<Ranked>)
    requires forall i :: 0 <= i < |ranked| ==> |ranked[i].keys| == |order.descending|
    ensures SortedRanked(order, SortRanked(order, ranked))
  {
    if ranked != [] {
      SortRankedSorts(order, ranked[1..]);
      InsertSorts(order, ranked[0], SortRanked(order, ranked[1..]));
    }
  }
}
