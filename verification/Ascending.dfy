/** What "ascending" means for values, identities and delivered rows, without a comparator:
    Annex B, and the tiebreak of sorted views (liasse-expr, order.rs and env.rs). */
module Ascending {
  import opened Values
  import opened Rows
  import opened Order

  // ---- types -------------------------------------------------------------

  datatype Type =
    | BoolType | IntType | DecimalType | TextType | BytesType | UuidType | DateType | TimestampType | DurationType | PeriodType
    | EnumType | RefType | JsonType | BlobType | StructType | SetType | MapType | CompositeType | AbsentType

  /** The types in the order their values take when they meet, absence last. */
  const TypeOrder: seq<Type> :=
    [BoolType, IntType, DecimalType, TextType, BytesType, UuidType, DateType, TimestampType, DurationType, PeriodType,
     EnumType, RefType, JsonType, BlobType, StructType, SetType, MapType, CompositeType, AbsentType]

  function TypeOf(v: Value): Type {
    match v
    case Bool(_) => BoolType
    case Int(_) => IntType
    case Text(_) => TextType
    case Timestamp(_) => TimestampType
    case Other(kind, _) =>
      (match kind
       case Decimal => DecimalType
       case Bytes => BytesType
       case Uuid => UuidType
       case Date => DateType
       case Duration => DurationType
       case Period => PeriodType
       case Enum => EnumType
       case Json => JsonType
       case Blob => BlobType
       case Map => MapType)
    case Ref(_, _) => RefType
    case Struct(_) => StructType
    case Set(_) => SetType
    case Composite(_) => CompositeType
    case NoneValue => AbsentType
  }

  ghost predicate TypeBefore(s: Type, t: Type) {
    exists i, j :: 0 <= i < j < |TypeOrder| && TypeOrder[i] == s && TypeOrder[j] == t
  }

  lemma TypeStands(v: Value) returns (place: nat)
    ensures place == (if v.NoneValue? then 18 else v.Rank())
    ensures StandsAt(TypeOf(v), place)
  {
    place := if v.NoneValue? then 18 else v.Rank();
  }

  ghost predicate StandsAt(t: Type, place: nat) {
    && place < |TypeOrder| && TypeOrder[place] == t
    && forall i :: 0 <= i < |TypeOrder| && TypeOrder[i] == t ==> i == place
  }

  lemma TypesStand(s: Type, t: Type, i: nat, j: nat)
    requires StandsAt(s, i) && StandsAt(t, j)
    ensures i < j <==> TypeBefore(s, t)
    ensures i == j <==> s == t
  {
  }

  /** Ranks follow the order of the types. */
  lemma RanksAscend(a: Value, b: Value)
    ensures a.Rank() == b.Rank() <==> TypeOf(a) == TypeOf(b)
    ensures a.Rank() < b.Rank() <==> TypeBefore(TypeOf(a), TypeOf(b))
  {
    var i := TypeStands(a);
    var j := TypeStands(b);
    TypesStand(TypeOf(a), TypeOf(b), i, j);
    assert i == j <==> a.Rank() == b.Rank();
    assert i < j <==> a.Rank() < b.Rank();
  }

  // ---- values ------------------------------------------------------------

  /** By type first; within a type by truth, magnitude, scalars, or the first part that
      differs, a proper prefix coming first. */
  ghost predicate ValueBefore(a: Value, b: Value)
    decreases a
  {
    if TypeOf(a) != TypeOf(b) then TypeBefore(TypeOf(a), TypeOf(b))
    else match a
      case Bool(x) => !x && b.b
      case Int(x) => x < b.i
      case Text(x) => TextBefore(x, b.text)
      case Timestamp(x) => x < b.ticks
      case Other(_, x) => x < b.code
      case Ref(composite, x) => (!composite && b.composite) || (composite == b.composite && ValuesBefore(x, b.key))
      case Struct(x) => FieldsBefore(x, b.fields)
      case Set(x) => ValuesBefore(x, b.members)
      case Composite(x) => ValuesBefore(x, b.components)
      case NoneValue => false
  }

  ghost predicate ValuesSplit(a: seq<Value>, b: seq<Value>, n: nat)
    decreases a, 0
  {
    n <= |a| && n < |b| && a[..n] == b[..n] && (n == |a| || ValueBefore(a[n], b[n]))
  }

  ghost predicate ValuesBefore(a: seq<Value>, b: seq<Value>)
    decreases a, 1
  {
    exists n :: ValuesSplit(a, b, n)
  }

  ghost predicate FieldBefore(a: Field, b: Field)
    decreases a
  {
    TextBefore(a.name, b.name) || (a.name == b.name && ValueBefore(a.value, b.value))
  }

  ghost predicate FieldsSplit(a: seq<Field>, b: seq<Field>, n: nat)
    decreases a, 0
  {
    n <= |a| && n < |b| && a[..n] == b[..n] && (n == |a| || FieldBefore(a[n], b[n]))
  }

  ghost predicate FieldsBefore(a: seq<Field>, b: seq<Field>)
    decreases a, 1
  {
    exists n :: FieldsSplit(a, b, n)
  }

  lemma {:induction false} ValueAscends(a: Value, b: Value)
    ensures Cmp(a, b) == Less <==> ValueBefore(a, b)
    decreases a, 0
  {
    RanksAscend(a, b);
    if TypeOf(a) == TypeOf(b) {
      match a
      case Text(x) => TextAscends(x, b.text);
      case Ref(_, x) => ValuesAscend(x, b.key);
      case Struct(x) => FieldsAscend(x, b.fields);
      case Set(x) => ValuesAscend(x, b.members);
      case Composite(x) => ValuesAscend(x, b.components);
      case _ =>
    }
  }

  lemma {:induction false} ValuesAscend(a: seq<Value>, b: seq<Value>)
    ensures CmpValues(a, b) == Less <==> ValuesBefore(a, b)
    decreases a, 0
  {
    if a == [] {
      if b != [] { assert ValuesSplit(a, b, 0); }
    } else if b != [] {
      ValueStrict(a[0], b[0]);
      ValueAscends(a[0], b[0]);
      if a[0] == b[0] {
        ValuesAscend(a[1..], b[1..]);
        if n: nat :| ValuesSplit(a[1..], b[1..], n) {
          assert a[..n + 1] == [a[0]] + a[1..][..n] && b[..n + 1] == [b[0]] + b[1..][..n];
          assert ValuesSplit(a, b, n + 1);
        }
        if n: nat :| ValuesSplit(a, b, n) {
          assert a[1..][..n - 1] == a[..n][1..] && b[1..][..n - 1] == b[..n][1..];
          assert ValuesSplit(a[1..], b[1..], n - 1);
        }
      } else {
        if ValueBefore(a[0], b[0]) { assert ValuesSplit(a, b, 0); }
        forall n: nat | ValuesSplit(a, b, n)
          ensures n == 0
        {
          if n > 0 { AgreeAtFirst(a, b, n); }
        }
      }
    }
  }

  lemma FieldAscends(a: Field, b: Field)
    requires Cmp(a.value, b.value) == Less <==> ValueBefore(a.value, b.value)
    ensures CmpText(a.name, b.name).Then(Cmp(a.value, b.value)) == Less <==> FieldBefore(a, b)
    ensures CmpText(a.name, b.name).Then(Cmp(a.value, b.value)) == Equal <==> a == b
  {
    TextStrict(a.name, b.name);
    TextAscends(a.name, b.name);
    ValueStrict(a.value, b.value);
  }

  lemma {:induction false} FieldsAscend(a: seq<Field>, b: seq<Field>)
    ensures CmpFields(a, b) == Less <==> FieldsBefore(a, b)
    decreases a, 0
  {
    if a == [] {
      if b != [] { assert FieldsSplit(a, b, 0); }
    } else if b != [] {
      ValueAscends(a[0].value, b[0].value);
      FieldAscends(a[0], b[0]);
      if a[0] == b[0] {
        FieldsAscend(a[1..], b[1..]);
        if n: nat :| FieldsSplit(a[1..], b[1..], n) {
          assert a[..n + 1] == [a[0]] + a[1..][..n] && b[..n + 1] == [b[0]] + b[1..][..n];
          assert FieldsSplit(a, b, n + 1);
        }
        if n: nat :| FieldsSplit(a, b, n) {
          assert a[1..][..n - 1] == a[..n][1..] && b[1..][..n - 1] == b[..n][1..];
          assert FieldsSplit(a[1..], b[1..], n - 1);
        }
      } else {
        if FieldBefore(a[0], b[0]) { assert FieldsSplit(a, b, 0); }
        forall n: nat | FieldsSplit(a, b, n)
          ensures n == 0
        {
          if n > 0 { AgreeAtFirst(a, b, n); }
        }
      }
    }
  }

  // ---- sets --------------------------------------------------------------

  /** Every member once, ascending. */
  ghost predicate Canonical(members: seq<Value>) {
    forall i, j :: 0 <= i < j < |members| ==> ValueBefore(members[i], members[j])
  }

  ghost predicate Leads(v: Value, members: seq<Value>) { forall x :: x in members ==> ValueBefore(v, x) }

  lemma LedIsCanonical(v: Value, members: seq<Value>)
    requires Canonical(members) && Leads(v, members)
    ensures Canonical([v] + members)
  {
  }

  lemma FirstLeads(members: seq<Value>)
    requires Canonical(members) && members != []
    ensures Canonical(members[1..]) && Leads(members[0], members[1..])
  {
  }

  lemma LeadsOn(v: Value, first: Value, rest: seq<Value>)
    requires ValueBefore(v, first) && Leads(first, rest)
    ensures Leads(v, [first] + rest)
  {
    forall x | x in rest
      ensures ValueBefore(v, x)
    {
      BeforeTwice(v, first, x);
    }
  }

  lemma {:induction false} InsertedIsCanonical(members: seq<Value>, v: Value)
    requires Canonical(members)
    ensures Canonical(InsertMember(members, v))
    ensures forall x :: x in InsertMember(members, v) <==> x in members || x == v
  {
    if members != [] {
      var first, rest := members[0], members[1..];
      ValueStrict(v, first);
      ValueAscends(v, first);
      ValueAscends(first, v);
      FirstLeads(members);
      assert members == [first] + rest;
      match Cmp(v, first)
      case Less =>
        LeadsOn(v, first, rest);
        LedIsCanonical(v, members);
      case Equal =>
      case Greater =>
        InsertedIsCanonical(rest, v);
        LedIsCanonical(first, InsertMember(rest, v));
    }
  }

  lemma BeforeTwice(a: Value, b: Value, c: Value)
    requires ValueBefore(a, b) && ValueBefore(b, c)
    ensures ValueBefore(a, c)
  {
    ValueAscends(a, b);
    ValueAscends(b, c);
    ValueTransitive(a, b, c);
    ValueAscends(a, c);
  }

  /** A list makes a set: its values, each once, ascending. */
  lemma {:induction false} ListsMakeSets(values: seq<Value>)
    ensures Canonical(SetOf(values)) && forall x :: x in SetOf(values) <==> x in values
  {
    if values != [] {
      var front := values[..|values| - 1];
      ListsMakeSets(front);
      InsertedIsCanonical(SetOf(front), values[|values| - 1]);
      assert values == front + [values[|values| - 1]];
    }
  }

  // ---- identities --------------------------------------------------------

  /** Keys by value, keys before positions, positions by number. */
  ghost predicate PartBefore(a: RowIdPart, b: RowIdPart) {
    match (a, b)
    case (Key(x), Key(y)) => ValueBefore(x, y)
    case (Key(_), Occurrence(_)) => true
    case (Occurrence(_), Key(_)) => false
    case (Occurrence(m), Occurrence(n)) => m < n
  }

  ghost predicate IdSplits(a: RowId, b: RowId, n: nat) {
    n <= |a| && n < |b| && a[..n] == b[..n] && (n == |a| || PartBefore(a[n], b[n]))
  }

  /** Identities ascend: the first is a proper prefix, or has the lesser first differing part. */
  ghost predicate IdBefore(a: RowId, b: RowId) { exists n :: IdSplits(a, b, n) }

  lemma PartAscends(a: RowIdPart, b: RowIdPart)
    ensures CmpPart(a, b) == Less <==> PartBefore(a, b)
  {
    if a.Key? && b.Key? { ValueAscends(a.value, b.value); }
  }

  lemma {:induction false} IdAscends(a: RowId, b: RowId)
    ensures CmpId(a, b) == Less <==> IdBefore(a, b)
  {
    if a == [] {
      if b != [] { assert IdSplits(a, b, 0); }
    } else if b != [] {
      PartStrict(a[0], b[0]);
      PartAscends(a[0], b[0]);
      if a[0] == b[0] {
        IdAscends(a[1..], b[1..]);
        if n: nat :| IdSplits(a[1..], b[1..], n) {
          assert a[..n + 1] == [a[0]] + a[1..][..n] && b[..n + 1] == [b[0]] + b[1..][..n];
          assert IdSplits(a, b, n + 1);
        }
        if n: nat :| IdSplits(a, b, n) {
          assert a[1..][..n - 1] == a[..n][1..] && b[1..][..n - 1] == b[..n][1..];
          assert IdSplits(a[1..], b[1..], n - 1);
        }
      } else {
        if PartBefore(a[0], b[0]) { assert IdSplits(a, b, 0); }
        forall n: nat | IdSplits(a, b, n)
          ensures n == 0
        {
          if n > 0 { AgreeAtFirst(a, b, n); }
        }
      }
    }
  }

  // ---- coordinates of sorted rows ----------------------------------------

  /** The keys tie at `m`: equal, or missing on one side. */
  predicate KeysTie(a: seq<Value>, b: seq<Value>, m: nat) { m < |a| && m < |b| ==> a[m] == b[m] }

  ghost predicate TieUpTo(a: seq<Value>, b: seq<Value>, n: nat) { forall m: nat :: m < n ==> KeysTie(a, b, m) }

  /** The first key that does not tie is `n`, and it ascends or descends as declared. */
  ghost predicate KeyDecides(descending: seq<bool>, a: seq<Value>, b: seq<Value>, n: nat) {
    && n < |descending| && n < |a| && n < |b| && TieUpTo(a, b, n)
    && if descending[n] then ValueBefore(b[n], a[n]) else ValueBefore(a[n], b[n])
  }

  /** One row comes before another: by the first key that differs in its own direction, or,
      with all keys tied, by ascending identity whatever the directions. */
  ghost predicate RowBefore(descending: seq<bool>, a: seq<Value>, i: RowId, b: seq<Value>, j: RowId) {
    || (exists n :: KeyDecides(descending, a, b, n))
    || (TieUpTo(a, b, |descending|) && IdBefore(i, j))
  }

  lemma {:induction false} KeysAscend(descending: seq<bool>, a: seq<Value>, b: seq<Value>)
    ensures CompareKeys(descending, a, b) == Less <==> exists n :: KeyDecides(descending, a, b, n)
    ensures CompareKeys(descending, a, b) == Equal <==> TieUpTo(a, b, |descending|)
  {
    if descending != [] {
      KeysAscend(descending[1..], Tail(a), Tail(b));
      TailTies(a, b, |descending| - 1);
      if a != [] && b != [] {
        ValueStrict(a[0], b[0]);
        ValueAscends(a[0], b[0]);
        ValueAscends(b[0], a[0]);
      }
      if KeysTie(a, b, 0) {
        if n: nat :| KeyDecides(descending[1..], Tail(a), Tail(b), n) {
          TailTies(a, b, n);
          assert KeyDecides(descending, a, b, n + 1);
        }
        if n: nat :| KeyDecides(descending, a, b, n) {
          assert n > 0;
          TailTies(a, b, n - 1);
          assert KeyDecides(descending[1..], Tail(a), Tail(b), n - 1);
        }
      } else {
        if CompareKeys(descending, a, b) == Less { assert KeyDecides(descending, a, b, 0); }
        if n: nat :| KeyDecides(descending, a, b, n) { assert n == 0; }
        assert !TieUpTo(a, b, |descending|);
      }
    }
  }

  lemma TailTies(a: seq<Value>, b: seq<Value>, n: nat)
    ensures TieUpTo(a, b, n + 1) <==> KeysTie(a, b, 0) && TieUpTo(Tail(a), Tail(b), n)
  {
    forall m: nat
      ensures KeysTie(a, b, m + 1) <==> KeysTie(Tail(a), Tail(b), m)
    {
    }
    if KeysTie(a, b, 0) && TieUpTo(Tail(a), Tail(b), n) {
      forall m: nat | m < n + 1
        ensures KeysTie(a, b, m)
      {
        if m > 0 { assert KeysTie(Tail(a), Tail(b), m - 1); }
      }
    }
    if TieUpTo(a, b, n + 1) {
      forall m: nat | m < n
        ensures KeysTie(Tail(a), Tail(b), m)
      {
        assert KeysTie(a, b, m + 1);
      }
    }
  }

  /** The comparator puts one row before another exactly so, at every arity. */
  lemma BeforeMeans(order: SortOrder, a: seq<Value>, i: RowId, b: seq<Value>, j: RowId)
    ensures order.IsBefore(a, i, b, j) <==> RowBefore(order.descending, a, i, b, j)
  {
    KeysAscend(order.descending, a, b);
    IdAscends(i, j);
  }

  /** Rows with one sort tuple come in the order of their identities, in every direction. */
  lemma TiesAscend(order: SortOrder, keys: seq<Value>, i: RowId, j: RowId)
    ensures order.IsBefore(keys, i, keys, j) <==> IdBefore(i, j)
  {
    KeysAscend(order.descending, keys, keys);
    IdAscends(i, j);
    assert TieUpTo(keys, keys, |order.descending|);
  }

  /** Rows in comparator order: each is the same coordinate as a later one, or before it. */
  lemma SortedAscend(order: SortOrder, rows: seq<Row>, i: nat, j: nat)
    requires order.Sorts(rows) && order.Ranks(rows) && i < j < |rows|
    ensures || (rows[i].sort == rows[j].sort && rows[i].id == rows[j].id)
            || RowBefore(order.descending, rows[i].sort, rows[i].id, rows[j].sort, rows[j].id)
    ensures rows[i].sort == rows[j].sort ==> rows[i].id == rows[j].id || IdBefore(rows[i].id, rows[j].id)
  {
    var a, b := rows[i], rows[j];
    CompareIsTotal(order, a.sort, a.id, b.sort, b.id, b.sort, b.id);
    assert order.Compare(a.sort, a.id, b.sort, b.id) != Greater;
    BeforeMeans(order, a.sort, a.id, b.sort, b.id);
    if a.sort == b.sort { TiesAscend(order, a.sort, a.id, b.id); }
  }

  // ---- the sort is stable ------------------------------------------------

  /** The rows at one coordinate, in the order they stand. */
  function AtCoordinate(ranked: seq<Ranked>, keys: seq<Value>, id: RowId): seq<Ranked> {
    if ranked == [] then []
    else (if ranked[0].keys == keys && ranked[0].row.id == id then [ranked[0]] else []) + AtCoordinate(ranked[1..], keys, id)
  }

  lemma SameCoordinateTies(order: SortOrder, keys: seq<Value>, id: RowId)
    ensures order.Compare(keys, id, keys, id) == Equal
  {
    KeysAscend(order.descending, keys, keys);
    assert TieUpTo(keys, keys, |order.descending|);
    IdStrict(id, id);
  }

  lemma CoordinateFirst(x: Ranked, rest: seq<Ranked>, keys: seq<Value>, id: RowId)
    ensures AtCoordinate([x] + rest, keys, id) == (if x.keys == keys && x.row.id == id then [x] else []) + AtCoordinate(rest, keys, id)
  {
    assert ([x] + rest)[1..] == rest;
  }

  /** Two rows at different coordinates may change places. */
  lemma CoordinatesSwap(x: Ranked, y: Ranked, rest: seq<Ranked>, keys: seq<Value>, id: RowId)
    requires !(x.keys == y.keys && x.row.id == y.row.id)
    ensures AtCoordinate([y] + ([x] + rest), keys, id) == AtCoordinate([x] + ([y] + rest), keys, id)
  {
    CoordinateFirst(x, rest, keys, id);
    CoordinateFirst(y, rest, keys, id);
    CoordinateFirst(y, [x] + rest, keys, id);
    CoordinateFirst(x, [y] + rest, keys, id);
  }

  lemma {:induction false} InsertIsStable(order: SortOrder, x: Ranked, sorted: seq<Ranked>, keys: seq<Value>, id: RowId)
    ensures AtCoordinate(Insert(order, x, sorted), keys, id) == AtCoordinate([x] + sorted, keys, id)
  {
    if sorted != [] && order.Compare(x.keys, x.row.id, sorted[0].keys, sorted[0].row.id) == Greater {
      var y, rest := sorted[0], sorted[1..];
      InsertIsStable(order, x, rest, keys, id);
      SameCoordinateTies(order, x.keys, x.row.id);
      CoordinatesSwap(x, y, rest, keys, id);
      CoordinateFirst(y, Insert(order, x, rest), keys, id);
      CoordinateFirst(y, [x] + rest, keys, id);
      assert sorted == [y] + rest;
    }
  }

  /** Rows that tie in keys and identity stay in the order they came in. */
  lemma {:induction false} SortIsStable(order: SortOrder, ranked: seq<Ranked>, keys: seq<Value>, id: RowId)
    ensures AtCoordinate(SortRanked(order, ranked), keys, id) == AtCoordinate(ranked, keys, id)
  {
    if ranked != [] {
      SortIsStable(order, ranked[1..], keys, id);
      InsertIsStable(order, ranked[0], SortRanked(order, ranked[1..]), keys, id);
      assert ([ranked[0]] + SortRanked(order, ranked[1..]))[1..] == SortRanked(order, ranked[1..]);
    }
  }
}
