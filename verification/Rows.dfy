/** Rows, cells and the environment an expression is evaluated in. */
module Rows {
  import opened Values

  /** One component of an occurrence identity: a key value, or a position for a
      row that has no key. */
  datatype RowIdPart = Key(value: Value) | Occurrence(position: nat)

  type RowId = seq<RowIdPart>

  datatype Cell = Scalar(value: Value) | RowCell(row: Row) | Collection(rows: seq<Row>)

  datatype Row = Row(id: RowId, key: Value, cells: map<string, Cell>, sort: seq<Value>)

  /** The labels errors carry. */
  datatype NameKind = AParameter | AStructural | AnImport | ABinding

  datatype Selection = ActiveKeyringVersion | ScalarRowSelector

  datatype Expected =
    | ExpectedCurrent | ExpectedRow | ExpectedKeyedRow | ExpectedRowWithField | ExpectedStructWithField
    | ExpectedView | ExpectedCollection | ExpectedNestedCollection | ExpectedSetOrView
    | ExpectedScalar | ExpectedScalarField | ExpectedListElement | ExpectedStructField | ExpectedScalarOrRow
    | ExpectedScalarKey | ExpectedKeyValue | ExpectedSortKey | ExpectedHostArgument | ExpectedArgument
    | ExpectedAggregatedField | ExpectedInstant | ExpectedBlob

  datatype EvalError =
    | UnboundName(kind: NameKind, name: string)
    | ShapeMismatch(expected: Expected)
    | Cardinality(context: Selection, found: nat)
    | EmptyTemporalRange
    | Refused(code: int)  // any failure of a primitive or of the environment

  datatype Result<+T> = Ok(value: T) | Err(error: EvalError)
  {
    predicate IsFailure() { Err? }

    function PropagateFailure<U>(): Result<U>
      requires Err?
    {
      Err(error)
    }

    function Extract(): T
      requires Ok?
    {
      value
    }
  }

  function CmpPart(a: RowIdPart, b: RowIdPart): Ordering {
    match (a, b)
    case (Key(x), Key(y)) => Cmp(x, y)
    case (Key(_), Occurrence(_)) => Less
    case (Occurrence(_), Key(_)) => Greater
    case (Occurrence(m), Occurrence(n)) => CmpInt(m, n)
  }

  function CmpId(a: RowId, b: RowId): Ordering {
    if a == [] then (if b == [] then Equal else Less)
    else if b == [] then Greater
    else CmpPart(a[0], b[0]).Then(CmpId(a[1..], b[1..]))
  }

  lemma PartStrict(a: RowIdPart, b: RowIdPart)
    ensures Strict(a == b, CmpPart(a, b), CmpPart(b, a))
  {
    if a.Key? && b.Key? { ValueStrict(a.value, b.value); }
  }

  lemma {:induction false} IdStrict(a: RowId, b: RowId)
    ensures Strict(a == b, CmpId(a, b), CmpId(b, a))
  {
    if a != [] && b != [] {
      PartStrict(a[0], b[0]);
      IdStrict(a[1..], b[1..]);
      assert a == b <==> a[0] == b[0] && a[1..] == b[1..];
    }
  }

  lemma {:induction false} IdTransitive(a: RowId, b: RowId, c: RowId)
    requires CmpId(a, b) == CmpId(b, c) == Less
    ensures CmpId(a, c) == Less
  {
    if a != [] {
      PartStrict(a[0], b[0]);
      PartStrict(b[0], c[0]);
      if a[0] == b[0] {
        if b[0] == c[0] { IdTransitive(a[1..], b[1..], c[1..]); }
      } else if b[0] != c[0] && a[0].Key? && b[0].Key? && c[0].Key? {
        ValueTransitive(a[0].value, b[0].value, c[0].value);
      }
    }
  }
}
