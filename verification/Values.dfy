/** Scalar values and the total order they are compared in (Annex B). */
module Values {

  datatype Option<+T> = None | Some(value: T)

  datatype Ordering = Less | Equal | Greater
  {
    function Reverse(): Ordering {
      match this
      case Less => Greater
      case Equal => Equal
      case Greater => Less
    }

    /** Compare by `this`, and by `next` where `this` ties. */
    function Then(next: Ordering): Ordering {
      if this == Equal then next else this
    }
  }

  /** Scalar types the model never looks inside: one of their values is its type
      and its position in that type's own order. */
  datatype Kind = Decimal | Bytes | Uuid | Date | Duration | Period | Enum | Json | Blob | Map

  datatype Field = Field(name: string, value: Value)

  datatype Value =
    | Bool(b: bool)
    | Int(i: int)
    | Text(text: string)
    | Timestamp(ticks: int)
    | Other(kind: Kind, code: int)
    | Ref(composite: bool, key: seq<Value>)
    | Struct(fields: seq<Field>)
    | Set(members: seq<Value>)
    | Composite(components: seq<Value>)
    | NoneValue
  {
    /** The cross-type rank; `none` is the maximum. */
    function Rank(): nat {
      match this
      case Bool(_) => 0
      case Int(_) => 1
      case Text(_) => 3
      case Timestamp(_) => 7
      case Other(kind, _) =>
        (match kind
         case Decimal => 2
         case Bytes => 4
         case Uuid => 5
         case Date => 6
         case Duration => 8
         case Period => 9
         case Enum => 10
         case Json => 12
         case Blob => 13
         case Map => 16)
      case Ref(_, _) => 11
      case Struct(_) => 14
      case Set(_) => 15
      case Composite(_) => 17
      case NoneValue => 255
    }
  }

  function CmpInt(a: int, b: int): Ordering {
    if a < b then Less else if a == b then Equal else Greater
  }

  function CmpBool(a: bool, b: bool): Ordering {
    if a == b then Equal else if b then Less else Greater
  }

  /** Text compares by Unicode scalar value, a proper prefix first. */
  function CmpText(a: string, b: string): Ordering {
    if a == [] then (if b == [] then Equal else Less)
    else if b == [] then Greater
    else CmpInt(a[0] as int, b[0] as int).Then(CmpText(a[1..], b[1..]))
  }

  function Cmp(a: Value, b: Value): Ordering
    decreases a
  {
    if a.Rank() != b.Rank() then CmpInt(a.Rank(), b.Rank())
    else match a
      case Bool(x) => CmpBool(x, b.b)
      case Int(x) => CmpInt(x, b.i)
      case Text(x) => CmpText(x, b.text)
      case Timestamp(x) => CmpInt(x, b.ticks)
      case Other(_, x) => CmpInt(x, b.code)
      case Ref(composite, x) => CmpBool(composite, b.composite).Then(CmpValues(x, b.key))
      case Struct(x) => CmpFields(x, b.fields)
      case Set(x) => CmpValues(x, b.members)
      case Composite(x) => CmpValues(x, b.components)
      case NoneValue => Equal
  }

  function CmpValues(a: seq<Value>, b: seq<Value>): Ordering
    decreases a
  {
    if a == [] then (if b == [] then Equal else Less)
    else if b == [] then Greater
    else Cmp(a[0], b[0]).Then(CmpValues(a[1..], b[1..]))
  }

  function CmpFields(a: seq<Field>, b: seq<Field>): Ordering
    decreases a
  {
    if a == [] then (if b == [] then Equal else Less)
    else if b == [] then Greater
    else CmpText(a[0].name, b[0].name).Then(Cmp(a[0].value, b[0].value)).Then(CmpFields(a[1..], b[1..]))
  }

  /** Only equal arguments tie, and swapping them reverses the answer. */
  ghost predicate Strict(same: bool, ab: Ordering, ba: Ordering) {
    && (ab == Equal <==> same)
    && ab == ba.Reverse()
  }

  lemma {:induction false} TextStrict(a: string, b: string)
    ensures Strict(a == b, CmpText(a, b), CmpText(b, a))
  {
    if a != [] && b != [] {
      TextStrict(a[1..], b[1..]);
      assert a == b <==> a[0] == b[0] && a[1..] == b[1..];
    }
  }

  /** Texts agree up to `n`; there the first ends, or has the lesser scalar. */
  ghost predicate TextSplits(a: string, b: string, n: nat) {
    n <= |a| && n < |b| && a[..n] == b[..n] && (n == |a| || a[n] < b[n])
  }

  ghost predicate TextBefore(a: string, b: string) { exists n :: TextSplits(a, b, n) }

  lemma AgreeAtFirst<T>(a: seq<T>, b: seq<T>, n: nat)
    requires 0 < n <= |a| && n <= |b| && a[..n] == b[..n]
    ensures a[0] == b[0]
  {
    assert a[..n][0] == a[0] && b[..n][0] == b[0];
  }

  lemma {:induction false} TextAscends(a: string, b: string)
    ensures CmpText(a, b) == Less <==> TextBefore(a, b)
  {
    if a == [] {
      if b != [] { assert TextSplits(a, b, 0); }
    } else if b != [] {
      if a[0] == b[0] {
        TextAscends(a[1..], b[1..]);
        if n: nat :| TextSplits(a[1..], b[1..], n) {
          assert a[..n + 1] == [a[0]] + a[1..][..n] && b[..n + 1] == [b[0]] + b[1..][..n];
          assert TextSplits(a, b, n + 1);
        }
        if n: nat :| TextSplits(a, b, n) {
          assert a[1..][..n - 1] == a[..n][1..] && b[1..][..n - 1] == b[..n][1..];
          assert TextSplits(a[1..], b[1..], n - 1);
        }
      } else {
        if a[0] < b[0] { assert TextSplits(a, b, 0); }
        forall n: nat | TextSplits(a, b, n)
          ensures n == 0
        {
          if n > 0 { AgreeAtFirst(a, b, n); }
        }
      }
    }
  }

  lemma {:induction false} TextTransitive(a: string, b: string, c: string)
    requires CmpText(a, b) == CmpText(b, c) == Less
    ensures CmpText(a, c) == Less
  {
    if a != [] {
      if a[0] == b[0] && b[0] == c[0] { TextTransitive(a[1..], b[1..], c[1..]); }
    }
  }

  /** Annex B order: only equal values tie, and swapping reverses the answer. */
  lemma {:induction false} ValueStrict(a: Value, b: Value)
    ensures Strict(a == b, Cmp(a, b), Cmp(b, a))
    decreases a
  {
    if a.Rank() == b.Rank() {
      match a
      case Text(x) => TextStrict(x, b.text);
      case Ref(_, x) => ValuesStrict(x, b.key);
      case Struct(x) => FieldsStrict(x, b.fields);
      case Set(x) => ValuesStrict(x, b.members);
      case Composite(x) => ValuesStrict(x, b.components);
      case _ =>
    }
  }

  lemma {:induction false} ValuesStrict(a: seq<Value>, b: seq<Value>)
    ensures Strict(a == b, CmpValues(a, b), CmpValues(b, a))
    decreases a
  {
    if a != [] && b != [] {
      ValueStrict(a[0], b[0]);
      ValuesStrict(a[1..], b[1..]);
      assert a == b <==> a[0] == b[0] && a[1..] == b[1..];
    }
  }

  lemma {:induction false} FieldsStrict(a: seq<Field>, b: seq<Field>)
    ensures Strict(a == b, CmpFields(a, b), CmpFields(b, a))
    decreases a
  {
    if a != [] && b != [] {
      TextStrict(a[0].name, b[0].name);
      ValueStrict(a[0].value, b[0].value);
      FieldsStrict(a[1..], b[1..]);
      assert a == b <==> a[0] == b[0] && a[1..] == b[1..];
    }
  }

  /** Annex B order is transitive, so with ValueStrict it is total. */
  lemma {:induction false} ValueTransitive(a: Value, b: Value, c: Value)
    requires Cmp(a, b) == Cmp(b, c) == Less
    ensures Cmp(a, c) == Less
    decreases a
  {
    if a.Rank() == b.Rank() == c.Rank() {
      match a
      case Text(x) => TextTransitive(x, b.text, c.text);
      case Ref(_, x) =>
        if a.composite == b.composite == c.composite { ValuesTransitive(x, b.key, c.key); }
      case Struct(x) => FieldsTransitive(x, b.fields, c.fields);
      case Set(x) => ValuesTransitive(x, b.members, c.members);
      case Composite(x) => ValuesTransitive(x, b.components, c.components);
      case _ =>
    }
  }

  lemma {:induction false} ValuesTransitive(a: seq<Value>, b: seq<Value>, c: seq<Value>)
    requires CmpValues(a, b) == CmpValues(b, c) == Less
    ensures CmpValues(a, c) == Less
    decreases a
  {
    if a != [] {
      ValueStrict(a[0], b[0]);
      ValueStrict(b[0], c[0]);
      if a[0] == b[0] {
        if b[0] == c[0] { ValuesTransitive(a[1..], b[1..], c[1..]); }
      } else if b[0] != c[0] {
        ValueTransitive(a[0], b[0], c[0]);
      }
    }
  }

  lemma {:induction false} FieldsTransitive(a: seq<Field>, b: seq<Field>, c: seq<Field>)
    requires CmpFields(a, b) == CmpFields(b, c) == Less
    ensures CmpFields(a, c) == Less
    decreases a
  {
    if a != [] {
      TextStrict(a[0].name, b[0].name);
      TextStrict(b[0].name, c[0].name);
      ValueStrict(a[0].value, b[0].value);
      ValueStrict(b[0].value, c[0].value);
      if a[0].name == b[0].name && b[0].name == c[0].name {
        if a[0].value == b[0].value && b[0].value == c[0].value {
          FieldsTransitive(a[1..], b[1..], c[1..]);
        } else if a[0].value != b[0].value && b[0].value != c[0].value {
          ValueTransitive(a[0].value, b[0].value, c[0].value);
        }
      } else if a[0].name != b[0].name && b[0].name != c[0].name {
        TextTransitive(a[0].name, b[0].name, c[0].name);
      }
    }
  }

  /** Insert into an ascending duplicate-free sequence, the canonical form of a set. */
  function InsertMember(members: seq<Value>, v: Value): seq<Value> {
    if members == [] then [v]
    else match Cmp(v, members[0])
      case Less => [v] + members
      case Equal => members
      case Greater => [members[0]] + InsertMember(members[1..], v)
  }

  function SetOf(values: seq<Value>): seq<Value> {
    if values == [] then [] else InsertMember(SetOf(values[..|values| - 1]), values[|values| - 1])
  }
}
