/** Keys of one type have different texts unless they are equal (liasse-ident, key.rs). */
module TypedKeys {
  import opened Digits
  import opened Text
  import opened Values
  import opened KeyText

  /** Values of one type, part by part: the values a key of that type may take. */
  ghost predicate OneType(a: Value, b: Value)
    decreases a
  {
    match (a, b)
    case (Bool(_), Bool(_)) => true
    case (Int(_), Int(_)) => true
    case (Text(_), Text(_)) => true
    case (Timestamp(_), Timestamp(_)) => true
    case (Other(k, _), Other(l, _)) => k == l
    case (Ref(c, x), Ref(d, y)) => c == d && AllOneType(x, y)
    case (Struct(x), Struct(y)) => FieldsOneType(x, y)
    case (Composite(x), Composite(y)) => AllOneType(x, y)
    case (NoneValue, NoneValue) => true
    case (Set(_), Set(_)) => true
    case _ => false
  }

  ghost predicate AllOneType(a: seq<Value>, b: seq<Value>)
    decreases a
  {
    |a| == |b| && forall i :: 0 <= i < |a| ==> OneType(a[i], b[i])
  }

  ghost predicate FieldsOneType(a: seq<Field>, b: seq<Field>)
    decreases a
  {
    |a| == |b| && forall i :: 0 <= i < |a| ==> a[i].name == b[i].name && OneType(a[i].value, b[i].value)
  }

  /** The texts of the opaque kinds tell their values apart. */
  ghost predicate TellsApart(canon: Value -> string) {
    forall v: Value, w: Value :: (v.Timestamp? || v.Other?) && OneType(v, w) && canon(v) == canon(w) ==> v == w
  }

  // ---- numbers -----------------------------------------------------------

  /** The number a signed decimal text stands for. */
  function SignedOf(s: string): int
    requires s != "" && AllDigits(if s[0] == '-' then s[1..] else s)
  {
    if s[0] == '-' then 0 - (NumberOf(s[1..]) as int) else NumberOf(s)
  }

  /** The text of an integer reads as that integer; so no two integers share a text. */
  lemma IntegersRead(canon: Value -> string, i: int)
    ensures var s := FromScalar(canon, Int(i)).value;
      s != "" && AllDigits(if s[0] == '-' then s[1..] else s) && SignedOf(s) == i
  {
    var s := FromScalar(canon, Int(i)).value;
    if i < 0 {
      assert s[1..] == DecimalText(-i);
      DecimalReads(-i);
    } else {
      assert IsDigit(s[0]);
      DecimalReads(i);
    }
  }

  /** A scalar text names its value among the values of its type. */
  lemma ScalarsDiffer(canon: Value -> string, v: Value, w: Value)
    requires TellsApart(canon) && OneType(v, w)
    requires FromScalar(canon, v).Ok? && FromScalar(canon, v) == FromScalar(canon, w)
    ensures v == w
  {
    match v
    case Int(i) =>
      IntegersRead(canon, i);
      IntegersRead(canon, w.i);
    case Bool(b) => assert |"true"| != |"false"|;
    case _ =>
  }

  // ---- flattened keys ----------------------------------------------------

  /** Two values of one type flatten to as many components, and to the same ones only when
      they are equal. */
  ghost predicate Apart<T>(x: T, a: Keyed<seq<string>>, y: T, b: Keyed<seq<string>>) {
    a.Ok? && b.Ok? ==> |a.value| == |b.value| && (a.value == b.value ==> x == y)
  }

  lemma {:induction false} FlattenedDiffer(canon: Value -> string, v: Value, w: Value)
    requires TellsApart(canon) && OneType(v, w)
    ensures Apart(v, Flattened(canon, v), w, Flattened(canon, w))
    decreases v, 1, 0
  {
    match v
    case Struct(fields) =>
      FieldsDiffer(canon, v, fields, w, w.fields, |fields|);
      assert fields[..|fields|] == fields && w.fields[..|fields|] == w.fields;
    case Ref(_, key) =>
      AllDiffer(canon, v, key, w, w.key, |key|);
      assert key[..|key|] == key && w.key[..|key|] == w.key;
    case Composite(components) =>
      AllDiffer(canon, v, components, w, w.components, |components|);
      assert components[..|components|] == components && w.components[..|components|] == w.components;
    case _ => OneComponentDiffers(canon, v, w);
  }

  lemma OneComponentDiffers(canon: Value -> string, v: Value, w: Value)
    requires TellsApart(canon) && OneType(v, w) && !v.Struct? && !v.Ref? && !v.Composite?
    ensures Apart(v, Flattened(canon, v), w, Flattened(canon, w))
  {
    var x, y := Flattened(canon, v), Flattened(canon, w);
    if x.Ok? && x == y {
      assert x.value[0] == FromScalar(canon, v).value && y.value[0] == FromScalar(canon, w).value;
      ScalarsDiffer(canon, v, w);
    }
  }

  lemma {:induction false} FieldsDiffer(canon: Value -> string, v: Value, fields: seq<Field>, w: Value, others: seq<Field>, n: nat)
    requires TellsApart(canon) && v == Struct(fields) && w == Struct(others) && FieldsOneType(fields, others) && n <= |fields|
    ensures Apart(fields[..n], FlattenedFields(canon, v, fields, n), others[..n], FlattenedFields(canon, w, others, n))
    decreases v, 0, n
  {
    if n > 0 {
      FieldsDiffer(canon, v, fields, w, others, n - 1);
      FlattenedDiffer(canon, fields[n - 1].value, others[n - 1].value);
      assert fields[n - 1] == Field(fields[n - 1].name, fields[n - 1].value);
      OneMoreDiffers(fields, FlattenedFields(canon, v, fields, n - 1), Flattened(canon, fields[n - 1].value), FlattenedFields(canon, v, fields, n),
                     others, FlattenedFields(canon, w, others, n - 1), Flattened(canon, others[n - 1].value),
                     FlattenedFields(canon, w, others, n), n);
    }
  }

  lemma {:induction false} AllDiffer(canon: Value -> string, v: Value, vs: seq<Value>, w: Value, ws: seq<Value>, n: nat)
    requires TellsApart(canon) && AllOneType(vs, ws) && n <= |vs|
    requires (v == Composite(vs) || (v.Ref? && v.key == vs)) && (w == Composite(ws) || (w.Ref? && w.key == ws))
    ensures Apart(vs[..n], FlattenedAll(canon, v, vs, n), ws[..n], FlattenedAll(canon, w, ws, n))
    decreases v, 0, n
  {
    if n > 0 {
      AllDiffer(canon, v, vs, w, ws, n - 1);
      FlattenedDiffer(canon, vs[n - 1], ws[n - 1]);
      OneMoreDiffers(vs, FlattenedAll(canon, v, vs, n - 1), Flattened(canon, vs[n - 1]), FlattenedAll(canon, v, vs, n),
                     ws, FlattenedAll(canon, w, ws, n - 1), Flattened(canon, ws[n - 1]), FlattenedAll(canon, w, ws, n), n);
    }
  }

  ghost predicate Appends(before: Keyed<seq<string>>, last: Keyed<seq<string>>, all: Keyed<seq<string>>) {
    all.Ok? ==> before.Ok? && last.Ok? && all.value == before.value + last.value
  }

  lemma OneMoreDiffers<T>(xs: seq<T>, a: Keyed<seq<string>>, b: Keyed<seq<string>>, ab: Keyed<seq<string>>,
                          ys: seq<T>, c: Keyed<seq<string>>, d: Keyed<seq<string>>, cd: Keyed<seq<string>>, n: nat)
    requires 0 < n <= |xs| && n <= |ys| && Appends(a, b, ab) && Appends(c, d, cd)
    requires Apart(xs[..n - 1], a, ys[..n - 1], c)
    requires b.Ok? && d.Ok? ==> |b.value| == |d.value| && (b.value == d.value ==> xs[n - 1] == ys[n - 1])
    ensures Apart(xs[..n], ab, ys[..n], cd)
  {
    if ab.Ok? && cd.Ok? && ab.value == cd.value {
      assert a.value == ab.value[..|a.value|] == cd.value[..|a.value|] == c.value;
      assert b.value == ab.value[|a.value|..] == cd.value[|a.value|..] == d.value;
      assert xs[..n] == xs[..n - 1] + [xs[n - 1]] && ys[..n] == ys[..n - 1] + [ys[n - 1]];
    }
  }

  // ---- in order ----------------------------------------------------------

  lemma {:induction false} FlattenedPrefix(canon: Value -> string, vs: seq<Value>, ws: seq<Value>, n: nat)
    requires n <= |vs| && n <= |ws| && vs[..n] == ws[..n]
    ensures FlattenedAll(canon, Composite(vs), vs, n) == FlattenedAll(canon, Composite(ws), ws, n)
  {
    if n > 0 {
      assert vs[n - 1] == vs[..n][n - 1] == ws[n - 1];
      assert vs[..n - 1] == vs[..n][..n - 1] == ws[..n - 1];
      FlattenedPrefix(canon, vs, ws, n - 1);
    }
  }

  /** The components of a key come in key order: those of its first values, then those of the
      last, and a scalar gives its own text alone. */
  lemma ComponentsInOrder(canon: Value -> string, vs: seq<Value>, last: Value)
    requires Flattened(canon, Composite(vs + [last])).Ok?
    ensures Flattened(canon, Composite(vs)).Ok? && Flattened(canon, last).Ok?
    ensures Flattened(canon, Composite(vs + [last])).value == Flattened(canon, Composite(vs)).value + Flattened(canon, last).value
    ensures last.Text? ==> Flattened(canon, last).value == [last.text]
    ensures last == Bool(true) ==> Flattened(canon, last).value == ["true"]
    ensures last == Bool(false) ==> Flattened(canon, last).value == ["false"]
  {
    FlattenedPrefix(canon, vs + [last], vs, |vs|);
    assert (vs + [last])[..|vs|] == vs[..|vs|];
  }

  /** Two keys of one type have one text only when they are the same key: every row of a
      collection has a path of its own. */
  lemma TypedKeysDiffer(canon: Value -> string, a: seq<Value>, b: seq<Value>)
    requires TellsApart(canon) && AllOneType(a, b)
    requires KeyOfValues(canon, a).Ok? && KeyOfValues(canon, a) == KeyOfValues(canon, b)
    ensures a == b
  {
    var x, y := Flattened(canon, Composite(a)).value, Flattened(canon, Composite(b)).value;
    KeysDiffer(x, y);
    FlattenedDiffer(canon, Composite(a), Composite(b));
  }
}
