/** Canonical key text (liasse-ident, key.rs). */
module KeyText {
  import opened Digits
  import opened Escape
  import opened Text
  import opened Values

  datatype KeyError = EmptyKey | EmptyKeyComponent | NotKeyComponent | MalformedEscape

  datatype Keyed<+T> = Ok(value: T) | Err(error: KeyError) {
    predicate IsFailure() { Err? }
    function PropagateFailure<U>(): Keyed<U>
      requires Err?
    {
      Err(error)
    }
    function Extract(): T
      requires Ok?
    {
      value
    }
  }

  // ---- joining components ------------------------------------------------

  function Encodings(components: seq<string>): seq<string> {
    seq(|components|, i requires 0 <= i < |components| => Encoding(KEY, components[i]))
  }

  /** Each component is escaped before the join. */
  function KeyOf(components: seq<string>): string
    requires |components| > 0
  {
    Join(Encodings(components), ':')
  }

  lemma {:induction false} JoinOneMore(parts: seq<string>, last: string, sep: char)
    requires |parts| > 0
    ensures Join(parts + [last], sep) == Join(parts, sep) + [sep] + last
    decreases |parts|
  {
    if |parts| == 1 {
      assert (parts + [last])[1..] == [last];
    } else {
      assert (parts + [last])[1..] == parts[1..] + [last];
      JoinOneMore(parts[1..], last, sep);
    }
  }

  method NewKey(first: string, rest: seq<string>) returns (joined: string)
    ensures joined == KeyOf([first] + rest)
  {
    joined := Escape.Encode(KEY, first);
    assert Encodings([first] + rest[..0]) == [joined];
    for i := 0 to |rest|
      invariant joined == KeyOf([first] + rest[..i])
    {
      joined := joined + ":";
      var encoded := Escape.Encode(KEY, rest[i]);
      JoinOneMore(Encodings([first] + rest[..i]), encoded, ':');
      assert Encodings([first] + rest[..i + 1]) == Encodings([first] + rest[..i]) + [encoded];
      joined := joined + encoded;
    }
    assert rest[..|rest|] == rest;
  }

  function DecodeAll(parts: seq<string>): Option<seq<string>> {
    if parts == [] then Some([])
    else
      var first, rest := Decoding(KEY, parts[0]), DecodeAll(parts[1..]);
      if first.Some? && rest.Some? then Some([first.value] + rest.value) else None
  }

  /** The decoded components of a key text, split at its unescaped separators. */
  function Components(key: string): Option<seq<string>> { DecodeAll(Split(key, ':')) }

  lemma {:induction false} DecodeAllEncodings(components: seq<string>)
    ensures DecodeAll(Encodings(components)) == Some(components)
  {
    if components != [] {
      RoundTrip(KEY, components[0]);
      assert Encodings(components)[1..] == Encodings(components[1..]);
      DecodeAllEncodings(components[1..]);
      assert [components[0]] + components[1..] == components;
    }
  }

  /** `components` inverts the join, for any components, empty ones included. */
  lemma ComponentsInvertJoin(components: seq<string>)
    requires |components| > 0
    ensures Components(KeyOf(components)) == Some(components)
    ensures '/' !in KeyOf(components)
  {
    var parts := Encodings(components);
    forall i | 0 <= i < |parts|
      ensures ':' !in parts[i] && '/' !in parts[i]
    {
      EncodingIsFree(KEY, components[i]);
    }
    SplitJoin(parts, ':');
    JoinExcludes(parts, ':', '/');
    DecodeAllEncodings(components);
  }

  lemma KeysDiffer(a: seq<string>, b: seq<string>)
    requires |a| > 0 && |b| > 0 && KeyOf(a) == KeyOf(b)
    ensures a == b
  {
    ComponentsInvertJoin(a);
    ComponentsInvertJoin(b);
  }

  /** A joined key passes validation: the separators are literal to the decoder. */
  lemma {:induction false} KeysValidate(components: seq<string>)
    requires |components| > 0
    ensures Decoding(KEY, KeyOf(components)).Some?
    decreases |components|
  {
    var parts := Encodings(components);
    if |components| == 1 {
      RoundTrip(KEY, components[0]);
    } else {
      assert parts[1..] == Encodings(components[1..]);
      KeysValidate(components[1..]);
      var tail := [':'] + KeyOf(components[1..]);
      assert tail[1..] == KeyOf(components[1..]);
      DecodeUndoesEncode(KEY, components[0], tail);
      assert Join(parts, ':') == parts[0] + tail;
    }
  }

  // ---- flattening typed key values ---------------------------------------

  /** A scalar's canonical text; the texts of the opaque kinds are given. */
  function FromScalar(canon: Value -> string, v: Value): Keyed<string> {
    match v
    case Text(t) => Ok(t)
    case Bool(b) => Ok(if b then "true" else "false")
    case Int(i) => Ok(if i < 0 then "-" + DecimalText(-i) else DecimalText(i))
    case Timestamp(_) => Ok(canon(v))
    case Other(kind, _) =>
      if kind == Kind.Period || kind == Kind.Json || kind == Kind.Blob || kind == Kind.Map then Err(NotKeyComponent) else Ok(canon(v))
    case Ref(_, _) => Err(NotKeyComponent)
    case Struct(_) => Err(NotKeyComponent)
    case Set(_) => Err(NotKeyComponent)
    case Composite(_) => Err(NotKeyComponent)
    case NoneValue => Err(NotKeyComponent)
  }

  /** The scalar components of a value: a struct in field order, a ref by its target key, a
      composite in key order. */
  function Flattened(canon: Value -> string, v: Value): Keyed<seq<string>>
    decreases v, 1, 0
  {
    match v
    case Struct(fields) => FlattenedFields(canon, v, fields, |fields|)
    case Ref(_, key) => FlattenedAll(canon, v, key, |key|)
    case Composite(components) => FlattenedAll(canon, v, components, |components|)
    case _ =>
      var component :- FromScalar(canon, v);
      if component == "" then Err(EmptyKeyComponent) else Ok([component])
  }

  function FlattenedFields(canon: Value -> string, ghost v: Value, fields: seq<Field>, n: nat): Keyed<seq<string>>
    requires n <= |fields| && v == Struct(fields)
    decreases v, 0, n
  {
    if n == 0 then Ok([])
    else
      var before :- FlattenedFields(canon, v, fields, n - 1);
      var last :- Flattened(canon, fields[n - 1].value);
      Ok(before + last)
  }

  function FlattenedAll(canon: Value -> string, ghost v: Value, vs: seq<Value>, n: nat): Keyed<seq<string>>
    requires n <= |vs| && (v == Composite(vs) || (v.Ref? && v.key == vs))
    decreases v, 0, n
  {
    if n == 0 then Ok([])
    else
      var before :- FlattenedAll(canon, v, vs, n - 1);
      var last :- Flattened(canon, vs[n - 1]);
      Ok(before + last)
  }

  /** The walk itself, appending to one list. */
  class Flattener {
    const canon: Value -> string
    var out: seq<string>

    constructor (canon: Value -> string)
      ensures this.canon == canon && out == []
    {
      this.canon := canon;
      out := [];
    }

    method Flatten(v: Value) returns (r: Keyed<()>)
      modifies this`out
      ensures r.Ok? <==> Flattened(canon, v).Ok?
      ensures r.Ok? ==> out == old(out) + Flattened(canon, v).value
      ensures r.Err? ==> r.error == Flattened(canon, v).error
      decreases v, 1
    {
      if v.Struct? {
        r := FlattenFields(v, v.fields);
      } else if v.Ref? {
        r := FlattenAll(v, v.key);
      } else if v.Composite? {
        r := FlattenAll(v, v.components);
      } else {
        var component := FromScalar(canon, v);
        if component.Err? {
          return Err(component.error);
        }
        if component.value == "" {
          return Err(EmptyKeyComponent);
        }
        out := out + [component.value];
        return Ok(());
      }
    }

    method FlattenFields(ghost v: Value, fields: seq<Field>) returns (r: Keyed<()>)
      requires v == Struct(fields)
      modifies this`out
      ensures r.Ok? <==> FlattenedFields(canon, v, fields, |fields|).Ok?
      ensures r.Ok? ==> out == old(out) + FlattenedFields(canon, v, fields, |fields|).value
      ensures r.Err? ==> r.error == FlattenedFields(canon, v, fields, |fields|).error
      decreases v, 0
    {
      for n := 0 to |fields|
        invariant FlattenedFields(canon, v, fields, n).Ok?
        invariant out == old(out) + FlattenedFields(canon, v, fields, n).value
      {
        r := Flatten(fields[n].value);
        if r.Err? {
          FieldsFailAt(canon, v, fields, n, |fields|);
          return;
        }
      }
      return Ok(());
    }

    method FlattenAll(ghost v: Value, vs: seq<Value>) returns (r: Keyed<()>)
      requires v == Composite(vs) || (v.Ref? && v.key == vs)
      modifies this`out
      ensures r.Ok? <==> FlattenedAll(canon, v, vs, |vs|).Ok?
      ensures r.Ok? ==> out == old(out) + FlattenedAll(canon, v, vs, |vs|).value
      ensures r.Err? ==> r.error == FlattenedAll(canon, v, vs, |vs|).error
      decreases v, 0
    {
      for n := 0 to |vs|
        invariant FlattenedAll(canon, v, vs, n).Ok?
        invariant out == old(out) + FlattenedAll(canon, v, vs, n).value
      {
        r := Flatten(vs[n]);
        if r.Err? {
          AllFailAt(canon, v, vs, n, |vs|);
          return;
        }
      }
      return Ok(());
    }
  }

  lemma {:induction false} FieldsFailAt(canon: Value -> string, v: Value, fields: seq<Field>, i: nat, n: nat)
    requires i < n <= |fields| && v == Struct(fields)
    requires FlattenedFields(canon, v, fields, i).Ok? && Flattened(canon, fields[i].value).Err?
    ensures FlattenedFields(canon, v, fields, n) == Err(Flattened(canon, fields[i].value).error)
    decreases n
  {
    if i < n - 1 { FieldsFailAt(canon, v, fields, i, n - 1); }
  }

  lemma {:induction false} AllFailAt(canon: Value -> string, v: Value, vs: seq<Value>, i: nat, n: nat)
    requires i < n <= |vs| && (v == Composite(vs) || (v.Ref? && v.key == vs))
    requires FlattenedAll(canon, v, vs, i).Ok? && Flattened(canon, vs[i]).Err?
    ensures FlattenedAll(canon, v, vs, n) == Err(Flattened(canon, vs[i]).error)
    decreases n
  {
    if i < n - 1 { AllFailAt(canon, v, vs, i, n - 1); }
  }

  /** The key text of typed key values, or why they are no key. */
  method FromKeyValues(canon: Value -> string, values: seq<Value>) returns (r: Keyed<string>)
    ensures r == KeyOfValues(canon, values)
  {
    var flattener := new Flattener(canon);
    var flattened := flattener.FlattenAll(Composite(values), values);
    assert Flattened(canon, Composite(values)) == FlattenedAll(canon, Composite(values), values, |values|);
    if flattened.Err? {
      return Err(flattened.error);
    }
    assert flattener.out == Flattened(canon, Composite(values)).value;
    if flattener.out == [] {
      return Err(EmptyKey);
    }
    var key := NewKey(flattener.out[0], flattener.out[1..]);
    assert [flattener.out[0]] + flattener.out[1..] == flattener.out;
    return Ok(key);
  }

  function KeyOfValues(canon: Value -> string, values: seq<Value>): Keyed<string> {
    var components :- Flattened(canon, Composite(values));
    if components == [] then Err(EmptyKey) else Ok(KeyOf(components))
  }

  ghost predicate NoneEmpty(components: seq<string>) {
    forall i :: 0 <= i < |components| ==> components[i] != ""
  }

  lemma {:induction false} FlattenedAreNonEmpty(canon: Value -> string, v: Value)
    requires Flattened(canon, v).Ok?
    ensures NoneEmpty(Flattened(canon, v).value)
    decreases v, 1, 0
  {
    if v.Struct? {
      FieldsAreNonEmpty(canon, v, v.fields, |v.fields|);
    } else if v.Ref? {
      AllAreNonEmpty(canon, v, v.key, |v.key|);
    } else if v.Composite? {
      AllAreNonEmpty(canon, v, v.components, |v.components|);
    }
  }

  lemma {:induction false} FieldsAreNonEmpty(canon: Value -> string, v: Value, fields: seq<Field>, n: nat)
    requires n <= |fields| && v == Struct(fields) && FlattenedFields(canon, v, fields, n).Ok?
    ensures NoneEmpty(FlattenedFields(canon, v, fields, n).value)
    decreases v, 0, n
  {
    if n > 0 {
      FieldsAreNonEmpty(canon, v, fields, n - 1);
      FlattenedAreNonEmpty(canon, fields[n - 1].value);
    }
  }

  lemma {:induction false} AllAreNonEmpty(canon: Value -> string, v: Value, vs: seq<Value>, n: nat)
    requires n <= |vs| && (v == Composite(vs) || (v.Ref? && v.key == vs)) && FlattenedAll(canon, v, vs, n).Ok?
    ensures NoneEmpty(FlattenedAll(canon, v, vs, n).value)
    decreases v, 0, n
  {
    if n > 0 {
      AllAreNonEmpty(canon, v, vs, n - 1);
      FlattenedAreNonEmpty(canon, vs[n - 1]);
    }
  }

  lemma NonEmptyKey(components: seq<string>)
    requires |components| > 0 && (|components| > 1 || components[0] != "")
    ensures KeyOf(components) != ""
  {
    EncodingIsFree(KEY, components[0]);
  }

  /** A key built from typed values is non-empty text that gives back exactly the flattened
      components, none of them empty. */
  lemma KeyValuesRoundTrip(canon: Value -> string, values: seq<Value>)
    requires KeyOfValues(canon, values).Ok?
    ensures var key := KeyOfValues(canon, values).value;
      && Components(key) == Some(Flattened(canon, Composite(values)).value)
      && NoneEmpty(Components(key).value) && key != "" && '/' !in key && Decoding(KEY, key).Some?
  {
    var components := Flattened(canon, Composite(values)).value;
    FlattenedAreNonEmpty(canon, Composite(values));
    ComponentsInvertJoin(components);
    NonEmptyKey(components);
    KeysValidate(components);
  }
}
