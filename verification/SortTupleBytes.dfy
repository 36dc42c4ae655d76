/** The order-preserving byte encoding of a sort tuple (liasse-pg, design-prototype/lib.rs). */
module SortTupleBytes {
  import opened Values
  import opened Order
  import opened Utf8

  /** A stored field's tagged wire value; any other tag is kept as what it stands for. */
  datatype Tagged = TaggedInt(i: int) | TaggedText(s: string) | TaggedOther(value: Value)

  datatype KeySpec = KeySpec(field: string, desc: bool)

  datatype Pair = Pair(name: string, tagged: Tagged)

  function TaggedField(row: seq<Pair>, name: string): Option<Tagged> {
    if row == [] then None
    else if row[0].name == name then Some(row[0].tagged)
    else TaggedField(row[1..], name)
  }

  const I64_MIN := -0x8000_0000_0000_0000
  const I64_END := 0x8000_0000_0000_0000

  /** The low `n` bytes of `v`, most significant first. */
  function BigEndian(v: nat, n: nat): (r: seq<Byte>)
    ensures |r| == n
  {
    if n == 0 then [] else BigEndian(v / 256, n - 1) + [(v % 256) as Byte]
  }

  function ReadBig(s: seq<Byte>): nat {
    if s == [] then 0 else 256 * ReadBig(s[..|s| - 1]) + s[|s| - 1] as nat
  }

  /** Read most significant byte first, the bytes give what is left of the number modulo their
      range. */
  lemma {:induction false} BigEndianReads(v: nat, n: nat)
    ensures ReadBig(BigEndian(v, n)) == v % Power256(n)
  {
    if n > 0 {
      var s := BigEndian(v, n);
      assert s[..n - 1] == BigEndian(v / 256, n - 1);
      BigEndianReads(v / 256, n - 1);
      LowByte(v, Power256(n - 1));
    }
  }

  lemma LowByte(v: nat, p: nat)
    requires p > 0
    ensures 256 * (v / 256 % p) + v % 256 == v % (256 * p)
  {
    var q, r := v / 256 / p, v / 256 % p;
    assert v / 256 == q * p + r;
    assert v == 256 * (q * p + r) + v % 256;
    assert v == (256 * p) * q + (256 * r + v % 256) by { Spread(p, q, r, v % 256); }
    assert 0 <= 256 * r + v % 256 < 256 * p;
    Remainder(v, 256 * p, q, 256 * r + v % 256);
  }

  lemma Spread(p: nat, q: nat, r: nat, low: nat)
    ensures 256 * (q * p + r) + low == (256 * p) * q + (256 * r + low)
  {
  }

  lemma Remainder(v: nat, d: nat, q: nat, r: nat)
    requires d > 0 && v == d * q + r && r < d
    ensures v % d == r
  {
    Multiples(d, q, v / d);
    Multiples(d, v / d, q);
  }

  lemma {:induction false} Multiples(d: nat, q: nat, k: nat)
    ensures q < k ==> d * q + d <= d * k
    decreases k
  {
    if q < k {
      assert d * k == d * (k - 1) + d;
      Multiples(d, q, k - 1);
    }
  }

  /** A 64-bit integer is a presence byte and its distance from the least one. */
  lemma IntegersRead(i: int)
    requires I64_MIN <= i < I64_END
    ensures var b := KeyBytes(false, ValueOrdBytes(TaggedInt(i)));
      |b| == 9 && b[0] == 1 && ReadBig(b[1..]) == i + 0x8000_0000_0000_0000
  {
    BigEndianReads(i - I64_MIN, 8);
    PowerOf8();
  }

  lemma PowerOf8()
    ensures Power256(8) == 0x1_0000_0000_0000_0000
  {
    assert Power256(1) == 256 && Power256(2) == 256 * Power256(1) && Power256(3) == 256 * Power256(2) && Power256(4) == 256 * Power256(3);
    assert Power256(5) == 256 * Power256(4) && Power256(6) == 256 * Power256(5) && Power256(7) == 256 * Power256(6) && Power256(8) == 256 * Power256(7);
  }

  /** The ascending byte form of one value: a sign-flipped 64-bit integer, or terminated
      text; an integer outside 64 bits has none. */
  function ValueOrdBytes(tagged: Tagged): Option<seq<Byte>> {
    match tagged
    case TaggedInt(i) => if I64_MIN <= i < I64_END then Some(BigEndian(i - I64_MIN, 8)) else None
    case TaggedText(s) => Some(Terminated(s))
    case TaggedOther(_) => None
  }

  function KeyBytes(desc: bool, bytes: Option<seq<Byte>>): seq<Byte> {
    match (desc, bytes)
    case (false, Some(b)) => [1] + b
    case (false, None) => [2]
    case (true, Some(b)) => [1] + Invert(b)
    case (true, None) => [0]
  }

  function FieldBytes(key: KeySpec, row: seq<Pair>): seq<Byte> {
    var tagged := TaggedField(row, key.field);
    KeyBytes(key.desc, if tagged.Some? then ValueOrdBytes(tagged.value) else None)
  }

  function TupleBytes(keys: seq<KeySpec>, row: seq<Pair>): seq<Byte> {
    if keys == [] then [] else FieldBytes(keys[0], row) + TupleBytes(keys[1..], row)
  }

  lemma {:induction false} TupleBytesAppend(keys: seq<KeySpec>, row: seq<Pair>, n: nat)
    requires n < |keys|
    ensures TupleBytes(keys[..n + 1], row) == TupleBytes(keys[..n], row) + FieldBytes(keys[n], row)
  {
    if n > 0 {
      TupleBytesAppend(keys[1..], row, n - 1);
      assert keys[..n + 1][1..] == keys[1..][..n] && keys[..n][1..] == keys[1..][..n - 1];
    } else {
      assert keys[..1][1..] == [] && keys[..0] == [];
    }
  }

  /** The ORDER BY face: one encoding pushed key by key. */
  method EvalDemoOrd(keys: seq<KeySpec>, row: seq<Pair>) returns (enc: seq<Byte>)
    ensures enc == TupleBytes(keys, row)
  {
    enc := [];
    for n := 0 to |keys|
      invariant enc == TupleBytes(keys[..n], row)
    {
      var tagged := TaggedField(row, keys[n].field);
      var bytes := if tagged.Some? then ValueOrdBytes(tagged.value) else None;
      match (keys[n].desc, bytes) {
        case (false, Some(b)) => enc := enc + [1] + b;
        case (false, None) => enc := enc + [2];
        case (true, Some(b)) => enc := enc + [1] + Invert(b);
        case (true, None) => enc := enc + [0];
      }
      TupleBytesAppend(keys, row, n);
      assert enc == TupleBytes(keys[..n], row) + FieldBytes(keys[n], row);
    }
    assert keys[..|keys|] == keys;
  }

  // ---- against the comparator --------------------------------------------

  /** The sort key value a stored field contributes: absent reads as `none`. */
  function KeyValue(tagged: Option<Tagged>): Value {
    match tagged
    case None => NoneValue
    case Some(TaggedInt(i)) => Int(i)
    case Some(TaggedText(s)) => Text(s)
    case Some(TaggedOther(v)) => v
  }

  function KeyValues(keys: seq<KeySpec>, row: seq<Pair>): seq<Value> {
    if keys == [] then [] else [KeyValue(TaggedField(row, keys[0].field))] + KeyValues(keys[1..], row)
  }

  function Directions(keys: seq<KeySpec>): seq<bool> {
    seq(|keys|, i requires 0 <= i < |keys| => keys[i].desc)
  }

  /** What the encoding covers: 64-bit integers, text and `none`. */
  predicate Encodable(tagged: Option<Tagged>) {
    match tagged
    case None => true
    case Some(TaggedInt(i)) => I64_MIN <= i < I64_END
    case Some(TaggedText(_)) => true
    case Some(TaggedOther(v)) => v == NoneValue
  }

  /** Two texts neither of which goes on past a NUL where the other ends. */
  predicate ApartBeforeNul(s: string, t: string) { !PastNul(s, t) && !PastNul(t, s) }

  /** Two values of one column: encodable, of one type when both are present, and texts
      told apart before a NUL. */
  predicate OneColumn(a: Option<Tagged>, b: Option<Tagged>) {
    && Encodable(a) && Encodable(b)
    && (KeyValue(a) != NoneValue && KeyValue(b) != NoneValue ==> KeyValue(a).Int? == KeyValue(b).Int?)
    && (KeyValue(a).Text? && KeyValue(b).Text? ==> ApartBeforeNul(KeyValue(a).text, KeyValue(b).text))
  }

  lemma {:induction false} BigEndianDecides(a: nat, b: nat, n: nat)
    requires a < b && b / Power256(n) == 0
    ensures Decides(BigEndian(a, n), BigEndian(b, n))
    decreases n
  {
    if n > 0 {
      var x, y := BigEndian(a / 256, n - 1), BigEndian(b / 256, n - 1);
      DivideTwice(b, n);
      if a / 256 < b / 256 {
        BigEndianDecides(a / 256, b / 256, n - 1);
        DecidesExtends([], x, y, [(a % 256) as Byte], [(b % 256) as Byte]);
        assert [] + x + [(a % 256) as Byte] == BigEndian(a, n) && [] + y + [(b % 256) as Byte] == BigEndian(b, n);
      } else {
        var u, v := BigEndian(a, n), BigEndian(b, n);
        assert u[..n - 1] == x == y == v[..n - 1] && u[n - 1] < v[n - 1];
      }
    }
  }

  function Power256(n: nat): nat
    ensures Power256(n) > 0
  {
    if n == 0 then 1 else 256 * Power256(n - 1)
  }

  lemma DivideTwice(b: nat, n: nat)
    requires n > 0 && b / Power256(n) == 0
    ensures b / 256 / Power256(n - 1) == 0
  {
    var p := Power256(n - 1);
    assert b < 256 * p;
    assert b / 256 < p;
  }

  /** One present value before another is decided by their bytes. */
  lemma ValueDecides(a: Tagged, b: Tagged)
    requires OneColumn(Some(a), Some(b)) && KeyValue(Some(a)) != NoneValue && KeyValue(Some(b)) != NoneValue
    requires Cmp(KeyValue(Some(a)), KeyValue(Some(b))) == Less
    ensures Decides(ValueOrdBytes(a).value, ValueOrdBytes(b).value)
  {
    if a.TaggedInt? {
      assert Power256(8) == 0x1_0000_0000_0000_0000 by {
        assert Power256(4) == 0x1_0000_0000;
        assert Power256(8) == 256 * 256 * 256 * 256 * Power256(4);
      }
      BigEndianDecides(a.i - I64_MIN, b.i - I64_MIN, 8);
    } else {
      TextDecides(a.s, b.s);
    }
  }

  /** One key: equal values encode alike, and a lesser one is decided less. */
  lemma FieldDecides(key: KeySpec, a: seq<Pair>, b: seq<Pair>)
    requires OneColumn(TaggedField(a, key.field), TaggedField(b, key.field))
    ensures var c := Cmp(KeyValue(TaggedField(a, key.field)), KeyValue(TaggedField(b, key.field)));
      Decided(if key.desc then c.Reverse() else c, FieldBytes(key, a), FieldBytes(key, b))
  {
    var ta, tb := TaggedField(a, key.field), TaggedField(b, key.field);
    var va, vb := KeyValue(ta), KeyValue(tb);
    var x, y := FieldBytes(key, a), FieldBytes(key, b);
    ValueStrict(va, vb);
    if va != NoneValue && vb != NoneValue {
      if va != vb {
        if Cmp(va, vb) == Less { PresentDecides(key.desc, ta.value, tb.value); }
        else { PresentDecides(key.desc, tb.value, ta.value); }
      }
    } else if va != vb {
      assert x[0] != y[0] && x[..0] == y[..0];
    }
  }

  lemma PresentDecides(desc: bool, a: Tagged, b: Tagged)
    requires OneColumn(Some(a), Some(b)) && KeyValue(Some(a)) != NoneValue && KeyValue(Some(b)) != NoneValue
    requires Cmp(KeyValue(Some(a)), KeyValue(Some(b))) == Less
    ensures var x, y := KeyBytes(desc, ValueOrdBytes(a)), KeyBytes(desc, ValueOrdBytes(b));
      if desc then Decides(y, x) else Decides(x, y)
  {
    ValueDecides(a, b);
    var u, v := ValueOrdBytes(a).value, ValueOrdBytes(b).value;
    if desc {
      InvertReverses(u, v);
      DecidesExtends([1], Invert(v), Invert(u), [], []);
      assert [1] + Invert(v) + [] == [1] + Invert(v) && [1] + Invert(u) + [] == [1] + Invert(u);
    } else {
      DecidesExtends([1], u, v, [], []);
      assert [1] + u + [] == [1] + u && [1] + v + [] == [1] + v;
    }
  }

  ghost predicate OneColumnEach(keys: seq<KeySpec>, a: seq<Pair>, b: seq<Pair>) {
    forall i :: 0 <= i < |keys| ==> OneColumn(TaggedField(a, keys[i].field), TaggedField(b, keys[i].field))
  }

  /** Byte strings in the order `o` says, decided by a byte both have. */
  ghost predicate Decided(o: Ordering, a: seq<Byte>, b: seq<Byte>) {
    match o
    case Less => Decides(a, b)
    case Equal => a == b
    case Greater => Decides(b, a)
  }

  lemma DecidedThen(o: Ordering, x: seq<Byte>, y: seq<Byte>, next: Ordering, s: seq<Byte>, t: seq<Byte>)
    requires Decided(o, x, y) && Decided(next, s, t)
    ensures Decided(o.Then(next), x + s, y + t)
  {
    match o
    case Less =>
      DecidesExtends([], x, y, s, t);
      assert [] + x + s == x + s && [] + y + t == y + t;
    case Greater =>
      DecidesExtends([], y, x, t, s);
      assert [] + x + s == x + s && [] + y + t == y + t;
    case Equal =>
      assert x + s + [] == x + s && x + t + [] == x + t;
      if next == Less { DecidesExtends(x, s, t, [], []); }
      if next == Greater { DecidesExtends(x, t, s, [], []); }
  }

  lemma {:induction false} TupleDecides(keys: seq<KeySpec>, a: seq<Pair>, b: seq<Pair>)
    requires OneColumnEach(keys, a, b)
    ensures Decided(CompareKeys(Directions(keys), KeyValues(keys, a), KeyValues(keys, b)),
                    TupleBytes(keys, a), TupleBytes(keys, b))
  {
    if keys != [] {
      var rest := keys[1..];
      FieldDecides(keys[0], a, b);
      TupleDecides(rest, a, b);
      assert Directions(keys)[1..] == Directions(rest);
      assert Tail(KeyValues(keys, a)) == KeyValues(rest, a) && Tail(KeyValues(keys, b)) == KeyValues(rest, b);
      var c := Cmp(KeyValues(keys, a)[0], KeyValues(keys, b)[0]);
      DecidedThen(if keys[0].desc then c.Reverse() else c, FieldBytes(keys[0], a), FieldBytes(keys[0], b),
                  CompareKeys(Directions(rest), KeyValues(rest, a), KeyValues(rest, b)),
                  TupleBytes(rest, a), TupleBytes(rest, b));
    }
  }

  lemma {:induction false} KeyValuesArity(keys: seq<KeySpec>, row: seq<Pair>)
    ensures |KeyValues(keys, row)| == |keys|
  {
    if keys != [] { KeyValuesArity(keys[1..], row); }
  }

  /** memcmp on the encodings is the comparator on the keys, for every mix of directions
      and `none`; equal bytes mean equal tuples. */
  lemma EncodingRefinesCompare(keys: seq<KeySpec>, a: seq<Pair>, b: seq<Pair>)
    requires OneColumnEach(keys, a, b)
    ensures CmpBytes(TupleBytes(keys, a), TupleBytes(keys, b))
         == CompareKeys(Directions(keys), KeyValues(keys, a), KeyValues(keys, b))
    ensures TupleBytes(keys, a) == TupleBytes(keys, b) <==> KeyValues(keys, a) == KeyValues(keys, b)
  {
    TupleDecides(keys, a, b);
    KeyValuesArity(keys, a);
    KeyValuesArity(keys, b);
    KeysStrict(Directions(keys), KeyValues(keys, a), KeyValues(keys, b));
    match CompareKeys(Directions(keys), KeyValues(keys, a), KeyValues(keys, b))
    case Less => DecidesCompares(TupleBytes(keys, a), TupleBytes(keys, b));
    case Equal => CmpBytesSelf(TupleBytes(keys, a));
    case Greater => DecidesCompares(TupleBytes(keys, b), TupleBytes(keys, a));
    if TupleBytes(keys, a) == TupleBytes(keys, b) { CmpBytesSelf(TupleBytes(keys, a)); }
  }

  // ---- where it stops ----------------------------------------------------

  lemma {:induction false} LongerIsGreater(x: seq<Byte>, y: seq<Byte>)
    requires y != []
    ensures CmpBytes(x, x + y) == Less && CmpBytes(x + y, x) == Greater
  {
    if x != [] {
      assert (x + y)[1..] == x[1..] + y;
      LongerIsGreater(x[1..], y);
    } else {
      assert x + y == y;
    }
  }

  lemma {:induction false} PastNulIsGreater(s: string, t: string)
    requires PastNul(s, t)
    ensures CmpText(s, t) == Less && CmpText(t, s) == Greater
  {
    if s != [] {
      PastNulTails(s, t);
      PastNulIsGreater(s[1..], t[1..]);
    }
  }

  function OneText(field: string, s: string): seq<Pair> { [Pair(field, TaggedText(s))] }

  lemma OneTextBytes(key: KeySpec, s: string)
    ensures TupleBytes([key], OneText(key.field, s)) == [1] + (if key.desc then Invert(Terminated(s)) else Terminated(s))
    ensures KeyValues([key], OneText(key.field, s)) == [Text(s)]
  {
    assert [key][1..] == [];
    assert TupleBytes([], OneText(key.field, s)) == [];
    assert FieldBytes(key, OneText(key.field, s)) + [] == FieldBytes(key, OneText(key.field, s));
    assert KeyValues([], OneText(key.field, s)) == [];
    assert [Text(s)] + [] == [Text(s)];
  }

  lemma InvertJoin(x: seq<Byte>, y: seq<Byte>)
    ensures Invert(x + y) == Invert(x) + Invert(y)
  {
  }

  lemma PastNulCompares(key: KeySpec, s: string, t: string)
    requires PastNul(s, t)
    ensures CmpBytes(TupleBytes([key], OneText(key.field, s)), TupleBytes([key], OneText(key.field, t))) == Less
    ensures CmpBytes(TupleBytes([key], OneText(key.field, t)), TupleBytes([key], OneText(key.field, s))) == Greater
  {
    OneTextBytes(key, s);
    OneTextBytes(key, t);
    PastNulExtends(s, t);
    var x, y := Terminated(s), Terminated(t[|s| + 1..]);
    InvertJoin(x, y);
    if key.desc {
      LongerIsGreater([1] + Invert(x), Invert(y));
      assert [1] + (Invert(x) + Invert(y)) == ([1] + Invert(x)) + Invert(y);
    } else {
      LongerIsGreater([1] + x, y);
      assert [1] + (x + y) == ([1] + x) + y;
    }
  }

  lemma CompareOne(key: KeySpec, a: Value, b: Value)
    ensures CompareKeys(Directions([key]), [a], [b]) == if key.desc then Cmp(a, b).Reverse() else Cmp(a, b)
  {
    assert Directions([key]) == [key.desc] && [key.desc][1..] == [];
    assert CompareKeys([], Tail([a]), Tail([b])) == Equal;
  }

  /** A lone text key is ordered rightly exactly when it ascends or no text goes on past a
      NUL: inverted, the longer text should come first and still comes last. */
  lemma NulBreaksTheOrder(key: KeySpec, s: string, t: string)
    ensures var a, b := OneText(key.field, s), OneText(key.field, t);
      CmpBytes(TupleBytes([key], a), TupleBytes([key], b)) == CompareKeys(Directions([key]), KeyValues([key], a), KeyValues([key], b))
      <==> !key.desc || ApartBeforeNul(s, t)
  {
    OneTextBytes(key, s);
    OneTextBytes(key, t);
    CompareOne(key, Text(s), Text(t));
    if PastNul(s, t) {
      PastNulCompares(key, s, t);
      PastNulIsGreater(s, t);
    } else if PastNul(t, s) {
      PastNulCompares(key, t, s);
      PastNulIsGreater(t, s);
    } else {
      EncodingRefinesCompare([key], OneText(key.field, s), OneText(key.field, t));
    }
  }

  function TextThen(key: KeySpec, next: KeySpec, s: string, v: Tagged): seq<Pair> {
    [Pair(key.field, TaggedText(s)), Pair(next.field, v)]
  }

  lemma TextThenBytes(key: KeySpec, next: KeySpec, s: string, v: Tagged)
    requires key.field != next.field && ValueOrdBytes(v).Some?
    ensures TupleBytes([key, next], TextThen(key, next, s, v))
         == ([1] + (if key.desc then Invert(Terminated(s)) else Terminated(s))) + KeyBytes(next.desc, ValueOrdBytes(v))
    ensures KeyValues([key, next], TextThen(key, next, s, v)) == [Text(s), KeyValue(Some(v))]
  {
    var row := TextThen(key, next, s, v);
    assert row[1..] == [Pair(next.field, v)];
    assert TaggedField(row, key.field) == Some(TaggedText(s)) && TaggedField(row, next.field) == Some(v);
    assert [key, next][1..] == [next] && [next][1..] == [];
    assert FieldBytes(next, row) + [] == FieldBytes(next, row);
    assert TupleBytes([next], row) == KeyBytes(next.desc, ValueOrdBytes(v));
    assert KeyValues([next], row) == [KeyValue(Some(v))] + [];
  }

  lemma AfterCommonPrefix(x: seq<Byte>, a: seq<Byte>, b: seq<Byte>)
    requires a != [] && b != [] && a[0] < b[0]
    ensures CmpBytes(x + a, x + b) == Less && CmpBytes(x + b, x + a) == Greater
  {
    assert a[..0] == b[..0];
    DecidesExtends(x, a, b, [], []);
    assert x + a + [] == x + a && x + b + [] == x + b;
    DecidesCompares(x + a, x + b);
  }

  lemma TerminatedNul(s: string)
    ensures PastNul(s, s + "\0") && Terminated(s + "\0") == Terminated(s) + [0]
  {
    var t := s + "\0";
    assert t[..|s|] == s && t[|s| + 1..] == "";
    PastNulExtends(s, t);
    assert Terminated("") == [0];
  }

  /** What follows the common part: the next key's marker against the NUL's terminator. */
  lemma MarkerMeetsNul(desc: bool, x: seq<Byte>, rest: seq<Byte>)
    requires rest != [] && 0 < rest[0] < 255
    ensures var a := ([1] + (if desc then Invert(x) else x)) + rest;
      var b := ([1] + (if desc then Invert(x + [0]) else x + [0])) + rest;
      CmpBytes(a, b) == if desc then Less else Greater
  {
    InvertJoin(x, [0]);
    assert Invert([0]) == [255];
    var start := [1] + (if desc then Invert(x) else x);
    if desc {
      AfterCommonPrefix(start, rest, [255] + rest);
      assert ([1] + (Invert(x) + [255])) + rest == start + ([255] + rest);
    } else {
      AfterCommonPrefix(start, [0] + rest, rest);
      assert ([1] + (x + [0])) + rest == start + ([0] + rest);
    }
  }

  lemma CompareTwo(key: KeySpec, next: KeySpec, a: Value, b: Value, v: Value)
    requires Cmp(a, b) != Equal
    ensures CompareKeys(Directions([key, next]), [a, v], [b, v]) == if key.desc then Cmp(a, b).Reverse() else Cmp(a, b)
  {
    assert Directions([key, next])[0] == key.desc;
  }

  /** Before another key, a text key of either direction is ordered wrongly as soon as one
      text is the other with a NUL after it: the next key's marker is compared with what
      follows the NUL. */
  lemma NulBreaksEarlierKeys(key: KeySpec, next: KeySpec, s: string, v: Tagged)
    requires key.field != next.field && ValueOrdBytes(v).Some?
    ensures var a, b := TextThen(key, next, s, v), TextThen(key, next, s + "\0", v);
      && CmpBytes(TupleBytes([key, next], a), TupleBytes([key, next], b)) == (if key.desc then Less else Greater)
      && CompareKeys(Directions([key, next]), KeyValues([key, next], a), KeyValues([key, next], b))
         == if key.desc then Greater else Less
  {
    TextThenBytes(key, next, s, v);
    TextThenBytes(key, next, s + "\0", v);
    TerminatedNul(s);
    PastNulIsGreater(s, s + "\0");
    MarkerMeetsNul(key.desc, Terminated(s), KeyBytes(next.desc, ValueOrdBytes(v)));
    CompareTwo(key, next, Text(s), Text(s + "\0"), KeyValue(Some(v)));
  }

  /** An integer outside 64 bits is encoded as if it were absent. */
  lemma WideIntegersVanish(key: KeySpec, i: int)
    requires !(I64_MIN <= i < I64_END)
    ensures TupleBytes([key], [Pair(key.field, TaggedInt(i))]) == TupleBytes([key], [])
    ensures KeyValues([key], [Pair(key.field, TaggedInt(i))]) != KeyValues([key], [])
  {
    assert KeyValues([key], [Pair(key.field, TaggedInt(i))])[0] == Int(i);
    assert KeyValues([key], [])[0] == NoneValue;
  }
}
