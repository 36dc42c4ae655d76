/** The NUL-safe text encoding of stored JSON (liasse-pg, jsonb_text.rs). */
module JsonbText {

  datatype Json =
    | Atom(text: string)  // null, a boolean or a number
    | JString(text: string)
    | JArray(items: seq<Json>)
    | JObject(members: map<string, Json>)

  // ---- one string --------------------------------------------------------

  function EscapeChar(c: char): string {
    if c == '\\' then "\\\\" else if c == '\0' then "\\0" else [c]
  }

  function Escaped(text: string): string {
    if text == "" then "" else EscapeChar(text[0]) + Escaped(text[1..])
  }

  /** Total: a backslash that begins neither escape is kept as it is. */
  function Unescaped(text: string): string {
    if text == "" then ""
    else if text[0] != '\\' then [text[0]] + Unescaped(text[1..])
    else if |text| == 1 then "\\"
    else if text[1] == '\\' then "\\" + Unescaped(text[2..])
    else if text[1] == '0' then "\0" + Unescaped(text[2..])
    else ['\\', text[1]] + Unescaped(text[2..])
  }

  lemma Regroup(a: string, b: string, c: string)
    ensures (a + b) + c == a + (b + c)
  {
  }

  /** What the decoder takes off the front, and how much of the text that is. */
  function Token(text: string): (t: (string, nat))
    requires text != ""
    ensures 1 <= t.1 <= |text|
  {
    if text[0] != '\\' then ([text[0]], 1)
    else if |text| == 1 then ("\\", 1)
    else ((if text[1] == '\\' then "\\" else if text[1] == '0' then "\0" else ['\\', text[1]]), 2)
  }

  lemma UnescapedToken(text: string)
    requires text != ""
    ensures Unescaped(text) == Token(text).0 + Unescaped(text[Token(text).1..])
  {
  }

  method Escape(text: string) returns (out: string)
    ensures out == Escaped(text)
  {
    out := "";
    for i := 0 to |text|
      invariant out + Escaped(text[i..]) == Escaped(text)
    {
      assert text[i..][1..] == text[i + 1..];
      Regroup(out, EscapeChar(text[i]), Escaped(text[i + 1..]));
      out := out + EscapeChar(text[i]);
    }
    assert text[|text|..] == "";
  }

  method Unescape(text: string) returns (out: string)
    ensures out == Unescaped(text)
  {
    out := "";
    var i := 0;
    while i < |text|
      invariant 0 <= i <= |text| && out + Unescaped(text[i..]) == Unescaped(text)
    {
      UnescapedToken(text[i..]);
      ghost var before, token := out, Token(text[i..]);
      assert text[i..][token.1..] == text[i + token.1..];
      if text[i] != '\\' {
        out, i := out + [text[i]], i + 1;
      } else if i + 1 == |text| {
        out, i := out + "\\", i + 1;
      } else {
        var next := text[i + 1];
        out := out + (if next == '\\' then "\\" else if next == '0' then "\0" else ['\\', next]);
        i := i + 2;
      }
      assert out == before + token.0;
      Regroup(before, token.0, Unescaped(text[i..]));
    }
    assert text[i..] == "";
  }

  lemma {:induction false} UnescapeUndoesEscape(text: string)
    ensures Unescaped(Escaped(text)) == text
  {
    if text != "" {
      UnescapeUndoesEscape(text[1..]);
      var head, tail := EscapeChar(text[0]), Escaped(text[1..]);
      assert (head + tail)[|head|..] == tail;
      assert text == [text[0]] + text[1..];
    }
  }

  lemma EscapeIsInjective(a: string, b: string)
    requires Escaped(a) == Escaped(b)
    ensures a == b
  {
    UnescapeUndoesEscape(a);
    UnescapeUndoesEscape(b);
  }

  /** Nothing but the two escapes, and no NUL: what the encoder writes. */
  predicate WellEscaped(s: string) {
    s == "" ||
    (if s[0] == '\\' then |s| > 1 && (s[1] == '\\' || s[1] == '0') && WellEscaped(s[2..])
     else s[0] != '\0' && WellEscaped(s[1..]))
  }

  lemma {:induction false} EscapedIsWellEscaped(text: string)
    ensures WellEscaped(Escaped(text)) && '\0' !in Escaped(text)
  {
    if text != "" {
      EscapedIsWellEscaped(text[1..]);
      var head, tail := EscapeChar(text[0]), Escaped(text[1..]);
      assert (head + tail)[|head|..] == tail;
    }
  }

  /** The encoder's image is exactly the well-escaped text, and decoding it and encoding
      again gives it back. */
  lemma {:induction false} WellEscapedIsImage(s: string)
    ensures WellEscaped(s) <==> Escaped(Unescaped(s)) == s
  {
    if WellEscaped(s) {
      WellEscapedReturns(s);
    } else {
      EscapedIsWellEscaped(Unescaped(s));
    }
  }

  lemma {:induction false} WellEscapedReturns(s: string)
    requires WellEscaped(s)
    ensures Escaped(Unescaped(s)) == s
  {
    if s != "" {
      var n := if s[0] == '\\' then 2 else 1;
      WellEscapedReturns(s[n..]);
      var u := Unescaped(s);
      assert u[1..] == Unescaped(s[n..]);
      assert s == s[..n] + s[n..];
      if n == 2 { assert s[..2] == [s[0], s[1]]; } else { assert s[..1] == [s[0]]; }
    }
  }

  /** No backslash in `s` begins one of the two escapes. */
  predicate NoEscapes(s: string) {
    forall i :: 0 <= i < |s| - 1 && s[i] == '\\' ==> s[i + 1] != '\\' && s[i + 1] != '0'
  }

  lemma LaterEscapes(s: string, n: nat)
    requires n <= |s| && NoEscapes(s)
    ensures NoEscapes(s[n..])
  {
    forall i | 0 <= i < |s[n..]| - 1 && s[n..][i] == '\\'
      ensures s[n..][i + 1] != '\\' && s[n..][i + 1] != '0'
    {
      assert s[i + n] == '\\' && s[n..][i + 1] == s[i + n + 1];
    }
  }

  /** Text without the two escapes decodes to itself, stray backslashes and all. */
  lemma {:induction false} StraysStay(s: string)
    requires NoEscapes(s)
    ensures Unescaped(s) == s
  {
    if s != "" {
      var n := Token(s).1;
      UnescapedToken(s);
      LaterEscapes(s, n);
      StraysStay(s[n..]);
      assert s == s[..n] + s[n..];
      if n == 1 { assert s[..1] == [s[0]]; } else { assert s[..2] == [s[0], s[1]]; }
    }
  }

  lemma {:induction false} EscapedLonger(text: string)
    ensures |Escaped(text)| >= |text|
    ensures '\0' in text || '\\' in text ==> |Escaped(text)| > |text|
  {
    if text != "" {
      EscapedLonger(text[1..]);
      assert text == [text[0]] + text[1..];
    }
  }

  lemma {:induction false} PlainStays(text: string)
    requires '\0' !in text && '\\' !in text
    ensures Escaped(text) == text
  {
    if text != "" {
      PlainStays(text[1..]);
      assert text == [text[0]] + text[1..];
    }
  }

  /** Encoding changes a text exactly when it has a NUL or a backslash. */
  lemma EscapedUnchanged(text: string)
    ensures Escaped(text) == text <==> '\0' !in text && '\\' !in text
  {
    EscapedLonger(text);
    if '\0' !in text && '\\' !in text { PlainStays(text); }
  }

  /** Where it stands, a NUL gives a backslash and a zero, a backslash two of them. */
  lemma EscapesInPlace(a: string, b: string)
    ensures Escaped(a + "\0" + b) == Escaped(a) + "\\0" + Escaped(b)
    ensures Escaped(a + "\\" + b) == Escaped(a) + "\\\\" + Escaped(b)
  {
    EscapesJoin(a, "\0", b);
    EscapesJoin(a, "\\", b);
    assert "\0"[1..] == "" && "\\"[1..] == "";
    assert Escaped("\0") == "\\0" + "" == "\\0" && Escaped("\\") == "\\\\" + "" == "\\\\";
  }

  lemma EscapesJoin(a: string, b: string, c: string)
    ensures Escaped(a + b + c) == Escaped(a) + Escaped(b) + Escaped(c)
  {
    EscapeConcat(a + b, c);
    EscapeConcat(a, b);
  }

  lemma {:induction false} EscapeConcat(a: string, b: string)
    ensures Escaped(a + b) == Escaped(a) + Escaped(b)
    decreases |a|
  {
    if a == "" {
      assert a + b == b;
    } else {
      assert (a + b)[1..] == a[1..] + b;
      EscapeConcat(a[1..], b);
    }
  }

  // ---- whole trees -------------------------------------------------------

  /** Apply `f` to every string and every member name. Where two names become one, one of
      the members is kept; which one is left open. */
  ghost function MapStrings(value: Json, f: string -> string): Json {
    match value
    case Atom(_) => value
    case JString(text) => JString(f(text))
    case JArray(items) => JArray(seq(|items|, i requires 0 <= i < |items| => MapStrings(items[i], f)))
    case JObject(members) =>
      var names := set k | k in members :: f(k);
      JObject(map name | name in names :: MapStrings(members[Source(members.Keys, f, name)], f))
  }

  ghost function Source(keys: set<string>, f: string -> string, name: string): (k: string)
    requires exists k :: k in keys && f(k) == name
    ensures k in keys && f(k) == name
  {
    var k :| k in keys && f(k) == name;
    k
  }

  ghost function ToJsonb(value: Json): Json { MapStrings(value, Escaped) }

  ghost function FromJsonb(value: Json): Json { MapStrings(value, Unescaped) }

  /** No string and no member name of the tree contains NUL. */
  ghost predicate NulFree(value: Json) {
    match value
    case Atom(_) => true
    case JString(text) => '\0' !in text
    case JArray(items) => forall i :: 0 <= i < |items| ==> NulFree(items[i])
    case JObject(members) => forall k :: k in members ==> '\0' !in k && NulFree(members[k])
  }

  /** `encoded` holds every member of `members` under its encoded name, and no others. */
  ghost predicate Encodes(members: map<string, Json>, encoded: map<string, Json>) {
    && (forall k :: k in members ==> Escaped(k) in encoded && encoded[Escaped(k)] == ToJsonb(members[k]))
    && forall name :: name in encoded ==> exists k :: k in members && name == Escaped(k)
  }

  lemma SourceOfEscaped(keys: set<string>, k: string)
    requires k in keys
    ensures Source(keys, Escaped, Escaped(k)) == k
  {
    EscapeIsInjective(Source(keys, Escaped, Escaped(k)), k);
  }

  /** Encoding an object keeps every member under its own encoded name: none is lost. */
  lemma EncodedMembers(members: map<string, Json>)
    ensures Encodes(members, ToJsonb(JObject(members)).members)
    ensures |ToJsonb(JObject(members)).members| == |members|
  {
    var encoded := ToJsonb(JObject(members)).members;
    forall k | k in members
      ensures Escaped(k) in encoded && encoded[Escaped(k)] == ToJsonb(members[k])
    {
      SourceOfEscaped(members.Keys, k);
    }
    SameSize(members.Keys);
    assert encoded.Keys == Images(members.Keys);
  }

  function Images(keys: set<string>): set<string> { set k | k in keys :: Escaped(k) }

  lemma {:induction false} SameSize(keys: set<string>)
    ensures |Images(keys)| == |keys|
    decreases |keys|
  {
    if keys == {} {
      assert Images(keys) == {};
    } else {
      var k :| k in keys;
      var rest := keys - {k};
      SameSize(rest);
      if Escaped(k) in Images(rest) {
        var j :| j in rest && Escaped(j) == Escaped(k);
        EscapeIsInjective(j, k);
      }
      assert Images(keys) == Images(rest) + {Escaped(k)};
    }
  }

  ghost predicate Returns(value: Json) { FromJsonb(ToJsonb(value)) == value }

  /** Decoding the encoding restores every tree. */
  lemma {:induction false} JsonbRoundTrips(value: Json)
    ensures FromJsonb(ToJsonb(value)) == value
  {
    match value {
      case Atom(_) =>
      case JString(text) => UnescapeUndoesEscape(text);
      case JArray(items) =>
        forall i | 0 <= i < |items|
          ensures FromJsonb(ToJsonb(items[i])) == items[i]
        {
          JsonbRoundTrips(items[i]);
        }
        assert FromJsonb(ToJsonb(value)).items == items;
      case JObject(members) =>
        forall k | k in members
          ensures Returns(members[k])
        {
          JsonbRoundTrips(members[k]);
        }
        MembersRoundTrip(members);
    }
  }

  lemma MembersRoundTrip(members: map<string, Json>)
    requires forall k :: k in members ==> Returns(members[k])
    ensures Returns(JObject(members))
  {
    EncodedMembers(members);
    EncodedReturns(members, ToJsonb(JObject(members)).members);
  }

  lemma EncodedReturns(members: map<string, Json>, encoded: map<string, Json>)
    requires (forall k :: k in members ==> Returns(members[k])) && Encodes(members, encoded)
    ensures FromJsonb(JObject(encoded)) == JObject(members)
  {
    var decoded := FromJsonb(JObject(encoded)).members;
    DecodedNames(members, encoded);
    forall k | k in members
      ensures decoded[k] == members[k]
    {
      DecodedMember(members, encoded, k);
    }
    SameMembers(decoded, members);
  }

  lemma DecodedMember(members: map<string, Json>, encoded: map<string, Json>, k: string)
    requires Encodes(members, encoded) && k in members && Returns(members[k])
    ensures k in FromJsonb(JObject(encoded)).members && FromJsonb(JObject(encoded)).members[k] == members[k]
  {
    NamesReturn(members, encoded);
    UnescapeUndoesEscape(k);
    assert Source(encoded.Keys, Unescaped, k) == Escaped(k);
  }

  lemma NamesReturn(members: map<string, Json>, encoded: map<string, Json>)
    requires Encodes(members, encoded)
    ensures forall name :: name in encoded ==> Unescaped(name) in members && Escaped(Unescaped(name)) == name
  {
    forall name | name in encoded
      ensures Unescaped(name) in members && Escaped(Unescaped(name)) == name
    {
      var k :| k in members && name == Escaped(k);
      UnescapeUndoesEscape(k);
    }
  }

  lemma DecodedNames(members: map<string, Json>, encoded: map<string, Json>)
    requires Encodes(members, encoded)
    ensures FromJsonb(JObject(encoded)).members.Keys == members.Keys
  {
    NamesReturn(members, encoded);
    var names := set name | name in encoded.Keys :: Unescaped(name);
    forall k | k in members
      ensures k in names
    {
      UnescapeUndoesEscape(k);
      assert Escaped(k) in encoded;
    }
    assert names == members.Keys;
    assert FromJsonb(JObject(encoded)).members.Keys == names;
  }

  lemma SameMembers(a: map<string, Json>, b: map<string, Json>)
    requires a.Keys == b.Keys && forall k :: k in a ==> a[k] == b[k]
    ensures a == b
  {
  }

  /** Encoded trees carry no NUL anywhere. */
  lemma {:induction false} EncodedIsNulFree(value: Json)
    ensures NulFree(ToJsonb(value))
  {
    match value {
      case Atom(_) =>
      case JString(text) => EscapedIsWellEscaped(text);
      case JArray(items) =>
        forall i | 0 <= i < |items|
          ensures NulFree(ToJsonb(items[i]))
        {
          EncodedIsNulFree(items[i]);
        }
      case JObject(members) =>
        EncodedMembers(members);
        forall k | k in members
          ensures NulFree(ToJsonb(members[k])) && '\0' !in Escaped(k)
        {
          EncodedIsNulFree(members[k]);
          EscapedIsWellEscaped(k);
        }
    }
  }

  lemma DistinctTreesStayDistinct(a: Json, b: Json)
    requires ToJsonb(a) == ToJsonb(b)
    ensures a == b
  {
    JsonbRoundTrips(a);
    JsonbRoundTrips(b);
  }
}
