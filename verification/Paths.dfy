/** Display paths (liasse-ident, path.rs). */
module Paths {
  import opened Escape
  import opened KeyText
  import opened Text
  import opened Values

  /** A declaration name, held decoded, or a key, held as its canonical text. */
  datatype Segment = NameSegment(name: string) | KeySegment(key: string) {
    function Encoded(): string {
      match this
      case NameSegment(name) => Encoding(NAME, name)
      case KeySegment(key) => key
    }
  }

  datatype PathError = MissingRoot | EmptySegment | MalformedSegment

  datatype Parsed = Parsed(raw: seq<string>) | Refused(error: PathError)

  // ---- rendering ---------------------------------------------------------

  function Rendered(segments: seq<Segment>): string {
    if segments == [] then "" else Rendered(segments[..|segments| - 1]) + "/" + segments[|segments| - 1].Encoded()
  }

  function Display(segments: seq<Segment>): string { if segments == [] then "/" else Rendered(segments) }

  method ToDisplayString(segments: seq<Segment>) returns (out: string)
    ensures out == Display(segments)
  {
    out := "";
    for i := 0 to |segments|
      invariant out == Rendered(segments[..i]) && (out == "" <==> i == 0)
    {
      assert segments[..i + 1][..i] == segments[..i];
      out := out + "/" + segments[i].Encoded();
    }
    assert segments[..|segments|] == segments;
    if out == "" {
      out := "/";
    }
  }

  function Encodings(segments: seq<Segment>): seq<string> {
    seq(|segments|, i requires 0 <= i < |segments| => segments[i].Encoded())
  }

  lemma {:induction false} RenderedIsJoin(segments: seq<Segment>)
    requires segments != []
    ensures Rendered(segments) == "/" + Join(Encodings(segments), '/')
  {
    var init, last := segments[..|segments| - 1], segments[|segments| - 1];
    if init == [] {
      assert Rendered(init) == "" && Encodings(segments) == [last.Encoded()];
    } else {
      RenderedIsJoin(init);
      assert Encodings(segments) == Encodings(init) + [last.Encoded()];
      JoinOneMore(Encodings(init), last.Encoded(), '/');
    }
  }

  // ---- parsing -----------------------------------------------------------

  function CheckSegments(parts: seq<string>): Parsed {
    if parts == [] then Parsed([])
    else if parts[0] == "" then Refused(EmptySegment)
    else if Decoding(KEY, parts[0]).None? then Refused(MalformedSegment)
    else
      match CheckSegments(parts[1..])
      case Parsed(raw) => Parsed([parts[0]] + raw)
      case Refused(e) => Refused(e)
  }

  function Parse(text: string): Parsed {
    if text == "" || text[0] != '/' then Refused(MissingRoot)
    else if text[1..] == "" then Parsed([])
    else CheckSegments(Split(text[1..], '/'))
  }

  function AsName(raw: string): Option<string> { Decoding(NAME, raw) }

  function AsKey(raw: string): Option<string> { if Decoding(KEY, raw).Some? then Some(raw) else None }

  lemma {:induction false} CheckedAreThemselves(parts: seq<string>)
    ensures CheckSegments(parts).Parsed? ==> CheckSegments(parts).raw == parts
    ensures CheckSegments(parts).Parsed? <==> forall i :: 0 <= i < |parts| ==> parts[i] != "" && Decoding(KEY, parts[i]).Some?
  {
    if parts != [] { CheckedAreThemselves(parts[1..]); }
  }

  /** A path is accepted exactly when it is the lone root, or has after every slash, and
      before the next, a segment that is not empty and whose escapes are sound; and it
      parses to these segments. */
  lemma ParsesExactly(text: string, raw: seq<string>)
    ensures Parse(text) == Parsed(raw) <==>
      || (text == "/" && raw == [])
      || (raw != [] && text == "/" + Join(raw, '/')
          && forall i :: 0 <= i < |raw| ==> raw[i] != "" && '/' !in raw[i] && AllEscapes(KEY, raw[i]))
  {
    forall i | 0 <= i < |raw|
      ensures Decoding(KEY, raw[i]).Some? <==> AllEscapes(KEY, raw[i])
    {
      DecodesExactly(KEY, raw[i]);
    }
    if text != "" && text[0] == '/' {
      var parts := Split(text[1..], '/');
      SplitAgain(text[1..], '/');
      CheckedAreThemselves(parts);
      assert text == "/" + text[1..];
      if text[1..] != "" && Parse(text) == Parsed(raw) { assert raw == parts; }
    }
    if raw != [] && text == "/" + Join(raw, '/') && forall i :: 0 <= i < |raw| ==> raw[i] != "" && '/' !in raw[i] && AllEscapes(KEY, raw[i]) {
      SplitJoin(raw, '/');
      assert text[1..] == Join(raw, '/');
      CheckedAreThemselves(raw);
    }
  }

  // ---- the round trip ----------------------------------------------------

  /** A key segment carries a key text that was joined from components. */
  ghost predicate Built(segment: Segment) {
    segment.KeySegment? ==> exists components: seq<string> :: |components| > 0 && segment.key == KeyOf(components)
  }

  lemma BuiltEncodes(segment: Segment)
    requires Built(segment)
    ensures '/' !in segment.Encoded() && Decoding(KEY, segment.Encoded()).Some?
  {
    match segment
    case NameSegment(name) =>
      EncodingIsFree(NAME, name);
      NamesPassTheKeyCodec(name);
    case KeySegment(key) =>
      var components: seq<string> :| |components| > 0 && key == KeyOf(components);
      ComponentsInvertJoin(components);
      KeysValidate(components);
  }

  ghost predicate AllBuilt(segments: seq<Segment>) { forall i :: 0 <= i < |segments| ==> Built(segments[i]) }

  lemma DisplaySplits(segments: seq<Segment>)
    requires segments != [] && AllBuilt(segments)
    ensures Display(segments) != "" && Display(segments)[0] == '/'
    ensures Split(Display(segments)[1..], '/') == Encodings(segments)
  {
    RenderedIsJoin(segments);
    forall i | 0 <= i < |segments|
      ensures '/' !in Encodings(segments)[i]
    {
      BuiltEncodes(segments[i]);
    }
    SplitJoin(Encodings(segments), '/');
    assert Display(segments)[1..] == Join(Encodings(segments), '/');
  }

  /** Parsing a rendered path gives its encoded segments exactly when none of them is empty,
      that is, when no name is empty and no key is a single empty component. */
  lemma ParseInvertsDisplay(segments: seq<Segment>)
    requires AllBuilt(segments)
    ensures Parse(Display(segments)) == Parsed(Encodings(segments)) <==> forall i :: 0 <= i < |segments| ==> segments[i].Encoded() != ""
  {
    if segments != [] {
      var parts := Encodings(segments);
      DisplaySplits(segments);
      CheckedAreThemselves(parts);
      forall i | 0 <= i < |segments|
        ensures Decoding(KEY, parts[i]).Some? && parts[i] == segments[i].Encoded()
      {
        BuiltEncodes(segments[i]);
      }
      if Display(segments)[1..] == "" {
        assert Split("", '/') == [""] && parts[0] == "";
      }
    }
  }

  /** With its role known, a parsed segment gives back the name or the key. */
  lemma RolesRecover(segment: Segment)
    requires Built(segment)
    ensures segment.NameSegment? ==> AsName(segment.Encoded()) == Some(segment.name)
    ensures segment.KeySegment? ==> AsKey(segment.Encoded()) == Some(segment.key)
  {
    BuiltEncodes(segment);
    if segment.NameSegment? { RoundTrip(NAME, segment.name); }
  }

  /** Paths that render alike and agree on their segments' roles are the same path. */
  lemma DisplayIsInjective(a: seq<Segment>, b: seq<Segment>)
    requires AllBuilt(a) && AllBuilt(b) && |a| == |b| && Display(a) == Display(b)
    requires forall i :: 0 <= i < |a| ==> (a[i].NameSegment? <==> b[i].NameSegment?)
    ensures a == b
  {
    if a != [] {
      DisplaySplits(a);
      DisplaySplits(b);
      forall i | 0 <= i < |a|
        ensures a[i] == b[i]
      {
        assert Encodings(a)[i] == Encodings(b)[i];
        RolesRecover(a[i]);
        RolesRecover(b[i]);
      }
    }
  }

  /** Roles matter: a name and a key can share their text. */
  lemma RolesAreNotInTheText(text: string)
    ensures var key := KeyOf([text]); Display([KeySegment(key)]) == "/" + key
    ensures ':' !in text ==> Display([NameSegment(text)]) == Display([KeySegment(KeyOf([text]))])
  {
    var key := KeyOf([text]);
    assert KeyText.Encodings([text]) == [Encoding(KEY, text)];
    RenderedIsJoin([KeySegment(key)]);
    RenderedIsJoin([NameSegment(text)]);
    assert Encodings([KeySegment(key)]) == [key] && Encodings([NameSegment(text)]) == [Encoding(NAME, text)];
    if ':' !in text { ColonFree(text); }
  }

  lemma {:induction false} ColonFree(text: string)
    requires ':' !in text
    ensures Encoding(NAME, text) == Encoding(KEY, text)
  {
    if text != [] { ColonFree(text[1..]); }
  }
}
