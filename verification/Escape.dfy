/** The percent codec of canonical identity text (liasse-ident, escape.rs). */
module Escape {
  import opened Values

  /** Keys escape `%`, `/` and `:`; declaration names leave `:` alone. */
  datatype Codec = Codec(escapeColon: bool)

  const KEY := Codec(true)
  const NAME := Codec(false)

  function EncodeChar(codec: Codec, c: char): string {
    if c == '%' then "%25" else if c == '/' then "%2F" else if c == ':' && codec.escapeColon then "%3A" else [c]
  }

  function Encoding(codec: Codec, text: string): string {
    if text == [] then "" else EncodeChar(codec, text[0]) + Encoding(codec, text[1..])
  }

  method Encode(codec: Codec, text: string) returns (out: string)
    ensures out == Encoding(codec, text)
  {
    out := "";
    for i := 0 to |text|
      invariant out + Encoding(codec, text[i..]) == Encoding(codec, text)
    {
      assert text[i..][1..] == text[i + 1..];
      out := out + EncodeChar(codec, text[i]);
    }
    assert text[|text|..] == [];
  }

  /** The character an escape stands for. */
  function Unescaped(codec: Codec, a: char, b: char): Option<char> {
    if a == '2' && b == '5' then Some('%')
    else if a == '2' && b == 'F' then Some('/')
    else if a == '3' && b == 'A' && codec.escapeColon then Some(':')
    else None
  }

  function Decoding(codec: Codec, text: string): Option<string> {
    if text == [] then Some("")
    else if text[0] != '%' then Then(text[0], Decoding(codec, text[1..]))
    else if |text| < 3 || Unescaped(codec, text[1], text[2]).None? then None
    else Then(Unescaped(codec, text[1], text[2]).value, Decoding(codec, text[3..]))
  }

  function Then(c: char, rest: Option<string>): Option<string> {
    if rest.Some? then Some([c] + rest.value) else None
  }

  function After(out: string, rest: Option<string>): Option<string> {
    if rest.Some? then Some(out + rest.value) else None
  }

  lemma AfterThen(out: string, c: char, rest: Option<string>)
    ensures After(out, Then(c, rest)) == After(out + [c], rest)
  {
    if rest.Some? { assert out + ([c] + rest.value) == (out + [c]) + rest.value; }
  }

  lemma ThenAfter(c: char, out: string, rest: Option<string>)
    ensures Then(c, After(out, rest)) == After([c] + out, rest)
  {
    if rest.Some? { assert [c] + (out + rest.value) == ([c] + out) + rest.value; }
  }

  /** Total: every text decodes or is refused. */
  method Decode(codec: Codec, text: string) returns (r: Option<string>)
    ensures r == Decoding(codec, text)
  {
    var out := "";
    var i := 0;
    assert text[0..] == text;
    assert Decoding(codec, text).Some? ==> "" + Decoding(codec, text).value == Decoding(codec, text).value;
    while i < |text|
      invariant 0 <= i <= |text| && Decoding(codec, text) == After(out, Decoding(codec, text[i..]))
    {
      if text[i] != '%' {
        assert text[i..][1..] == text[i + 1..];
        AfterThen(out, text[i], Decoding(codec, text[i + 1..]));
        out, i := out + [text[i]], i + 1;
      } else if i + 2 < |text| && Unescaped(codec, text[i + 1], text[i + 2]).Some? {
        assert text[i..][3..] == text[i + 3..];
        AfterThen(out, Unescaped(codec, text[i + 1], text[i + 2]).value, Decoding(codec, text[i + 3..]));
        out, i := out + [Unescaped(codec, text[i + 1], text[i + 2]).value], i + 3;
      } else {
        return None;
      }
    }
    assert text[i..] == [] && out + "" == out;
    return Some(out);
  }

  /** Decoding undoes encoding, whatever follows. */
  lemma {:induction false} DecodeUndoesEncode(codec: Codec, text: string, rest: string)
    ensures Decoding(codec, Encoding(codec, text) + rest) == After(text, Decoding(codec, rest))
  {
    if text == [] {
      assert Encoding(codec, text) + rest == rest;
      assert Decoding(codec, rest).Some? ==> "" + Decoding(codec, rest).value == Decoding(codec, rest).value;
    } else {
      var head, tail := EncodeChar(codec, text[0]), Encoding(codec, text[1..]) + rest;
      assert Encoding(codec, text) + rest == head + tail;
      DecodeUndoesEncode(codec, text[1..], rest);
      assert (head + tail)[|head|..] == tail;
      ThenAfter(text[0], text[1..], Decoding(codec, rest));
      assert [text[0]] + text[1..] == text;
    }
  }

  lemma RoundTrip(codec: Codec, text: string)
    ensures Decoding(codec, Encoding(codec, text)) == Some(text)
  {
    DecodeUndoesEncode(codec, text, "");
    assert Encoding(codec, text) + "" == Encoding(codec, text) && text + "" == text;
  }

  lemma EncodeIsInjective(codec: Codec, a: string, b: string)
    requires Encoding(codec, a) == Encoding(codec, b)
    ensures a == b
  {
    RoundTrip(codec, a);
    RoundTrip(codec, b);
  }

  /** No separator survives in an encoding. */
  predicate Free(codec: Codec, s: string) { '/' !in s && (codec.escapeColon ==> ':' !in s) }

  lemma {:induction false} EncodingIsFree(codec: Codec, text: string)
    ensures Free(codec, Encoding(codec, text))
    ensures Encoding(codec, text) == "" <==> text == ""
  {
    if text != [] { EncodingIsFree(codec, text[1..]); }
  }

  /** Decoding accepts exactly the encodings among the texts without separators, so every
      canonical text has one source. */
  lemma {:induction false} EncodingsAreCanonical(codec: Codec, s: string)
    requires Free(codec, s) && Decoding(codec, s).Some?
    ensures Encoding(codec, Decoding(codec, s).value) == s
  {
    if s != [] {
      var n := if s[0] != '%' then 1 else 3;
      EncodingsAreCanonical(codec, s[n..]);
      var text := Decoding(codec, s).value;
      assert text[1..] == Decoding(codec, s[n..]).value;
      assert s == s[..n] + s[n..];
      if n == 3 { assert s[..3] == [s[0], s[1], s[2]]; } else { assert s[..1] == [s[0]]; }
    }
  }

  /** A name encoding also passes the key codec, which is how an unclassified path segment
      is validated. */
  lemma {:induction false} NamesPassTheKeyCodec(text: string)
    ensures Decoding(KEY, Encoding(NAME, text)).Some?
  {
    if text != [] {
      NamesPassTheKeyCodec(text[1..]);
      var head, tail := EncodeChar(NAME, text[0]), Encoding(NAME, text[1..]);
      assert (head + tail)[|head|..] == tail;
    }
  }

  // ---- which characters change -------------------------------------------

  predicate Reserved(codec: Codec, c: char) { c == '%' || c == '/' || (c == ':' && codec.escapeColon) }

  /** What stands for each character, in order. */
  ghost predicate StandsFor(codec: Codec, text: string, pieces: seq<string>) {
    && |pieces| == |text|
    && forall i :: 0 <= i < |text| ==>
         && (text[i] == '%' ==> pieces[i] == "%25") && (text[i] == '/' ==> pieces[i] == "%2F")
         && (text[i] == ':' && codec.escapeColon ==> pieces[i] == "%3A")
         && (!Reserved(codec, text[i]) ==> pieces[i] == [text[i]])
  }

  function Flat(pieces: seq<string>): string { if pieces == [] then "" else pieces[0] + Flat(pieces[1..]) }

  /** Each reserved character gives its escape and every other character itself. */
  lemma {:induction false} EncodesEach(codec: Codec, text: string) returns (pieces: seq<string>)
    ensures StandsFor(codec, text, pieces) && Encoding(codec, text) == Flat(pieces)
  {
    if text == [] {
      pieces := [];
    } else {
      var rest := EncodesEach(codec, text[1..]);
      pieces := [EncodeChar(codec, text[0])] + rest;
      assert pieces[1..] == rest;
    }
  }

  /** The escape that begins at `i` is one of the codec's. */
  predicate EscapeAt(codec: Codec, s: string, i: nat) {
    && i + 2 < |s|
    && ((s[i + 1] == '2' && s[i + 2] == '5') || (s[i + 1] == '2' && s[i + 2] == 'F') || (codec.escapeColon && s[i + 1] == '3' && s[i + 2] == 'A'))
  }

  ghost predicate AllEscapes(codec: Codec, s: string) { forall i :: 0 <= i < |s| && s[i] == '%' ==> EscapeAt(codec, s, i) }

  lemma EscapesLater(codec: Codec, s: string, n: nat)
    requires n <= |s| && forall i :: 0 < i < n ==> s[i] != '%'
    requires n > 0 && (s[0] == '%' ==> n == 3 && EscapeAt(codec, s, 0))
    ensures AllEscapes(codec, s) <==> AllEscapes(codec, s[n..])
  {
    forall i | 0 <= i < |s[n..]|
      ensures s[n..][i] == s[i + n] && (EscapeAt(codec, s[n..], i) <==> EscapeAt(codec, s, i + n))
    {
    }
    if AllEscapes(codec, s[n..]) {
      forall i | 0 <= i < |s| && s[i] == '%'
        ensures EscapeAt(codec, s, i)
      {
        if i >= n { assert s[n..][i - n] == '%'; }
      }
    }
  }

  /** A text decodes exactly when every percent sign in it begins one of the codec's escapes. */
  lemma {:induction false} DecodesExactly(codec: Codec, s: string)
    ensures Decoding(codec, s).Some? <==> AllEscapes(codec, s)
  {
    if s != [] {
      if s[0] != '%' {
        DecodesExactly(codec, s[1..]);
        EscapesLater(codec, s, 1);
      } else if EscapeAt(codec, s, 0) {
        DecodesExactly(codec, s[3..]);
        EscapesLater(codec, s, 3);
      }
    }
  }
}
