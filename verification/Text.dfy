/** Text trimming, shared by the declarative checks. */
module Text {

  /** Unicode White_Space. */
  predicate IsSpace(c: char) {
    var n := c as int;
    9 <= n <= 13 || n == 0x20 || n == 0x85 || n == 0xA0 || n == 0x1680 || 0x2000 <= n <= 0x200A
    || n == 0x2028 || n == 0x2029 || n == 0x202F || n == 0x205F || n == 0x3000
  }

  function TrimStart(s: string, drop: char -> bool): string {
    if s != [] && drop(s[0]) then TrimStart(s[1..], drop) else s
  }

  function TrimEnd(s: string, drop: char -> bool): string {
    if s != [] && drop(s[|s| - 1]) then TrimEnd(s[..|s| - 1], drop) else s
  }

  function Trim(s: string): string { TrimEnd(TrimStart(s, IsSpace), IsSpace) }

  /** `t` is what stands in `s` between everything droppable in front of it and behind it. */
  ghost predicate Strips(s: string, t: string, drop: char -> bool) {
    && (exists front, back :: s == front + t + back && AllDrop(front, drop) && AllDrop(back, drop))
    && (t != [] ==> !drop(t[0]) && !drop(t[|t| - 1]))
  }

  ghost predicate AllDrop(s: string, drop: char -> bool) { forall i :: 0 <= i < |s| ==> drop(s[i]) }

  lemma {:induction false} StartStrips(s: string, drop: char -> bool) returns (front: string)
    ensures s == front + TrimStart(s, drop) && AllDrop(front, drop)
    ensures TrimStart(s, drop) != [] ==> !drop(TrimStart(s, drop)[0])
  {
    front := [];
    if s != [] && drop(s[0]) {
      var rest := StartStrips(s[1..], drop);
      front := [s[0]] + rest;
      assert s == [s[0]] + s[1..];
    }
  }

  lemma {:induction false} EndStrips(s: string, drop: char -> bool) returns (back: string)
    ensures s == TrimEnd(s, drop) + back && AllDrop(back, drop)
    ensures TrimEnd(s, drop) != [] ==> !drop(TrimEnd(s, drop)[|TrimEnd(s, drop)| - 1])
  {
    back := [];
    if s != [] && drop(s[|s| - 1]) {
      var rest := EndStrips(s[..|s| - 1], drop);
      back := rest + [s[|s| - 1]];
      assert s == s[..|s| - 1] + [s[|s| - 1]];
    }
  }

  /** Dropping at both ends leaves exactly the text between. */
  lemma TrimStrips(s: string, drop: char -> bool)
    ensures Strips(s, TrimEnd(TrimStart(s, drop), drop), drop)
  {
    var front := StartStrips(s, drop);
    var back := EndStrips(TrimStart(s, drop), drop);
    var t := TrimEnd(TrimStart(s, drop), drop);
    assert s == front + t + back;
    if t != [] { assert t[0] == TrimStart(s, drop)[0]; }
  }

  lemma OutsideDrops(s: string, front: string, t: string, back: string, drop: char -> bool, i: nat)
    requires s == front + t + back && AllDrop(front, drop) && AllDrop(back, drop)
    requires i < |s|
    ensures i < |front| || i >= |front| + |t| ==> drop(s[i])
  {
    if i < |front| {
      assert s[i] == front[i];
    } else if i >= |front| + |t| {
      assert s[i] == back[i - |front| - |t|];
    }
  }

  /** There is one such text. */
  lemma StrippedIsUnique(s: string, t: string, u: string, drop: char -> bool)
    requires Strips(s, t, drop) && Strips(s, u, drop)
    ensures t == u
  {
    var a, b :| s == a + t + b && AllDrop(a, drop) && AllDrop(b, drop);
    var c, d :| s == c + u + d && AllDrop(c, drop) && AllDrop(d, drop);
    Covered(s, a, t, b, c, u, d, drop);
    Covered(s, c, u, d, a, t, b, drop);
    assert t == s[|a|..|a| + |t|] && u == s[|c|..|c| + |u|];
  }

  /** The ends of one reading lie inside the other. */
  lemma Covered(s: string, a: string, t: string, b: string, c: string, u: string, d: string, drop: char -> bool)
    requires s == a + t + b && (t != [] ==> !drop(t[0]) && !drop(t[|t| - 1]))
    requires s == c + u + d && AllDrop(c, drop) && AllDrop(d, drop)
    ensures t != [] ==> |c| <= |a| && |a| + |t| <= |c| + |u|
  {
    if t != [] {
      assert s[|a|] == t[0] && s[|a| + |t| - 1] == t[|t| - 1];
      OutsideDrops(s, c, u, d, drop, |a|);
      OutsideDrops(s, c, u, d, drop, |a| + |t| - 1);
    }
  }

  /** Trimming gives `t` exactly when `t` is what stands between the white space. */
  lemma TrimExactly(s: string, t: string)
    ensures Trim(s) == t <==> Strips(s, t, IsSpace)
  {
    TrimStrips(s, IsSpace);
    if Strips(s, t, IsSpace) { StrippedIsUnique(s, t, Trim(s), IsSpace); }
  }

  predicate StartsWith(s: string, prefix: string) { |prefix| <= |s| && s[..|prefix|] == prefix }

  /** The pieces of `s` between separators: always at least one. */
  function Split(s: string, sep: char): (parts: seq<string>)
    ensures |parts| > 0
  {
    if s == [] then [""]
    else
      var rest := Split(s[1..], sep);
      if s[0] == sep then [""] + rest else [[s[0]] + rest[0]] + rest[1..]
  }

  function Join(parts: seq<string>, sep: char): string
    requires |parts| > 0
  {
    if |parts| == 1 then parts[0] else parts[0] + [sep] + Join(parts[1..], sep)
  }

  lemma {:induction false} SplitPrefix(a: string, b: string, sep: char)
    requires sep !in a
    ensures Split(a + b, sep) == [a + Split(b, sep)[0]] + Split(b, sep)[1..]
  {
    if a == [] {
      assert a + b == b && a + Split(b, sep)[0] == Split(b, sep)[0];
    } else {
      assert (a + b)[1..] == a[1..] + b;
      SplitPrefix(a[1..], b, sep);
      assert [a[0]] + (a[1..] + Split(b, sep)[0]) == a + Split(b, sep)[0];
    }
  }

  /** Separator-free parts are told apart again after joining. */
  lemma {:induction false} SplitJoin(parts: seq<string>, sep: char)
    requires |parts| > 0 && forall i :: 0 <= i < |parts| ==> sep !in parts[i]
    ensures Split(Join(parts, sep), sep) == parts
    decreases |parts|
  {
    if |parts| == 1 {
      SplitPrefix(parts[0], "", sep);
      assert parts[0] + "" == parts[0] && parts == [parts[0]];
    } else {
      SplitJoin(parts[1..], sep);
      var tail := [sep] + Join(parts[1..], sep);
      assert tail[1..] == Join(parts[1..], sep);
      assert Split(tail, sep) == [""] + parts[1..];
      SplitPrefix(parts[0], tail, sep);
      assert Join(parts, sep) == parts[0] + tail;
      assert parts[0] + "" == parts[0];
      assert parts == [parts[0]] + parts[1..];
    }
  }

  lemma {:induction false} JoinExcludes(parts: seq<string>, sep: char, c: char)
    requires |parts| > 0 && c != sep && forall i :: 0 <= i < |parts| ==> c !in parts[i]
    ensures c !in Join(parts, sep)
    decreases |parts|
  {
    if |parts| > 1 { JoinExcludes(parts[1..], sep, c); }
  }

  /** Joining the pieces gives the text back, and no piece has a separator. */
  lemma {:induction false} SplitAgain(s: string, sep: char)
    ensures Join(Split(s, sep), sep) == s
    ensures forall i :: 0 <= i < |Split(s, sep)| ==> sep !in Split(s, sep)[i]
  {
    if s != [] {
      SplitAgain(s[1..], sep);
      var rest := Split(s[1..], sep);
      assert s == [s[0]] + s[1..];
      if s[0] == sep {
        assert Split(s, sep)[1..] == rest;
        assert "" + [sep] + Join(rest, sep) == [sep] + Join(rest, sep);
      } else {
        assert Split(s, sep)[1..] == rest[1..];
        if |rest| > 1 { assert [s[0]] + (rest[0] + [sep] + Join(rest[1..], sep)) == ([s[0]] + rest[0]) + [sep] + Join(rest[1..], sep); }
      }
    }
  }
}
