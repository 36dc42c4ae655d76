/** UTF-8 as an order-preserving code, and the byte order it is compared in. */
module Utf8 {
  import opened Values

  newtype Byte = b: int | 0 <= b < 256

  /** memcmp: the first differing byte decides, a proper prefix is less. */
  function CmpBytes(a: seq<Byte>, b: seq<Byte>): Ordering {
    if a == [] then (if b == [] then Equal else Less)
    else if b == [] then Greater
    else CmpInt(a[0] as int, b[0] as int).Then(CmpBytes(a[1..], b[1..]))
  }

  /** `a` is decided less than `b` by a byte both have, so whatever follows. */
  ghost predicate Decides(a: seq<Byte>, b: seq<Byte>) {
    exists p :: 0 <= p < |a| && p < |b| && a[..p] == b[..p] && a[p] < b[p]
  }

  lemma {:induction false} DecidesCompares(a: seq<Byte>, b: seq<Byte>)
    requires Decides(a, b)
    ensures CmpBytes(a, b) == Less && CmpBytes(b, a) == Greater
  {
    var p :| 0 <= p < |a| && p < |b| && a[..p] == b[..p] && a[p] < b[p];
    if p > 0 {
      assert a[0] == a[..p][0] == b[0];
      assert a[1..][..p - 1] == a[..p][1..] && b[1..][..p - 1] == b[..p][1..];
      assert a[1..][p - 1] < b[1..][p - 1];
      DecidesCompares(a[1..], b[1..]);
    }
  }

  lemma {:induction false} CmpBytesSelf(a: seq<Byte>)
    ensures CmpBytes(a, a) == Equal
  {
    if a != [] { CmpBytesSelf(a[1..]); }
  }

  lemma DecidesExtends(prefix: seq<Byte>, a: seq<Byte>, b: seq<Byte>, s: seq<Byte>, t: seq<Byte>)
    requires Decides(a, b)
    ensures Decides(prefix + a + s, prefix + b + t)
  {
    var p :| 0 <= p < |a| && p < |b| && a[..p] == b[..p] && a[p] < b[p];
    var q := |prefix| + p;
    var x, y := prefix + a + s, prefix + b + t;
    assert x[..q] == prefix + a[..p] && y[..q] == prefix + b[..p];
    assert x[q] == a[p] && y[q] == b[p];
  }

  function Invert(a: seq<Byte>): seq<Byte> {
    seq(|a|, i requires 0 <= i < |a| => 255 - a[i])
  }

  lemma InvertReverses(a: seq<Byte>, b: seq<Byte>)
    requires Decides(a, b)
    ensures Decides(Invert(b), Invert(a))
  {
    var p :| 0 <= p < |a| && p < |b| && a[..p] == b[..p] && a[p] < b[p];
    assert Invert(b)[..p] == Invert(a)[..p] by {
      forall i | 0 <= i < p
        ensures Invert(b)[i] == Invert(a)[i]
      {
        assert a[..p][i] == b[..p][i];
      }
    }
    assert Invert(b)[p] < Invert(a)[p];
  }

  /** The UTF-8 form of one Unicode scalar. */
  function EncodeScalar(c: char): (r: seq<Byte>)
    ensures 1 <= |r| <= 4 && (r[0] == 0 <==> c == '\0')
  {
    var n := c as int;
    if n < 0x80 then [n as Byte]
    else if n < 0x800 then [(0xC0 + n / 0x40) as Byte, (0x80 + n % 0x40) as Byte]
    else if n < 0x10000 then
      [(0xE0 + n / 0x1000) as Byte, (0x80 + n / 0x40 % 0x40) as Byte, (0x80 + n % 0x40) as Byte]
    else
      [(0xF0 + n / 0x40000) as Byte, (0x80 + n / 0x1000 % 0x40) as Byte,
       (0x80 + n / 0x40 % 0x40) as Byte, (0x80 + n % 0x40) as Byte]
  }

  function Encode(text: string): seq<Byte> {
    if text == [] then [] else EncodeScalar(text[0]) + Encode(text[1..])
  }

  lemma DecidesAt(a: seq<Byte>, b: seq<Byte>, p: nat)
    requires p < |a| && p < |b| && a[p] < b[p]
    requires forall i :: 0 <= i < p ==> a[i] == b[i]
    ensures Decides(a, b)
  {
    assert a[..p] == b[..p];
  }

  /** The number of bytes grows with the scalar. */
  function Width(n: nat): nat {
    if n < 0x80 then 1 else if n < 0x800 then 2 else if n < 0x10000 then 3 else 4
  }

  lemma WidthDecides(a: char, b: char)
    requires a < b && Width(a as int) < Width(b as int)
    ensures EncodeScalar(a)[0] < EncodeScalar(b)[0]
  {
  }

  lemma Quotients(m: nat, n: nat)
    requires m <= n
    ensures m / 0x40 <= n / 0x40 && (m < n && m / 0x40 == n / 0x40 ==> m % 0x40 < n % 0x40)
  {
  }

  lemma Thrice(n: nat)
    ensures n / 0x1000 == n / 0x40 / 0x40 && n / 0x40000 == n / 0x1000 / 0x40
  {
  }

  lemma TwoBytesDecide(a: char, b: char)
    requires a < b && Width(a as int) == Width(b as int) == 2
    ensures Decides(EncodeScalar(a), EncodeScalar(b))
  {
    var m, n := a as int, b as int;
    Quotients(m, n);
    DecidesAt(EncodeScalar(a), EncodeScalar(b), if m / 0x40 == n / 0x40 then 1 else 0);
  }

  lemma ThreeBytesDecide(a: char, b: char)
    requires a < b && Width(a as int) == Width(b as int) == 3
    ensures Decides(EncodeScalar(a), EncodeScalar(b))
  {
    var m, n := a as int, b as int;
    Quotients(m, n);
    Thrice(m);
    Thrice(n);
    Quotients(m / 0x40, n / 0x40);
    DecidesAt(EncodeScalar(a), EncodeScalar(b), if m / 0x40 == n / 0x40 then 2 else if m / 0x1000 == n / 0x1000 then 1 else 0);
  }

  lemma FourBytesDecide(a: char, b: char)
    requires a < b && Width(a as int) == Width(b as int) == 4
    ensures Decides(EncodeScalar(a), EncodeScalar(b))
  {
    var m, n := a as int, b as int;
    Quotients(m, n);
    Thrice(m);
    Thrice(n);
    Quotients(m / 0x40, n / 0x40);
    Quotients(m / 0x1000, n / 0x1000);
    var p := if m / 0x40 == n / 0x40 then 3 else if m / 0x1000 == n / 0x1000 then 2 else if m / 0x40000 == n / 0x40000 then 1 else 0;
    DecidesAt(EncodeScalar(a), EncodeScalar(b), p);
  }

  /** The scalar order is decided within the two encodings. */
  lemma ScalarDecides(a: char, b: char)
    requires a < b
    ensures Decides(EncodeScalar(a), EncodeScalar(b))
  {
    if Width(a as int) < Width(b as int) {
      WidthDecides(a, b);
      DecidesAt(EncodeScalar(a), EncodeScalar(b), 0);
    } else if Width(b as int) == 1 {
      DecidesAt(EncodeScalar(a), EncodeScalar(b), 0);
    } else if Width(b as int) == 2 {
      TwoBytesDecide(a, b);
    } else if Width(b as int) == 3 {
      ThreeBytesDecide(a, b);
    } else {
      FourBytesDecide(a, b);
    }
  }

  /** `b` goes on where `a` ends, with a NUL. */
  predicate PastNul(a: string, b: string) { |a| < |b| && b[..|a|] == a && b[|a|] == '\0' }

  function Terminated(text: string): seq<Byte> { Encode(text) + [0] }

  lemma Regroup(x: seq<Byte>, y: seq<Byte>, z: seq<Byte>)
    ensures (x + y) + z == [] + x + (y + z) == x + (y + z) + []
  {
  }

  lemma TerminatedCons(a: string)
    requires a != []
    ensures Terminated(a) == [] + EncodeScalar(a[0]) + Terminated(a[1..]) == EncodeScalar(a[0]) + Terminated(a[1..]) + []
  {
    Regroup(EncodeScalar(a[0]), Encode(a[1..]), [0]);
  }

  lemma HeadsDecide(a: string, b: string)
    requires a != [] && b != [] && a[0] < b[0]
    ensures Decides(Terminated(a), Terminated(b))
  {
    TerminatedCons(a);
    TerminatedCons(b);
    ScalarDecides(a[0], b[0]);
    DecidesExtends([], EncodeScalar(a[0]), EncodeScalar(b[0]), Terminated(a[1..]), Terminated(b[1..]));
  }

  lemma TailsDecide(a: string, b: string)
    requires a != [] && b != [] && a[0] == b[0] && Decides(Terminated(a[1..]), Terminated(b[1..]))
    ensures Decides(Terminated(a), Terminated(b))
  {
    TerminatedCons(a);
    TerminatedCons(b);
    DecidesExtends(EncodeScalar(a[0]), Terminated(a[1..]), Terminated(b[1..]), [], []);
  }

  lemma PastNulTails(a: string, b: string)
    requires a != [] && b != [] && a[0] == b[0]
    ensures PastNul(a, b) <==> PastNul(a[1..], b[1..])
  {
    assert |a| <= |b| ==> b[..|a|] == [b[0]] + b[1..][..|a| - 1];
    assert a == [a[0]] + a[1..];
  }

  lemma {:induction false} EncodeJoin(a: string, b: string)
    ensures Encode(a + b) == Encode(a) + Encode(b)
  {
    if a == [] {
      assert a + b == b;
    } else {
      assert (a + b)[1..] == a[1..] + b;
      EncodeJoin(a[1..], b);
    }
  }

  /** Past a NUL, the longer text's form goes on where the shorter one's ends. */
  lemma PastNulExtends(a: string, b: string)
    requires PastNul(a, b)
    ensures Terminated(b) == Terminated(a) + Terminated(b[|a| + 1..])
  {
    var rest := b[|a| + 1..];
    assert b == a + b[|a|..] && b[|a|..] == "\0" + rest;
    EncodeJoin(a, b[|a|..]);
    assert b[|a|..][1..] == rest && EncodeScalar('\0') == [0];
    assert Encode(b[|a|..]) == [0] + Encode(rest);
  }

  lemma ExtensionDecidesNothing(x: seq<Byte>, y: seq<Byte>)
    ensures !Decides(x, x + y)
  {
    forall p | 0 <= p < |x|
      ensures x[p] == (x + y)[p]
    {
    }
  }

  /** Terminated UTF-8 decides text order, unless one text goes on past a NUL. */
  lemma {:induction false} TextDecides(a: string, b: string)
    requires CmpText(a, b) == Less
    ensures Decides(Terminated(a), Terminated(b)) <==> !PastNul(a, b)
  {
    if PastNul(a, b) {
      PastNulExtends(a, b);
      ExtensionDecidesNothing(Terminated(a), Terminated(b[|a| + 1..]));
    } else if a == [] {
      var x, y := Terminated(a), Terminated(b);
      assert b[..0] == a;
      assert EncodeScalar(b[0])[0] == y[0];
      assert x[..0] == y[..0] && x[0] < y[0];
    } else if a[0] < b[0] {
      HeadsDecide(a, b);
    } else {
      PastNulTails(a, b);
      TextDecides(a[1..], b[1..]);
      TailsDecide(a, b);
    }
  }

  // ---- reading it back (RFC 3629, section 3) ------------------------------

  predicate Continues(b: Byte) { 0x80 <= b < 0xC0 }

  /** The scalar the first bytes stand for, and how many bytes that is: the leading byte gives
      the number, every further one six more bits. */
  function ReadScalar(s: seq<Byte>): Option<(int, nat)> {
    if s == [] then None
    else if s[0] < 0x80 then Some((s[0] as int, 1))
    else if 0xC2 <= s[0] < 0xE0 then
      if |s| < 2 || !Continues(s[1]) then None
      else Some(((s[0] as int - 0xC0) * 0x40 + (s[1] as int - 0x80), 2))
    else if 0xE0 <= s[0] < 0xF0 then
      if |s| < 3 || !Continues(s[1]) || !Continues(s[2]) then None
      else Some((((s[0] as int - 0xE0) * 0x40 + (s[1] as int - 0x80)) * 0x40 + (s[2] as int - 0x80), 3))
    else if 0xF0 <= s[0] < 0xF5 then
      if |s| < 4 || !Continues(s[1]) || !Continues(s[2]) || !Continues(s[3]) then None
      else Some(((((s[0] as int - 0xF0) * 0x40 + (s[1] as int - 0x80)) * 0x40 + (s[2] as int - 0x80)) * 0x40 + (s[3] as int - 0x80), 4))
    else None
  }

  lemma ThreeDigits(n: nat)
    ensures (n / 0x1000 * 0x40 + n / 0x40 % 0x40) * 0x40 + n % 0x40 == n
  {
    assert n / 0x1000 == n / 0x40 / 0x40;
  }

  lemma FourDigits(n: nat)
    ensures ((n / 0x40000 * 0x40 + n / 0x1000 % 0x40) * 0x40 + n / 0x40 % 0x40) * 0x40 + n % 0x40 == n
  {
    assert n / 0x40000 == n / 0x1000 / 0x40 && n / 0x1000 == n / 0x40 / 0x40;
  }

  /** The bytes of a scalar read as that scalar, whatever follows. */
  lemma ScalarReads(c: char, rest: seq<Byte>)
    ensures ReadScalar(EncodeScalar(c) + rest) == Some((c as int, |EncodeScalar(c)|))
  {
    var n, s := c as int, EncodeScalar(c) + rest;
    assert forall i :: 0 <= i < |EncodeScalar(c)| ==> s[i] == EncodeScalar(c)[i];
    if 0x800 <= n < 0x10000 {
      ThreeDigits(n);
    } else if n >= 0x10000 {
      FourDigits(n);
    }
  }

  /** So the bytes of a text read, scalar by scalar, as the text. */
  function ReadText(s: seq<Byte>): Option<seq<int>>
    decreases |s|
  {
    if s == [] then Some([])
    else
      match ReadScalar(s)
      case None => None
      case Some((n, k)) => if k > |s| then None else (match ReadText(s[k..]) case None => None case Some(rest) => Some([n] + rest))
  }

  function Scalars(text: string): seq<int> { seq(|text|, i requires 0 <= i < |text| => text[i] as int) }

  lemma {:induction false} TextReads(text: string)
    ensures ReadText(Encode(text)) == Some(Scalars(text))
  {
    if text == [] {
      assert Scalars(text) == [];
    } else {
      var first, rest := EncodeScalar(text[0]), Encode(text[1..]);
      ScalarReads(text[0], rest);
      TextReads(text[1..]);
      assert (first + rest)[|first|..] == rest;
      ReadsOn(first + rest, text[0] as int, |first|, Scalars(text[1..]));
      assert Scalars(text) == [text[0] as int] + Scalars(text[1..]);
    }
  }

  lemma ReadsOn(s: seq<Byte>, n: int, k: nat, rest: seq<int>)
    requires s != [] && ReadScalar(s) == Some((n, k)) && 0 < k <= |s| && ReadText(s[k..]) == Some(rest)
    ensures ReadText(s) == Some([n] + rest)
  {
  }
}
