/** Capability tokens of one logical connection (liasse-connect, token.rs). */
module Token {
  import opened Digits
  import opened Text
  import opened Values

  const U64 := 0x1_0000_0000_0000_0000

  /** How a payload is sealed on the wire; the default minter seals it as itself. */
  datatype Minter = Minter(seal: string -> string, open: string -> Option<string>)

  ghost predicate FaithfulMinter(minter: Minter) { forall p :: minter.open(minter.seal(p)) == Some(p) }

  function UnsignedMinter(): Minter { Minter(p => p, t => Some(t)) }

  lemma UnsignedIsFaithful()
    ensures FaithfulMinter(UnsignedMinter())
  {
  }

  // ---- numbers -----------------------------------------------------------

  function Zeros(n: nat): string { seq(n, _ => '0') }

  /** Decimal digits, zero-padded to twenty: enough for any u64. */
  function Padded(n: nat): string {
    var digits := DecimalText(n);
    Zeros(if |digits| < 20 then 20 - |digits| else 0) + digits
  }

  /** Rust's `u64` parser: one optional `+`, at least one digit, no overflow. */
  function ParseU64(s: string): Option<nat> {
    var digits := if s != "" && s[0] == '+' then s[1..] else s;
    if digits == "" || !AllDigits(digits) || NumberOf(digits) >= U64 then None else Some(NumberOf(digits))
  }

  lemma {:induction false} ZerosAddNothing(k: nat, s: string)
    requires AllDigits(s)
    ensures AllDigits(Zeros(k) + s) && NumberOf(Zeros(k) + s) == NumberOf(s)
    decreases |s|, k
  {
    var t := Zeros(k) + s;
    assert AllDigits(t) by {
      forall i | 0 <= i < |t|
        ensures IsDigit(t[i])
      {
        if i >= k { assert t[i] == s[i - k]; }
      }
    }
    if s != [] {
      assert t[..|t| - 1] == Zeros(k) + s[..|s| - 1];
      ZerosAddNothing(k, s[..|s| - 1]);
    } else if k > 0 {
      assert t[..|t| - 1] == Zeros(k - 1) + s;
      ZerosAddNothing(k - 1, s);
    }
  }

  lemma DigitsParse(k: nat, n: nat)
    requires n < U64
    ensures ParseU64(Zeros(k) + DecimalText(n)) == Some(n)
  {
    DecimalReads(n);
    ZerosAddNothing(k, DecimalText(n));
    assert IsDigit((Zeros(k) + DecimalText(n))[0]);
  }

  // ---- tokens ------------------------------------------------------------

  datatype ConnKeys = ConnKeys(secret: string, publicId: string) {
    function Frontier(minter: Minter, n: nat): string { minter.seal("f." + publicId + "." + Padded(n)) }

    function OpenFrontier(minter: Minter, ft: string): Option<nat> { OpenAs(minter, "f.", publicId, ft) }

    function Occurrence(minter: Minter, n: nat): string { minter.seal("o." + publicId + "." + DecimalText(n)) }

    function OpenOccurrence(minter: Minter, occ: string): Option<nat> { OpenAs(minter, "o.", publicId, occ) }

    /** The server-side name of a client's operation id. */
    function ScopeOperation(raw: string): string { secret + "." + raw }
  }

  /** The parts around the first dot. */
  function SplitOnce(s: string): Option<(string, string)> {
    if s == "" then None
    else if s[0] == '.' then Some(("", s[1..]))
    else match SplitOnce(s[1..])
      case Some(p) => Some(([s[0]] + p.0, p.1))
      case None => None
  }

  function OpenAs(minter: Minter, namespace: string, publicId: string, token: string): Option<nat> {
    var payload := minter.open(token);
    if payload.None? || !StartsWith(payload.value, namespace) then None
    else
      match SplitOnce(payload.value[|namespace|..])
      case Some(p) => if p.0 == publicId then ParseU64(p.1) else None
      case None => None
  }

  lemma {:induction false} SplitOnceAt(a: string, b: string)
    requires '.' !in a
    ensures SplitOnce(a + "." + b) == Some((a, b))
  {
    if a == "" {
      assert a + "." + b == "." + b && ("." + b)[1..] == b;
    } else {
      assert (a + "." + b)[1..] == a[1..] + "." + b;
      SplitOnceAt(a[1..], b);
      assert [a[0]] + a[1..] == a;
    }
  }

  /** The first dot splits: the head has none, and the two parts give the text back. */
  lemma {:induction false} SplitOnceParts(s: string)
    ensures SplitOnce(s).Some? ==> '.' !in SplitOnce(s).value.0 && s == SplitOnce(s).value.0 + "." + SplitOnce(s).value.1
    ensures SplitOnce(s).None? ==> '.' !in s
  {
    if s != "" && s[0] != '.' {
      SplitOnceParts(s[1..]);
      assert s == [s[0]] + s[1..];
      if SplitOnce(s[1..]).Some? {
        var p := SplitOnce(s[1..]).value;
        assert [s[0]] + (p.0 + "." + p.1) == [s[0]] + p.0 + "." + p.1;
      }
    } else if s != "" {
      assert s == "" + "." + s[1..];
    }
  }

  lemma DottedIsNoNumber(s: string)
    requires '.' in s
    ensures ParseU64(s).None?
  {
    var i :| 0 <= i < |s| && s[i] == '.';
    var digits := if s[0] == '+' then s[1..] else s;
    var j := if s[0] == '+' then i - 1 else i;
    assert digits[j] == '.' && !IsDigit(digits[j]);
  }

  /** What a minted token opens to under any connection's public id, in its own namespace:
      its number for that very connection, if the id has no dot, and nothing otherwise. */
  lemma MintedOpens(minter: Minter, namespace: string, minted: string, opener: string, text: string, n: nat)
    requires FaithfulMinter(minter) && ParseU64(text) == Some(n)
    ensures OpenAs(minter, namespace, opener, minter.seal(namespace + minted + "." + text))
         == if minted == opener && '.' !in minted then Some(n) else None
  {
    var payload := namespace + minted + "." + text;
    assert payload[..|namespace|] == namespace && payload[|namespace|..] == minted + "." + text;
    if '.' !in minted {
      SplitOnceAt(minted, text);
    } else {
      DottedIdSplits(minted, text);
    }
  }

  /** A dotted id is cut at its first dot, and what is left of it spoils the number. */
  lemma DottedIdSplits(minted: string, text: string)
    requires '.' in minted
    ensures SplitOnce(minted + "." + text).Some? && ParseU64(SplitOnce(minted + "." + text).value.1).None?
  {
    SplitOnceParts(minted);
    var p := SplitOnce(minted).value;
    assert minted + "." + text == p.0 + "." + (p.1 + "." + text);
    SplitOnceAt(p.0, p.1 + "." + text);
    assert (p.1 + "." + text)[|p.1|] == '.';
    DottedIsNoNumber(p.1 + "." + text);
  }

  lemma FrontierOpens(minter: Minter, mine: ConnKeys, other: ConnKeys, n: nat)
    requires FaithfulMinter(minter) && n < U64
    ensures other.OpenFrontier(minter, mine.Frontier(minter, n))
         == if mine.publicId == other.publicId && '.' !in mine.publicId then Some(n) else None
  {
    DigitsParse(if |DecimalText(n)| < 20 then 20 - |DecimalText(n)| else 0, n);
    MintedOpens(minter, "f.", mine.publicId, other.publicId, Padded(n), n);
  }

  /** A frontier token opens to its number for all u64 exactly when the id has no dot. */
  lemma FrontierRoundTrips(minter: Minter, keys: ConnKeys, n: nat)
    requires FaithfulMinter(minter) && n < U64
    ensures keys.OpenFrontier(minter, keys.Frontier(minter, n)) == Some(n) <==> '.' !in keys.publicId
  {
    FrontierOpens(minter, keys, keys, n);
  }

  /** ... and never under another connection's public id, dots or not. */
  lemma OthersAreRefused(minter: Minter, mine: ConnKeys, other: ConnKeys, n: nat)
    requires FaithfulMinter(minter) && n < U64 && mine.publicId != other.publicId
    ensures other.OpenFrontier(minter, mine.Frontier(minter, n)).None?
    ensures other.OpenOccurrence(minter, mine.Occurrence(minter, n)).None?
  {
    FrontierOpens(minter, mine, other, n);
    OccurrenceOpens(minter, mine, other, n);
  }

  lemma OccurrenceOpens(minter: Minter, mine: ConnKeys, other: ConnKeys, n: nat)
    requires FaithfulMinter(minter) && n < U64
    ensures other.OpenOccurrence(minter, mine.Occurrence(minter, n))
         == if mine.publicId == other.publicId && '.' !in mine.publicId then Some(n) else None
  {
    DigitsParse(0, n);
    assert Zeros(0) + DecimalText(n) == DecimalText(n);
    MintedOpens(minter, "o.", mine.publicId, other.publicId, DecimalText(n), n);
  }

  /** The two namespaces do not mix. */
  lemma NamespacesAreApart(minter: Minter, mine: ConnKeys, other: ConnKeys, n: nat)
    requires FaithfulMinter(minter)
    ensures other.OpenFrontier(minter, mine.Occurrence(minter, n)).None?
    ensures other.OpenOccurrence(minter, mine.Frontier(minter, n)).None?
  {
    assert ("o." + mine.publicId + "." + DecimalText(n))[..2][0] == 'o';
    assert ("f." + mine.publicId + "." + Padded(n))[..2][0] == 'f';
  }

  /** What is accepted in all: the namespace, this id without a dot, a dot, and any text the
      number parser takes, padded or not. */
  lemma AcceptedExactly(keys: ConnKeys, token: string, n: nat)
    ensures keys.OpenFrontier(UnsignedMinter(), token) == Some(n)
      <==> '.' !in keys.publicId && exists text :: token == "f." + keys.publicId + "." + text && ParseU64(text) == Some(n)
  {
    if keys.OpenFrontier(UnsignedMinter(), token) == Some(n) {
      SplitOnceParts(token[2..]);
      var p := SplitOnce(token[2..]).value;
      assert token == token[..2] + token[2..];
      assert token == "f." + keys.publicId + "." + p.1;
    }
    if '.' !in keys.publicId {
      forall text | token == "f." + keys.publicId + "." + text && ParseU64(text) == Some(n)
        ensures keys.OpenFrontier(UnsignedMinter(), token) == Some(n)
      {
        UnsignedIsFaithful();
        MintedOpens(UnsignedMinter(), "f.", keys.publicId, keys.publicId, text, n);
      }
    }
  }

  // ---- order -------------------------------------------------------------

  function Pow10(k: nat): nat { if k == 0 then 1 else 10 * Pow10(k - 1) }

  lemma {:induction false} NumberFromTheFront(s: string)
    requires AllDigits(s) && s != ""
    ensures NumberOf(s) == Digit(s[0]) * Pow10(|s| - 1) + NumberOf(s[1..])
    decreases |s|
  {
    if |s| == 1 {
      assert s[..0] == [] && s[1..] == [];
    } else {
      var init := s[..|s| - 1];
      NumberFromTheFront(init);
      assert s[1..][..|s[1..]| - 1] == init[1..];
      TenTimes(Digit(s[0]), |init|);
    }
  }

  function Digit(c: char): int { c as int - '0' as int }

  lemma TenTimes(d: int, k: nat)
    requires k > 0
    ensures 10 * (d * Pow10(k - 1)) == d * Pow10(k)
  {
  }

  lemma {:induction false} NumberBelow(s: string)
    requires AllDigits(s)
    ensures NumberOf(s) < Pow10(|s|)
    decreases |s|
  {
    if s != "" { NumberBelow(s[..|s| - 1]); }
  }

  lemma {:induction false} DigitsOrder(s: string, t: string)
    requires AllDigits(s) && AllDigits(t) && |s| == |t|
    ensures CmpText(s, t) == CmpInt(NumberOf(s), NumberOf(t))
    decreases |s|
  {
    if s != "" {
      NumberFromTheFront(s);
      NumberFromTheFront(t);
      DigitsOrder(s[1..], t[1..]);
      NumberBelow(s[1..]);
      NumberBelow(t[1..]);
      LeadingDigit(Digit(s[0]), Digit(t[0]), NumberOf(s[1..]), NumberOf(t[1..]), Pow10(|s| - 1));
    }
  }

  lemma LeadingDigit(a: nat, b: nat, x: nat, y: nat, p: nat)
    ensures x < p && y < p && a < b ==> a * p + x < b * p + y
    ensures x < p && y < p && b < a ==> b * p + y < a * p + x
  {
    if a < b { assert (a + 1) * p <= b * p; }
    if b < a { assert (b + 1) * p <= a * p; }
  }

  lemma {:induction false} DigitCount(n: nat, k: nat)
    requires k > 0 && n < Pow10(k)
    ensures |DecimalText(n)| <= k
  {
    if n >= 10 { DigitCount(n / 10, k - 1); }
  }

  lemma PaddedIsTwentyDigits(n: nat)
    requires n < U64
    ensures |Padded(n)| == 20 && AllDigits(Padded(n)) && NumberOf(Padded(n)) == n
  {
    assert Pow10(5) == 100_000 by { assert Pow10(2) == 100 && Pow10(3) == 1000 && Pow10(4) == 10_000; }
    assert Pow10(10) == 10_000_000_000 by {
      assert Pow10(6) == 1_000_000 && Pow10(7) == 10_000_000 && Pow10(8) == 100_000_000 && Pow10(9) == 1_000_000_000;
    }
    assert Pow10(15) == 1_000_000_000_000_000 by {
      assert Pow10(11) == 10 * Pow10(10) && Pow10(12) == 10 * Pow10(11) && Pow10(13) == 10 * Pow10(12) && Pow10(14) == 10 * Pow10(13);
    }
    assert Pow10(20) == 100_000_000_000_000_000_000 by {
      assert Pow10(16) == 10 * Pow10(15) && Pow10(17) == 10 * Pow10(16) && Pow10(18) == 10 * Pow10(17) && Pow10(19) == 10 * Pow10(18);
    }
    DigitCount(n, 20);
    DecimalReads(n);
    ZerosAddNothing(20 - |DecimalText(n)|, DecimalText(n));
  }

  lemma {:induction false} CommonPrefix(p: string, a: string, b: string)
    ensures CmpText(p + a, p + b) == CmpText(a, b)
  {
    if p == "" {
      assert p + a == a && p + b == b;
    } else {
      assert (p + a)[1..] == p[1..] + a && (p + b)[1..] == p[1..] + b;
      CommonPrefix(p[1..], a, b);
    }
  }

  /** Within one connection, unsigned frontier tokens sort as text in frontier order. */
  lemma FrontiersSort(keys: ConnKeys, m: nat, n: nat)
    requires m < U64 && n < U64
    ensures CmpText(keys.Frontier(UnsignedMinter(), m), keys.Frontier(UnsignedMinter(), n)) == CmpInt(m, n)
  {
    PaddedIsTwentyDigits(m);
    PaddedIsTwentyDigits(n);
    DigitsOrder(Padded(m), Padded(n));
    CommonPrefix("f." + keys.publicId + ".", Padded(m), Padded(n));
  }

  // ---- operations --------------------------------------------------------

  /** Two secrets can name the same operation exactly when they are equal or one continues
      the other past a dot. */
  lemma ScopesCollideExactly(a: ConnKeys, b: ConnKeys)
    ensures (exists r, q :: a.ScopeOperation(r) == b.ScopeOperation(q))
       <==> a.secret == b.secret || StartsWith(a.secret, b.secret + ".") || StartsWith(b.secret, a.secret + ".")
  {
    var s, t := a.secret, b.secret;
    forall r, q | a.ScopeOperation(r) == b.ScopeOperation(q)
      ensures s == t || StartsWith(s, t + ".") || StartsWith(t, s + ".")
    {
      var u := a.ScopeOperation(r);
      if |s| == |t| {
        assert u[..|s|] == s && u[..|t|] == t;
      } else if |s| < |t| {
        assert u[..|s| + 1] == s + "." && u[..|t|] == t;
        assert t[..|s| + 1] == u[..|t|][..|s| + 1] == u[..|s| + 1];
      } else {
        assert u[..|t| + 1] == t + "." && u[..|s|] == s;
        assert s[..|t| + 1] == u[..|s|][..|t| + 1] == u[..|t| + 1];
      }
    }
    if s == t {
      assert a.ScopeOperation("") == b.ScopeOperation("");
    } else if StartsWith(s, t + ".") {
      assert s == t + "." + s[|t| + 1..];
      assert a.ScopeOperation("") == b.ScopeOperation(s[|t| + 1..] + ".");
    } else if StartsWith(t, s + ".") {
      assert t == s + "." + t[|s| + 1..];
      assert a.ScopeOperation(t[|s| + 1..] + ".") == b.ScopeOperation("");
    }
  }

  /** For dot-free secrets the scoped name determines the secret and the raw id. */
  lemma ScopeIsInjective(a: ConnKeys, b: ConnKeys, r: string, q: string)
    requires '.' !in a.secret && '.' !in b.secret && a.ScopeOperation(r) == b.ScopeOperation(q)
    ensures a.secret == b.secret && r == q
  {
    SplitOnceAt(a.secret, r);
    SplitOnceAt(b.secret, q);
  }
}
