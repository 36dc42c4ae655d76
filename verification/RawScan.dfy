/** The bounds-checked central-directory scan of a ZIP or ZIP64 file (liasse-artifact, raw.rs). */
module RawScan {
  import opened Utf8

  // A slice never spans more than `isize::MAX` bytes; every other machine value is 64 bits wide.
  type Buffer = b: seq<Byte> | |b| < 0x8000_0000_0000_0000

  newtype Usize = n: int | 0 <= n < 0x1_0000_0000_0000_0000

  const EOCD_SIG: seq<Byte> := [0x50, 0x4b, 0x05, 0x06]
  const ZIP64_LOCATOR_SIG: seq<Byte> := [0x50, 0x4b, 0x06, 0x07]
  const ZIP64_EOCD_SIG: seq<Byte> := [0x50, 0x4b, 0x06, 0x06]
  const CENTRAL_SIG: seq<Byte> := [0x50, 0x4b, 0x01, 0x02]

  datatype Detail = OutOfRange | MalformedRecord | TooSmall | NoEocd | NoLocator | NoZip64Eocd

  datatype Scan<+T> = Ok(value: T) | NotZip(detail: Detail) {
    predicate IsFailure() { NotZip? }
    function PropagateFailure<U>(): Scan<U>
      requires NotZip?
    {
      NotZip(detail)
    }
    function Extract(): T
      requires Ok?
    {
      value
    }
  }

  // ---- little-endian words -----------------------------------------------

  function Pow256(k: nat): nat { if k == 0 then 1 else 256 * Pow256(k - 1) }

  function Le(n: nat, k: nat): (s: seq<Byte>)
    ensures |s| == k
  {
    if k == 0 then [] else [(n % 256) as Byte] + Le(n / 256, k - 1)
  }

  function ReadLe(s: seq<Byte>): (n: nat)
    ensures n < Pow256(|s|)
  {
    if s == [] then 0 else s[0] as nat + 256 * ReadLe(s[1..])
  }

  lemma {:induction false} LeReads(n: nat, k: nat)
    requires n < Pow256(k)
    ensures ReadLe(Le(n, k)) == n
  {
    if k > 0 {
      LeReads(n / 256, k - 1);
      assert Le(n, k)[1..] == Le(n / 256, k - 1);
    }
  }

  /** Words are read least significant byte first. */
  lemma {:induction false} ReadsLittleEndian(s: seq<Byte>, last: Byte)
    ensures ReadLe(s + [last]) == ReadLe(s) + Pow256(|s|) * (last as nat)
  {
    if s == [] {
      assert s + [last] == [last] && [last][1..] == [];
    } else {
      assert (s + [last])[1..] == s[1..] + [last];
      ReadsLittleEndian(s[1..], last);
      Regroup(Pow256(|s| - 1), last as nat);
    }
  }

  lemma Regroup(p: nat, n: nat)
    ensures 256 * (p * n) == (256 * p) * n
  {
  }

  lemma WordSizes()
    ensures Pow256(2) == 0x1_0000 && Pow256(4) == 0x1_0000_0000 && Pow256(8) == 0x1_0000_0000_0000_0000
  {
    assert Pow256(2) == 256 * Pow256(1) && Pow256(3) == 256 * Pow256(2) && Pow256(4) == 256 * Pow256(3);
    assert Pow256(5) == 256 * Pow256(4) && Pow256(6) == 256 * Pow256(5) && Pow256(7) == 256 * Pow256(6) && Pow256(8) == 256 * Pow256(7);
  }

  // ---- the bounds-checked view -------------------------------------------

  function CheckedAdd(a: Usize, b: Usize): (r: Scan<Usize>)
    ensures r.Ok? <==> a as int + b as int < 0x1_0000_0000_0000_0000
    ensures r.Ok? ==> r.value as int == a as int + b as int
  {
    if a as int + b as int < 0x1_0000_0000_0000_0000 then Ok(a + b) else NotZip(OutOfRange)
  }

  /** No address is read outside the buffer: a range that leaves it, or that does not fit
      the machine word, is an error. */
  function Slice(b: Buffer, at: Usize, len: Usize): (r: Scan<seq<Byte>>)
    ensures r.Ok? <==> at as int + len as int <= |b|
    ensures r.Ok? ==> r.value == b[at as int..at as int + len as int]
    ensures r.NotZip? ==> r == NotZip(OutOfRange)
  {
    var end :- CheckedAdd(at, len);
    if end as int <= |b| then Ok(b[at as int..end as int]) else NotZip(OutOfRange)
  }

  function Word(b: Buffer, at: Usize, k: Usize): (r: Scan<Usize>)
    requires k == 2 || k == 4 || k == 8
    ensures r.Ok? <==> at as int + k as int <= |b|
    ensures r.Ok? ==> r.value as int == ReadLe(b[at as int..at as int + k as int]) < Pow256(k as int)
    ensures r.NotZip? ==> r == NotZip(OutOfRange)
  {
    WordSizes();
    var raw :- Slice(b, at, k);
    Ok(ReadLe(raw) as Usize)
  }

  // ---- finding the directory ---------------------------------------------

  ghost predicate SigAt(b: Buffer, at: nat, sig: seq<Byte>) {
    at + |sig| <= |b| && b[at..at + |sig|] == sig
  }

  /** The last End-Of-Central-Directory signature with room for its record. */
  ghost predicate LastEocd(b: Buffer, e: nat) {
    && e + 22 <= |b| && SigAt(b, e, EOCD_SIG)
    && forall k :: e < k <= |b| - 22 ==> !SigAt(b, k, EOCD_SIG)
  }

  method FindEocd(b: Buffer) returns (r: Scan<Usize>)
    ensures r.Ok? ==> LastEocd(b, r.value as nat) && SigAt(b, r.value as nat, [0x50, 0x4b, 0x05, 0x06])
    ensures r.NotZip? ==> forall k: nat :: k <= |b| - 22 ==> !SigAt(b, k, EOCD_SIG)
    ensures r == NotZip(TooSmall) <==> |b| < 22
  {
    if |b| < 22 {
      return NotZip(TooSmall);
    }
    var start := |b| - 21;
    while start > 0
      invariant 0 <= start <= |b| - 21
      invariant forall k :: start <= k <= |b| - 22 ==> !SigAt(b, k, EOCD_SIG)
    {
      start := start - 1;
      if b[start..start + 4] == EOCD_SIG {
        return Ok(start as Usize);
      }
    }
    return NotZip(NoEocd);
  }

  datatype Directory = Directory(offset: Usize, count: Usize)

  function LocateDirectory(b: Buffer, eocd: Usize): Scan<Directory>
    requires eocd as int + 22 <= |b|
  {
    var count16 :- Word(b, eocd + 10, 2);
    var offset32 :- Word(b, eocd + 16, 4);
    if count16 != 0xFFFF && offset32 != 0xFFFF_FFFF then Ok(Directory(offset32, count16))
    else LocateZip64(b, eocd)
  }

  /** The locator stands just before the end record. */
  function LocateZip64(b: Buffer, eocd: Usize): Scan<Directory>
    requires eocd as int + 22 <= |b|
  {
    if eocd < 20 then NotZip(OutOfRange)
    else
      var locator := eocd - 20;
      var sig :- Slice(b, locator, 4);
      if sig != ZIP64_LOCATOR_SIG then NotZip(NoLocator)
      else
        var zip64 :- Word(b, locator + 8, 8);
        var sig64 :- Slice(b, zip64, 4);
        if sig64 != ZIP64_EOCD_SIG then NotZip(NoZip64Eocd)
        else
          var offset :- Word(b, zip64 + 48, 8);
          var count :- Word(b, zip64 + 32, 8);
          Ok(Directory(offset, count))
  }

  /** A little-endian word of `k` bytes. */
  ghost predicate WordIs(b: Buffer, at: nat, k: nat, n: nat) {
    at + k <= |b| && n == ReadLe(b[at..at + k])
  }

  /** The classic end record gives the directory, unless it carries a ZIP64 marker. */
  ghost predicate ClassicDirectory(b: Buffer, e: nat, offset: nat, count: nat) {
    WordIs(b, e + 10, 2, count) && WordIs(b, e + 16, 4, offset) && count != 0xFFFF && offset != 0xFFFF_FFFF
  }

  /** Else the locator just before it leads to the ZIP64 record, which does. */
  ghost predicate Zip64Directory(b: Buffer, e: nat, offset: nat, count: nat) {
    && (WordIs(b, e + 10, 2, 0xFFFF) || WordIs(b, e + 16, 4, 0xFFFF_FFFF))
    && e >= 20 && SigAt(b, e - 20, [0x50, 0x4b, 0x06, 0x07]) && Zip64Found(b, e, offset, count)
  }

  ghost predicate Zip64Found(b: Buffer, e: nat, offset: nat, count: nat)
    requires e >= 20
  {
    exists z :: Zip64At(b, e, z, offset, count)
  }

  ghost predicate Zip64At(b: Buffer, e: nat, z: nat, offset: nat, count: nat)
    requires e >= 20
  {
    WordIs(b, e - 12, 8, z) && SigAt(b, z, [0x50, 0x4b, 0x06, 0x06]) && WordIs(b, z + 48, 8, offset) && WordIs(b, z + 32, 8, count)
  }

  /** With the locator's word in hand there is one place for the ZIP64 record. */
  lemma OneZip64(b: Buffer, e: nat, z: nat, offset: nat, count: nat)
    requires e >= 20 && WordIs(b, e - 12, 8, z)
    ensures Zip64Found(b, e, offset, count) <==> Zip64At(b, e, z, offset, count)
  {
  }

  lemma SignaturesAt(b: Buffer, locator: Usize, zip64: Usize)
    ensures Slice(b, locator, 4) == Ok(ZIP64_LOCATOR_SIG) <==> SigAt(b, locator as nat, [0x50, 0x4b, 0x06, 0x07])
    ensures Slice(b, zip64, 4) == Ok(ZIP64_EOCD_SIG) <==> SigAt(b, zip64 as nat, [0x50, 0x4b, 0x06, 0x06])
  {
  }

  lemma Zip64Exactly(b: Buffer, e: Usize, offset: Usize, count: Usize)
    requires 20 <= e && e as int + 22 <= |b|
    ensures LocateZip64(b, e) == Ok(Directory(offset, count))
       <==> SigAt(b, e as nat - 20, [0x50, 0x4b, 0x06, 0x07]) && Zip64Found(b, e as nat, offset as nat, count as nat)
  {
    var locator := e - 20;
    var zip64 := Word(b, locator + 8, 8);
    assert WordIs(b, e as nat - 12, 8, zip64.value as nat);
    SignaturesAt(b, locator, zip64.value);
    OneZip64(b, e as nat, zip64.value as nat, offset as nat, count as nat);
    WordsOf(b, zip64.value, offset, count);
  }

  /** The directory is located exactly so; anything else is an error. */
  lemma LocatesExactly(b: Buffer, e: Usize, offset: Usize, count: Usize)
    requires e as int + 22 <= |b|
    ensures LocateDirectory(b, e) == Ok(Directory(offset, count))
       <==> ClassicDirectory(b, e as nat, offset as nat, count as nat) || Zip64Directory(b, e as nat, offset as nat, count as nat)
  {
    var count16, offset32 := Word(b, e + 10, 2), Word(b, e + 16, 4);
    assert WordIs(b, e as nat + 10, 2, count16.value as nat) && WordIs(b, e as nat + 16, 4, offset32.value as nat);
    if e >= 20 { Zip64Exactly(b, e, offset, count); }
  }

  lemma WordsOf(b: Buffer, z: Usize, offset: Usize, count: Usize)
    ensures WordIs(b, z as nat + 48, 8, offset as nat) && WordIs(b, z as nat + 32, 8, count as nat)
       <==> z as int + 56 <= |b| && Word(b, z + 48, 8) == Ok(offset) && Word(b, z + 32, 8) == Ok(count)
  {
  }

  // ---- the records -------------------------------------------------------

  ghost function WordAt(b: Buffer, at: nat): nat {
    if at + 2 <= |b| then ReadLe(b[at..at + 2]) else 0
  }

  /** A central header whose fixed part and name lie inside the buffer. */
  ghost predicate RecordAt(b: Buffer, c: nat) {
    SigAt(b, c, CENTRAL_SIG) && c + 46 + WordAt(b, c + 28) <= |b|
  }

  ghost function NameAt(b: Buffer, c: nat): seq<Byte> {
    if RecordAt(b, c) then b[c + 46..c + 46 + WordAt(b, c + 28)] else []
  }

  /** Where the record after `n` records starts. */
  ghost function CursorAfter(b: Buffer, offset: nat, n: nat): (c: nat)
    ensures c >= offset + 46 * n
  {
    if n == 0 then offset
    else
      var c := CursorAfter(b, offset, n - 1);
      c + 46 + WordAt(b, c + 28) + WordAt(b, c + 30) + WordAt(b, c + 32)
  }

  ghost predicate Walks(b: Buffer, offset: nat, n: nat) {
    n == 0 || (Walks(b, offset, n - 1) && RecordAt(b, CursorAfter(b, offset, n - 1)))
  }

  ghost function NamesIn(b: Buffer, decode: seq<Byte> -> string, offset: nat, n: nat): (names: seq<string>)
    ensures |names| == n
  {
    if n == 0 then [] else NamesIn(b, decode, offset, n - 1) + [decode(NameAt(b, CursorAfter(b, offset, n - 1)))]
  }

  /** What a directory listing is: from the last EOCD record, `count` headers in a row,
      and their names in order with duplicates. */
  ghost predicate Lists(b: Buffer, decode: seq<Byte> -> string, eocd: Usize, names: seq<string>) {
    && LastEocd(b, eocd as nat)
    && LocateDirectory(b, eocd).Ok?
    && var d := LocateDirectory(b, eocd).value;
       && Walks(b, d.offset as nat, d.count as nat)
       && names == NamesIn(b, decode, d.offset as nat, d.count as nat)
  }

  lemma OneLastEocd(b: Buffer, d: nat, e: nat)
    requires LastEocd(b, d) && LastEocd(b, e)
    ensures d == e
  {
  }

  lemma {:induction false} WalkStops(b: Buffer, offset: nat, m: nat, n: nat)
    requires m < n && !RecordAt(b, CursorAfter(b, offset, m))
    ensures !Walks(b, offset, n)
  {
    if m < n - 1 {
      WalkStops(b, offset, m, n - 1);
    }
  }

  /** The state of the loop: `n` records read, the cursor just past them. */
  ghost predicate ReadSoFar(b: Buffer, decode: seq<Byte> -> string, offset: nat, n: nat, cursor: nat, names: seq<string>) {
    cursor == CursorAfter(b, offset, n) && Walks(b, offset, n) && names == NamesIn(b, decode, offset, n) && 46 * n <= |b|
  }

  lemma ReadOneMore(b: Buffer, decode: seq<Byte> -> string, offset: nat, n: nat, cursor: nat, names: seq<string>, next: nat)
    requires ReadSoFar(b, decode, offset, n, cursor, names) && RecordAt(b, cursor)
    requires next == cursor + 46 + WordAt(b, cursor + 28) + WordAt(b, cursor + 30) + WordAt(b, cursor + 32)
    ensures ReadSoFar(b, decode, offset, n + 1, next, names + [decode(NameAt(b, cursor))])
  {
  }

  /** One step of the scan: succeeds exactly on a record, and moves just past it. */
  method ReadRecord(b: Buffer, cursor: Usize) returns (r: Scan<seq<Byte>>, next: Usize)
    ensures r.Ok? <==> RecordAt(b, cursor as nat)
    ensures r.Ok? ==> r.value == NameAt(b, cursor as nat) && SigAt(b, cursor as nat, [0x50, 0x4b, 0x01, 0x02])
    ensures r.Ok? ==> next as nat
                      == cursor as nat + 46 + WordAt(b, cursor as nat + 28) + WordAt(b, cursor as nat + 30) + WordAt(b, cursor as nat + 32)
  {
    WordSizes();
    next := cursor;
    var sig := Slice(b, cursor, 4);
    if sig.NotZip? || sig.value != CENTRAL_SIG {
      return if sig.NotZip? then sig else NotZip(MalformedRecord), next;
    }
    var nameLen, extraLen, commentLen := Word(b, cursor + 28, 2), Word(b, cursor + 30, 2), Word(b, cursor + 32, 2);
    if nameLen.NotZip? || extraLen.NotZip? || commentLen.NotZip? {
      return NotZip(OutOfRange), next;
    }
    r := Slice(b, cursor + 46, nameLen.value);
    if r.Ok? {
      next := cursor + (46 + nameLen.value + extraLen.value + commentLen.value);
    }
  }

  method ReadRecords(b: Buffer, decode: seq<Byte> -> string, directory: Directory) returns (r: Scan<seq<string>>, ghost read: nat)
    ensures r.Ok? <==> Walks(b, directory.offset as nat, directory.count as nat)
    ensures r.Ok? ==> r.value == NamesIn(b, decode, directory.offset as nat, directory.count as nat) && read == |r.value|
    ensures 46 * read <= |b|
  {
    read := 0;
    ghost var offset := directory.offset as nat;
    var names: seq<string> := [];
    var cursor := directory.offset;
    for n: Usize := 0 to directory.count
      invariant read == n as nat && ReadSoFar(b, decode, offset, read, cursor as nat, names)
    {
      var record, next := ReadRecord(b, cursor);
      if record.NotZip? {
        WalkStops(b, offset, read, directory.count as nat);
        return NotZip(record.detail), read;
      }
      ReadOneMore(b, decode, offset, read, cursor as nat, names, next as nat);
      names := names + [decode(record.value)];
      cursor := next;
      read := read + 1;
    }
    return Ok(names), read;
  }

  /** Total on every buffer: it returns the listing if there is one, an error if there is
      none, and whatever count is declared reads at most one record per 46 bytes. */
  method CentralDirectoryNames(b: Buffer, decode: seq<Byte> -> string) returns (r: Scan<seq<string>>, ghost read: nat)
    ensures r.Ok? ==> |r.value| == read && exists e :: Lists(b, decode, e, r.value)
    ensures forall e, names :: Lists(b, decode, e, names) ==> r == Ok(names)
    ensures 46 * read <= |b|
  {
    read := 0;
    var found := FindEocd(b);
    if found.NotZip? {
      return NotZip(found.detail), read;
    }
    var eocd := found.value;
    forall e, names | Lists(b, decode, e, names)
      ensures e == eocd
    {
      OneLastEocd(b, e as nat, eocd as nat);
    }
    var located := LocateDirectory(b, eocd);
    if located.NotZip? {
      return NotZip(located.detail), read;
    }
    r, read := ReadRecords(b, decode, located.value);
    if r.Ok? {
      assert Lists(b, decode, eocd, r.value);
    }
  }

  // ---- written layouts ---------------------------------------------------

  /** A central header: 24 bytes of versions, flags, sizes and times, three lengths, 12
      bytes of attributes and offsets, then name, extra field and comment. */
  datatype Record = Record(fixed: seq<Byte>, attributes: seq<Byte>, name: seq<Byte>, extra: seq<Byte>, comment: seq<Byte>) {
    predicate Valid() {
      |fixed| == 24 && |attributes| == 12 && |name| < 0x1_0000 && |extra| < 0x1_0000 && |comment| < 0x1_0000
    }

    function Bytes(): seq<Byte> {
      CENTRAL_SIG + fixed + Le(|name|, 2) + Le(|extra|, 2) + Le(|comment|, 2) + attributes + name + extra + comment
    }
  }

  function DirectoryBytes(records: seq<Record>): seq<Byte> {
    if records == [] then []
    else DirectoryBytes(records[..|records| - 1]) + records[|records| - 1].Bytes()
  }

  function Names(decode: seq<Byte> -> string, records: seq<Record>): seq<string> {
    if records == [] then [] else Names(decode, records[..|records| - 1]) + [decode(records[|records| - 1].name)]
  }

  /** The classic end record with an empty comment. */
  function EocdBytes(disks: seq<Byte>, here: nat, count: nat, size: nat, offset: nat): seq<Byte> {
    EOCD_SIG + disks + Le(here, 2) + Le(count, 2) + Le(size, 4) + Le(offset, 4) + Le(0, 2)
  }

  /** The ZIP64 end record, with any extensible data. */
  function Zip64Bytes(fixed: seq<Byte>, count: nat, size: nat, offset: nat, extensible: seq<Byte>): seq<Byte> {
    ZIP64_EOCD_SIG + fixed + Le(count, 8) + Le(size, 8) + Le(offset, 8) + extensible
  }

  function LocatorBytes(disk: seq<Byte>, at: nat, disks: seq<Byte>): seq<Byte> {
    ZIP64_LOCATOR_SIG + disk + Le(at, 8) + disks
  }

  /** `s` stands in `b` at `at`. */
  ghost predicate Holds(b: seq<Byte>, at: nat, s: seq<Byte>) {
    at + |s| <= |b| && b[at..at + |s|] == s
  }

  lemma HoldsSplit(b: seq<Byte>, at: nat, s: seq<Byte>, t: seq<Byte>)
    requires Holds(b, at, s + t)
    ensures Holds(b, at, s) && Holds(b, at + |s|, t)
  {
    var whole := b[at..at + |s + t|];
    assert b[at..at + |s|] == whole[..|s|];
    assert b[at + |s|..at + |s| + |t|] == whole[|s|..];
  }

  lemma HoldsLe(b: seq<Byte>, at: nat, s: seq<Byte>, n: nat, k: nat)
    requires n < Pow256(k) && Holds(b, at, s + Le(n, k))
    ensures Holds(b, at, s) && at + |s| + k <= |b| && ReadLe(b[at + |s|..at + |s| + k]) == n
  {
    HoldsSplit(b, at, s, Le(n, k));
    LeReads(n, k);
  }

  lemma HeaderReads(b: Buffer, at: nat, r: Record)
    requires r.Valid() && Holds(b, at, CENTRAL_SIG + r.fixed + Le(|r.name|, 2) + Le(|r.extra|, 2) + Le(|r.comment|, 2))
    ensures SigAt(b, at, CENTRAL_SIG) && at + 34 <= |b|
    ensures WordAt(b, at + 28) == |r.name| && WordAt(b, at + 30) == |r.extra| && WordAt(b, at + 32) == |r.comment|
  {
    WordSizes();
    var head := CENTRAL_SIG + r.fixed;
    HoldsLe(b, at, head + Le(|r.name|, 2) + Le(|r.extra|, 2), |r.comment|, 2);
    HoldsLe(b, at, head + Le(|r.name|, 2), |r.extra|, 2);
    HoldsLe(b, at, head, |r.name|, 2);
    HoldsSplit(b, at, CENTRAL_SIG, r.fixed);
  }

  lemma RecordReads(b: Buffer, at: nat, r: Record)
    requires r.Valid() && Holds(b, at, r.Bytes())
    ensures RecordAt(b, at) && NameAt(b, at) == r.name
    ensures at + 46 + WordAt(b, at + 28) + WordAt(b, at + 30) + WordAt(b, at + 32) == at + |r.Bytes()|
  {
    var head := CENTRAL_SIG + r.fixed + Le(|r.name|, 2) + Le(|r.extra|, 2) + Le(|r.comment|, 2);
    HoldsSplit(b, at, head + r.attributes + r.name + r.extra, r.comment);
    HoldsSplit(b, at, head + r.attributes + r.name, r.extra);
    HoldsSplit(b, at, head + r.attributes, r.name);
    HoldsSplit(b, at, head, r.attributes);
    HeaderReads(b, at, r);
  }

  /** `n` records from `at` on are there, end at `c` and have these names. */
  ghost predicate ReadsAs(b: Buffer, decode: seq<Byte> -> string, at: nat, n: nat, c: nat, names: seq<string>) {
    Walks(b, at, n) && CursorAfter(b, at, n) == c && NamesIn(b, decode, at, n) == names
  }

  lemma WalkOn(b: Buffer, decode: seq<Byte> -> string, at: nat, n: nat, c: nat, names: seq<string>)
    requires ReadsAs(b, decode, at, n, c, names) && RecordAt(b, c)
    ensures ReadsAs(b, decode, at, n + 1, c + 46 + WordAt(b, c + 28) + WordAt(b, c + 30) + WordAt(b, c + 32), names + [decode(NameAt(b, c))])
  {
  }

  lemma NextRecordReads(b: Buffer, decode: seq<Byte> -> string, at: nat, n: nat, c: nat, names: seq<string>, r: Record)
    requires ReadsAs(b, decode, at, n, c, names) && r.Valid() && Holds(b, c, r.Bytes())
    ensures ReadsAs(b, decode, at, n + 1, c + |r.Bytes()|, names + [decode(r.name)])
  {
    RecordReads(b, c, r);
    WalkOn(b, decode, at, n, c, names);
  }

  ghost predicate AllValid(records: seq<Record>) { forall r :: r in records ==> r.Valid() }

  lemma {:induction false} RecordsRead(b: Buffer, decode: seq<Byte> -> string, at: nat, records: seq<Record>)
    requires AllValid(records) && Holds(b, at, DirectoryBytes(records))
    ensures ReadsAs(b, decode, at, |records|, at + |DirectoryBytes(records)|, Names(decode, records))
  {
    if records != [] {
      var init, last := records[..|records| - 1], records[|records| - 1];
      HoldsSplit(b, at, DirectoryBytes(init), last.Bytes());
      RecordsRead(b, decode, at, init);
      NextRecordReads(b, decode, at, |init|, at + |DirectoryBytes(init)|, Names(decode, init), last);
    }
  }

  /** A written directory reads back record by record. */
  lemma DirectoryReads(b: Buffer, decode: seq<Byte> -> string, at: nat, records: seq<Record>)
    requires AllValid(records) && Holds(b, at, DirectoryBytes(records))
    ensures CursorAfter(b, at, |records|) == at + |DirectoryBytes(records)|
    ensures Walks(b, at, |records|) && NamesIn(b, decode, at, |records|) == Names(decode, records)
  {
    RecordsRead(b, decode, at, records);
  }

  /** With no archive comment the end record is the last thing in the file. */
  lemma EocdIsLast(b: Buffer, e: nat)
    requires e + 22 == |b| && Holds(b, e, EOCD_SIG)
    ensures LastEocd(b, e)
  {
  }

  lemma EocdReads(b: Buffer, e: Usize, disks: seq<Byte>, here: nat, count: nat, size: nat, offset: nat)
    requires |disks| == 4 && count < 0x1_0000 && offset < 0x1_0000_0000
    requires e as nat + 22 == |b| && Holds(b, e as nat, EocdBytes(disks, here, count, size, offset))
    ensures LastEocd(b, e as nat) && Word(b, e + 10, 2) == Ok(count as Usize) && Word(b, e + 16, 4) == Ok(offset as Usize)
  {
    WordSizes();
    var at := e as nat;
    var head := EOCD_SIG + disks + Le(here, 2);
    HoldsSplit(b, at, head + Le(count, 2) + Le(size, 4) + Le(offset, 4), Le(0, 2));
    HoldsLe(b, at, head + Le(count, 2) + Le(size, 4), offset, 4);
    HoldsSplit(b, at, head + Le(count, 2), Le(size, 4));
    HoldsLe(b, at, head, count, 2);
    HoldsSplit(b, at, EOCD_SIG + disks, Le(here, 2));
    HoldsSplit(b, at, EOCD_SIG, disks);
    EocdIsLast(b, at);
  }

  lemma ClassicLocates(b: Buffer, e: Usize, disks: seq<Byte>, here: nat, count: nat, size: nat, offset: nat)
    requires |disks| == 4 && count < 0xFFFF && offset < 0xFFFF_FFFF
    requires e as nat + 22 == |b| && Holds(b, e as nat, EocdBytes(disks, here, count, size, offset))
    ensures LastEocd(b, e as nat) && LocateDirectory(b, e) == Ok(Directory(offset as Usize, count as Usize))
  {
    EocdReads(b, e, disks, here, count, size, offset);
  }

  lemma ListsWith(b: Buffer, decode: seq<Byte> -> string, e: Usize, d: Directory, names: seq<string>)
    requires LastEocd(b, e as nat) && LocateDirectory(b, e) == Ok(d)
    requires Walks(b, d.offset as nat, d.count as nat) && names == NamesIn(b, decode, d.offset as nat, d.count as nat)
    ensures Lists(b, decode, e, names)
  {
  }

  /** A classic file: the directory at the declared offset, and at the very end an end
      record whose count and offset are not the ZIP64 markers. The scan returns its names. */
  lemma ClassicLists(b: Buffer, decode: seq<Byte> -> string, at: nat, records: seq<Record>, disks: seq<Byte>, here: nat, size: nat)
    requires |b| >= 22 && |disks| == 4 && |records| < 0xFFFF && at < 0xFFFF_FFFF
    requires AllValid(records) && Holds(b, at, DirectoryBytes(records))
    requires Holds(b, |b| - 22, EocdBytes(disks, here, |records|, size, at))
    ensures Lists(b, decode, (|b| - 22) as Usize, Names(decode, records))
  {
    ClassicListsAt(b, decode, (|b| - 22) as Usize, at as Usize, |records| as Usize, records, disks, here, size);
  }

  lemma ClassicListsAt(b: Buffer, decode: seq<Byte> -> string, e: Usize, at: Usize, count: Usize, records: seq<Record>,
                       disks: seq<Byte>, here: nat, size: nat)
    requires e as nat + 22 == |b| && |disks| == 4 && count as nat == |records| && count < 0xFFFF && at < 0xFFFF_FFFF
    requires AllValid(records) && Holds(b, at as nat, DirectoryBytes(records))
    requires Holds(b, e as nat, EocdBytes(disks, here, count as nat, size, at as nat))
    ensures Lists(b, decode, e, Names(decode, records))
  {
    ClassicLocates(b, e, disks, here, count as nat, size, at as nat);
    DirectoryReads(b, decode, at as nat, records);
    ListsWith(b, decode, e, Directory(at, count), Names(decode, records));
  }

  lemma LocatorReads(b: Buffer, l: Usize, at: nat, disk: seq<Byte>, disksTotal: seq<Byte>)
    requires |disk| == 4 && |disksTotal| == 4 && at < Pow256(8) && Holds(b, l as nat, LocatorBytes(disk, at, disksTotal))
    ensures at < 0x1_0000_0000_0000_0000 && l as int + 20 <= |b|
    ensures Slice(b, l, 4) == Ok(ZIP64_LOCATOR_SIG) && Word(b, l + 8, 8) == Ok(at as Usize)
  {
    WordSizes();
    HoldsSplit(b, l as nat, ZIP64_LOCATOR_SIG + disk + Le(at, 8), disksTotal);
    HoldsLe(b, l as nat, ZIP64_LOCATOR_SIG + disk, at, 8);
    HoldsSplit(b, l as nat, ZIP64_LOCATOR_SIG, disk);
  }

  lemma Zip64Reads(b: Buffer, z: Usize, fixed: seq<Byte>, count: nat, size: nat, offset: nat, extensible: seq<Byte>)
    requires |fixed| == 28 && count < Pow256(8) && offset < Pow256(8)
    requires Holds(b, z as nat, Zip64Bytes(fixed, count, size, offset, extensible))
    ensures count < 0x1_0000_0000_0000_0000 && offset < 0x1_0000_0000_0000_0000 && z as int + 56 <= |b|
    ensures Slice(b, z, 4) == Ok(ZIP64_EOCD_SIG)
    ensures Word(b, z + 32, 8) == Ok(count as Usize) && Word(b, z + 48, 8) == Ok(offset as Usize)
  {
    WordSizes();
    var at := z as nat;
    var head := ZIP64_EOCD_SIG + fixed;
    HoldsSplit(b, at, head + Le(count, 8) + Le(size, 8) + Le(offset, 8), extensible);
    HoldsLe(b, at, head + Le(count, 8) + Le(size, 8), offset, 8);
    HoldsSplit(b, at, head + Le(count, 8), Le(size, 8));
    HoldsLe(b, at, head, count, 8);
    HoldsSplit(b, at, ZIP64_EOCD_SIG, fixed);
  }

  lemma FollowsLocator(b: Buffer, e: Usize, zip64: Usize, count: Usize, offset: Usize)
    requires 20 <= e && e as nat + 22 <= |b| && zip64 as int + 56 <= |b|
    requires Word(b, e + 10, 2) == Ok(0xFFFF) || Word(b, e + 16, 4) == Ok(0xFFFF_FFFF)
    requires Slice(b, e - 20, 4) == Ok(ZIP64_LOCATOR_SIG) && Word(b, e - 12, 8) == Ok(zip64)
    requires Slice(b, zip64, 4) == Ok(ZIP64_EOCD_SIG)
    requires Word(b, zip64 + 32, 8) == Ok(count) && Word(b, zip64 + 48, 8) == Ok(offset)
    ensures LocateDirectory(b, e) == Ok(Directory(offset, count))
  {
  }

  lemma Zip64Locates(b: Buffer, e: Usize, zip64: nat, at: nat, count: nat,
                     fixed: seq<Byte>, size64: nat, extensible: seq<Byte>, disk: seq<Byte>, disksTotal: seq<Byte>)
    requires 20 <= e && e as nat + 22 <= |b| && |fixed| == 28 && |disk| == 4 && |disksTotal| == 4
    requires count < Pow256(8) && at < |b| && zip64 < |b|
    requires Word(b, e + 10, 2) == Ok(0xFFFF) || Word(b, e + 16, 4) == Ok(0xFFFF_FFFF)
    requires Holds(b, zip64, Zip64Bytes(fixed, count, size64, at, extensible))
    requires Holds(b, e as nat - 20, LocatorBytes(disk, zip64, disksTotal))
    ensures count < 0x1_0000_0000_0000_0000 && LocateDirectory(b, e) == Ok(Directory(at as Usize, count as Usize))
  {
    WordSizes();
    LocatorReads(b, e - 20, zip64, disk, disksTotal);
    Zip64Reads(b, zip64 as Usize, fixed, count, size64, at, extensible);
    FollowsLocator(b, e, zip64 as Usize, count as Usize, at as Usize);
  }

  /** A ZIP64 file: the end record carries a marker and the locator just before it finds
      the ZIP64 record, which finds the directory. The scan returns its names. */
  lemma Zip64Lists(b: Buffer, decode: seq<Byte> -> string, at: nat, records: seq<Record>, zip64: nat,
                   fixed: seq<Byte>, size64: nat, extensible: seq<Byte>, disk: seq<Byte>, disksTotal: seq<Byte>,
                   disks: seq<Byte>, here: nat, count16: nat, size: nat, offset32: nat)
    requires |b| >= 42 && |disks| == 4 && |fixed| == 28 && |disk| == 4 && |disksTotal| == 4
    requires count16 < 0x1_0000 && offset32 < 0x1_0000_0000 && (count16 == 0xFFFF || offset32 == 0xFFFF_FFFF)
    requires |records| < Pow256(8) && at < |b|
    requires AllValid(records) && Holds(b, at, DirectoryBytes(records))
    requires Holds(b, zip64, Zip64Bytes(fixed, |records|, size64, at, extensible))
    requires Holds(b, |b| - 42, LocatorBytes(disk, zip64, disksTotal))
    requires Holds(b, |b| - 22, EocdBytes(disks, here, count16, size, offset32))
    ensures Lists(b, decode, (|b| - 22) as Usize, Names(decode, records))
  {
    WordSizes();
    var e := (|b| - 22) as Usize;
    EocdReads(b, e, disks, here, count16, size, offset32);
    Zip64Locates(b, e, zip64, at, |records|, fixed, size64, extensible, disk, disksTotal);
    DirectoryReads(b, decode, at, records);
    ListsWith(b, decode, e, Directory(at as Usize, |records| as Usize), Names(decode, records));
  }
}
