/** The container layer of an artifact (liasse-artifact, archive.rs). */
module Archive {
  import opened Text
  import opened Utf8
  import opened Values

  type Bytes = seq<Byte>

  datatype Entry = Entry(name: string, data: Bytes, stored: bool)

  datatype ArtifactError =
    | NotZip
    | EntryOutsideRoot(name: string)
    | DuplicateEntry(name: string)
    | ContainerWrite
    | MimetypeMissing
    | MimetypeNotFirst
    | MimetypeCompressed
    | MimetypeContent
    | ManifestMissing
    | ManifestMalformed
    | NonCanonicalRolePath(path: string)
    | EntriesMissingRequired(path: string)
    | EntriesForbiddenMember(path: string)
    | MissingEntry(name: string)
    | ChecksumMismatch(name: string)
    | ModuleNestingTooDeep
    | DefinitionIdentityMismatch

  datatype Checked<+T> = Ok(value: T) | Rejected(error: ArtifactError) {
    predicate IsFailure() { Rejected? }
    function PropagateFailure<U>(): Checked<U>
      requires Rejected?
    {
      Rejected(error)
    }
    function Extract(): T
      requires Ok?
    {
      value
    }
  }

  /** One entry of the library's table: none at all, one whose data cannot be read, or one
      read whole. */
  datatype Member = Unreadable | Torn(name: string) | Whole(entry: Entry)

  /** The ZIP codec: the raw central-directory names, the library's own table of entries,
      its idea of an enclosed name, and its writer, which stores every entry. */
  datatype Zip = Zip(
    names: Bytes -> Option<seq<string>>,
    table: Bytes -> Option<seq<Member>>,
    enclosed: string -> bool,
    write: seq<Entry> -> Option<Bytes>)

  /** What is assumed of the codec: stored entries that it wrote it reads back, in order,
      and it encloses every name that is relative, has no `..` component and no NUL. */
  ghost predicate FaithfulZip(zip: Zip) {
    (forall es :: ReadsBack(zip, es)) && forall name :: Encloses(zip, name)
  }

  ghost predicate ReadsBack(zip: Zip, es: seq<Entry>) {
    AllStored(es) && zip.write(es).Some? ==>
      zip.names(zip.write(es).value) == Some(NamesOf(es)) && zip.table(zip.write(es).value) == Some(Wholes(es))
  }

  ghost predicate AllStored(es: seq<Entry>) { forall i :: 0 <= i < |es| ==> es[i].stored }

  function Wholes(es: seq<Entry>): seq<Member> { seq(|es|, i requires 0 <= i < |es| => Whole(es[i])) }

  ghost predicate Encloses(zip: Zip, name: string) {
    !Escapes(name) && '\0' !in name ==> zip.enclosed(name)
  }

  function NamesOf(es: seq<Entry>): seq<string> { seq(|es|, i requires 0 <= i < |es| => es[i].name) }

  // ---- names -------------------------------------------------------------

  function Components(name: string): seq<string> { Split(name, '/') }

  predicate EscapesRoot(name: string) {
    || (name != "" && name[0] == '/')
    || '\\' in name
    || ':' in Components(name)[0]
    || ".." in Components(name)
  }

  /** A name leaves the root when it is absolute, has a backslash, has a colon before any
      slash, or goes up: `..` alone, at its start, at its end or in between. */
  ghost predicate Escapes(name: string) {
    || (exists t :: name == "/" + t)
    || (exists i :: 0 <= i < |name| && name[i] == '\\')
    || (exists i :: 0 <= i < |name| && name[i] == ':' && '/' !in name[..i])
    || GoesUp(name)
  }

  ghost predicate GoesUp(name: string) {
    || name == ".."
    || (exists t :: name == "../" + t)
    || (exists s :: name == s + "/..")
    || (exists s, t :: name == s + ("/../" + t))
  }

  /** The test of the code finds exactly these. */
  lemma EscapesExactly(name: string)
    ensures EscapesRoot(name) <==> Escapes(name)
  {
    var first := Components(name)[0];
    if name != "" && name[0] == '/' { assert name == "/" + name[1..]; }
    FirstPart(name, '/');
    if ':' in first {
      var i :| 0 <= i < |first| && first[i] == ':';
      assert name[i] == ':' && '/' !in name[..i];
    }
    forall i | 0 <= i < |name| && name[i] == ':' && '/' !in name[..i]
      ensures ':' in first
    {
      assert first[i] == ':';
    }
    UpExactly(name);
  }

  /** The first part is what stands before the first separator. */
  lemma {:induction false} FirstPart(s: string, sep: char)
    ensures var first := Split(s, sep)[0];
      |first| <= |s| && first == s[..|first|] && sep !in first && (|first| < |s| ==> s[|first|] == sep)
  {
    if s != [] {
      FirstPart(s[1..], sep);
      var rest := Split(s[1..], sep)[0];
      if s[0] != sep {
        assert s[..|rest| + 1] == [s[0]] + s[1..][..|rest|];
      }
    }
  }

  predicate LeadsWith(s: string, part: string, sep: char) {
    |part| <= |s| && s[..|part|] == part && (|part| == |s| || s[|part|] == sep)
  }

  /** `part` stands behind the separator at `i`. */
  predicate StandsBehind(s: string, part: string, sep: char, i: nat) {
    i < |s| && s[i] == sep && LeadsWith(s[i + 1..], part, sep)
  }

  lemma FreeBefore(s: string, part: string, sep: char)
    requires |part| <= |s| && s[..|part|] == part && sep !in part
    ensures forall i :: 0 <= i < |part| ==> s[i] != sep
  {
    forall i | 0 <= i < |part|
      ensures s[i] != sep
    {
      assert s[i] == part[i];
    }
  }

  lemma LeadsExactly(s: string, part: string, sep: char)
    requires sep !in part
    ensures Split(s, sep)[0] == part <==> LeadsWith(s, part, sep)
  {
    FirstPart(s, sep);
    var first := Split(s, sep)[0];
    FreeBefore(s, first, sep);
    if LeadsWith(s, part, sep) {
      FreeBefore(s, part, sep);
      assert |first| == |part|;
    }
  }

  ghost predicate IsBehind(s: string, part: string, sep: char) { exists i: nat :: StandsBehind(s, part, sep, i) }

  lemma BehindLater(s: string, part: string, sep: char)
    requires s != []
    ensures IsBehind(s, part, sep) <==> (s[0] == sep && LeadsWith(s[1..], part, sep)) || IsBehind(s[1..], part, sep)
  {
    var tail := s[1..];
    assert s[0 + 1..] == tail;
    if i: nat :| StandsBehind(s, part, sep, i) {
      if i > 0 {
        assert s[i + 1..] == tail[i - 1 + 1..] && s[i] == tail[i - 1];
        assert StandsBehind(tail, part, sep, i - 1);
      }
    }
    if i: nat :| StandsBehind(tail, part, sep, i) {
      assert s[i + 1 + 1..] == tail[i + 1..] && s[i + 1] == tail[i];
      assert StandsBehind(s, part, sep, i + 1);
    }
    if s[0] == sep && LeadsWith(tail, part, sep) { assert StandsBehind(s, part, sep, 0); }
  }

  /** The later parts are those that stand behind a separator. */
  lemma {:induction false} PartStands(s: string, sep: char, part: string)
    requires sep !in part
    ensures part in Split(s, sep)[1..] <==> IsBehind(s, part, sep)
  {
    if s != [] {
      PartStands(s[1..], sep, part);
      LeadsExactly(s[1..], part, sep);
      BehindLater(s, part, sep);
      var rest := Split(s[1..], sep);
      assert Split(s, sep)[1..] == if s[0] == sep then rest else rest[1..];
      assert rest == [rest[0]] + rest[1..];
    }
  }

  lemma LeadsUp(name: string)
    ensures LeadsWith(name, "..", '/') <==> name == ".." || exists t :: name == "../" + t
  {
    if LeadsWith(name, "..", '/') && |name| > 2 { assert name == "../" + name[3..]; }
  }

  lemma BehindUp(name: string)
    ensures IsBehind(name, "..", '/') <==> (exists s :: name == s + "/..") || exists s, t :: name == s + ("/../" + t)
  {
    if i: nat :| StandsBehind(name, "..", '/', i) {
      var tail := name[i + 1..];
      LeadsUp(tail);
      assert name == name[..i] + ("/" + tail);
      if tail == ".." {
        assert "/" + tail == "/..";
        assert name == name[..i] + "/..";
      } else {
        var t :| tail == "../" + t;
        assert "/" + tail == "/../" + t;
      }
    }
    if s :| name == s + "/.." {
      assert name[|s| + 1..] == "..";
      LeadsUp("..");
      assert StandsBehind(name, "..", '/', |s|);
    }
    if s, t :| name == s + ("/../" + t) {
      assert name[|s| + 1..] == "../" + t;
      LeadsUp("../" + t);
      assert StandsBehind(name, "..", '/', |s|);
    }
  }

  lemma UpExactly(name: string)
    ensures ".." in Components(name) <==> GoesUp(name)
  {
    var parts := Components(name);
    LeadsExactly(name, "..", '/');
    PartStands(name, '/', "..");
    LeadsUp(name);
    BehindUp(name);
    assert parts == [parts[0]] + parts[1..];
  }

  predicate IsMarker(name: string) { name != "" && name[|name| - 1] == '/' }

  /** A marker names a directory: it ends in a slash. */
  ghost predicate NamesDirectory(name: string) { exists t :: name == t + "/" }

  lemma MarkersExactly(name: string)
    ensures IsMarker(name) <==> NamesDirectory(name)
  {
    if IsMarker(name) { assert name == name[..|name| - 1] + "/"; }
  }

  predicate DoubleDotAt(name: string, i: nat) { i + 1 < |name| && name[i] == '.' && name[i + 1] == '.' }

  predicate NoDoubleDot(name: string) { forall i :: 0 <= i < |name| - 1 ==> !DoubleDotAt(name, i) }

  lemma {:induction false} PlainComponents(name: string)
    requires NoDoubleDot(name)
    ensures ".." !in Components(name)
    ensures |Components(name)[0]| <= |name| && Components(name)[0] == name[..|Components(name)[0]|]
  {
    if name != [] {
      var tail := name[1..];
      assert forall i :: 0 <= i < |tail| - 1 ==> DoubleDotAt(tail, i) == DoubleDotAt(name, i + 1);
      PlainComponents(tail);
      var rest := Components(tail);
      if name[0] != '/' {
        var first := [name[0]] + rest[0];
        assert first == name[..|first|];
        assert |first| == 2 ==> first[0] == name[0] && first[1] == name[1];
        assert |first| == 2 ==> !DoubleDotAt(name, 0);
      }
    }
  }

  /** A relative name without backslash, colon or two dots in a row stays inside. */
  lemma PlainNameStaysInside(name: string)
    requires name != "" && name[0] != '/' && '\\' !in name && ':' !in name
    requires NoDoubleDot(name)
    ensures !EscapesRoot(name)
  {
    PlainComponents(name);
  }

  // ---- reading -----------------------------------------------------------

  /** The raw names are acceptable: directory markers aside, all stay inside the root and
      no two are the same. */
  ghost predicate Acceptable(names: seq<string>) {
    && (forall i :: 0 <= i < |names| && !NamesDirectory(names[i]) ==> !Escapes(names[i]))
    && forall i, j :: 0 <= i < j < |names| && !NamesDirectory(names[i]) && !NamesDirectory(names[j]) ==> names[i] != names[j]
  }

  /** `names[i]` is the first unacceptable name, and this is what is wrong with it. */
  ghost predicate FirstOffence(names: seq<string>, i: nat, error: ArtifactError)
    requires i < |names|
  {
    && Acceptable(names[..i]) && !NamesDirectory(names[i])
    && error == (if Escapes(names[i]) then EntryOutsideRoot(names[i]) else DuplicateEntry(names[i]))
    && (!Escapes(names[i]) ==> names[i] in names[..i])
  }

  /** One pass with a growing `seen` set accepts exactly the acceptable name lists. */
  method CheckNames(names: seq<string>) returns (r: Checked<()>)
    ensures r.Ok? <==> Acceptable(names)
    ensures r.Rejected? ==> exists i :: 0 <= i < |names| && FirstOffence(names, i, r.error)
  {
    var seen: set<string> := {};
    for i := 0 to |names|
      invariant Acceptable(names[..i])
      invariant forall x :: x in seen <==> exists j :: 0 <= j < i && names[j] == x && !NamesDirectory(x)
    {
      var name := names[i];
      MarkersExactly(name);
      EscapesExactly(name);
      assert names[..i + 1] == names[..i] + [name];
      if IsMarker(name) {
        continue;
      }
      if EscapesRoot(name) {
        assert FirstOffence(names, i, EntryOutsideRoot(name));
        return Rejected(EntryOutsideRoot(name));
      }
      if name in seen {
        ghost var j :| 0 <= j < i && names[j] == name && !NamesDirectory(name);
        assert names[..i][j] == name;
        assert FirstOffence(names, i, DuplicateEntry(name));
        return Rejected(DuplicateEntry(name));
      }
      seen := seen + {name};
    }
    assert names[..|names|] == names;
    return Ok(());
  }

  function ContentEntries(ms: seq<Member>): seq<Entry> {
    if ms == [] then []
    else
      var last := ms[|ms| - 1];
      ContentEntries(ms[..|ms| - 1]) + (if last.Whole? && !IsMarker(last.entry.name) then [last.entry] else [])
  }

  /** A member passes when it is a directory marker, or is enclosed and read whole. */
  predicate Passes(zip: Zip, m: Member) {
    match m
    case Unreadable => false
    case Torn(name) => IsMarker(name)
    case Whole(entry) => IsMarker(entry.name) || zip.enclosed(entry.name)
  }

  ghost predicate AllPass(zip: Zip, ms: seq<Member>) { forall i :: 0 <= i < |ms| ==> Passes(zip, ms[i]) }

  /** Its name is looked at before its data is read. */
  function MemberFault(zip: Zip, m: Member): ArtifactError {
    match m
    case Unreadable => NotZip
    case Torn(name) => if zip.enclosed(name) then NotZip else EntryOutsideRoot(name)
    case Whole(entry) => EntryOutsideRoot(entry.name)
  }

  /** What an archive is: acceptable raw names over a table of members that all pass. */
  ghost function Contents(zip: Zip, b: Bytes): Option<seq<Entry>> {
    if zip.names(b).Some? && Acceptable(zip.names(b).value) && zip.table(b).Some? && AllPass(zip, zip.table(b).value)
    then Some(ContentEntries(zip.table(b).value))
    else None
  }

  /** `ms[i]` is the first member that does not pass. */
  ghost predicate FirstFailing(zip: Zip, ms: seq<Member>, i: nat)
    requires i < |ms|
  {
    !Passes(zip, ms[i]) && AllPass(zip, ms[..i])
  }

  /** What is wrong with bytes that are no archive: the names come before the table. */
  ghost predicate ReadFault(zip: Zip, b: Bytes, error: ArtifactError) {
    match zip.names(b)
    case None => error == NotZip
    case Some(names) =>
      if !Acceptable(names) then exists i :: 0 <= i < |names| && FirstOffence(names, i, error)
      else
        match zip.table(b)
        case None => error == NotZip
        case Some(ms) => exists i :: 0 <= i < |ms| && FirstFailing(zip, ms, i) && error == MemberFault(zip, ms[i])
  }

  /** One archive is refused for one reason. */
  lemma ReadFaultIsUnique(zip: Zip, b: Bytes, e1: ArtifactError, e2: ArtifactError)
    requires ReadFault(zip, b, e1) && ReadFault(zip, b, e2)
    ensures e1 == e2
  {
    if zip.names(b).Some? {
      var names := zip.names(b).value;
      if !Acceptable(names) {
        var i :| 0 <= i < |names| && FirstOffence(names, i, e1);
        var j :| 0 <= j < |names| && FirstOffence(names, j, e2);
        if i < j { OffenceIsNotBefore(names, i, j, e1, e2); }
        if j < i { OffenceIsNotBefore(names, j, i, e2, e1); }
      } else if zip.table(b).Some? {
        var ms := zip.table(b).value;
        var i :| 0 <= i < |ms| && FirstFailing(zip, ms, i) && e1 == MemberFault(zip, ms[i]);
        var j :| 0 <= j < |ms| && FirstFailing(zip, ms, j) && e2 == MemberFault(zip, ms[j]);
        if i < j { FailingIsNotBefore(zip, ms, i, j); }
        if j < i { FailingIsNotBefore(zip, ms, j, i); }
      }
    }
  }

  lemma FailingIsNotBefore(zip: Zip, ms: seq<Member>, i: nat, j: nat)
    requires i < j < |ms| && FirstFailing(zip, ms, i)
    ensures !FirstFailing(zip, ms, j)
  {
    assert ms[..j][i] == ms[i];
  }

  lemma OffenceIsNotBefore(names: seq<string>, i: nat, j: nat, e1: ArtifactError, e2: ArtifactError)
    requires i < j < |names| && FirstOffence(names, i, e1)
    ensures !FirstOffence(names, j, e2)
  {
    var before := names[..j];
    assert before[i] == names[i];
    if !Escapes(names[i]) {
      var k :| 0 <= k < i && names[..i][k] == names[i];
      assert before[k] == names[k] == names[i];
    }
  }

  method Read(zip: Zip, b: Bytes) returns (r: Checked<seq<Entry>>)
    ensures r.Ok? <==> Contents(zip, b).Some?
    ensures r.Ok? ==> r.value == Contents(zip, b).value
    ensures r.Rejected? ==> ReadFault(zip, b, r.error)
  {
    var names := zip.names(b);
    if names.None? {
      return Rejected(NotZip);
    }
    var checked := CheckNames(names.value);
    if checked.Rejected? {
      return Rejected(checked.error);
    }
    var table := zip.table(b);
    if table.None? {
      return Rejected(NotZip);
    }
    var ms := table.value;
    var entries: seq<Entry> := [];
    for i := 0 to |ms|
      invariant AllPass(zip, ms[..i]) && entries == ContentEntries(ms[..i])
    {
      assert ms[..i + 1][..i] == ms[..i];
      if !Passes(zip, ms[i]) {
        assert FirstFailing(zip, ms, i);
        return Rejected(MemberFault(zip, ms[i]));
      }
      if ms[i].Whole? && !IsMarker(ms[i].entry.name) {
        entries := entries + [ms[i].entry];
      }
    }
    assert ms[..|ms|] == ms;
    return Ok(entries);
  }

  function Get(es: seq<Entry>, name: string): (e: Option<Entry>)
    ensures e.Some? ==> e.value in es && e.value.name == name
    ensures e.None? ==> forall i :: 0 <= i < |es| ==> es[i].name != name
  {
    if es == [] then None else if es[0].name == name then Some(es[0]) else Get(es[1..], name)
  }

  // ---- writing -----------------------------------------------------------

  /** `mimetype` first, then Unicode-scalar name order. */
  function CmpNames(a: string, b: string): Ordering {
    if a == "mimetype" && b == "mimetype" then Equal
    else if a == "mimetype" then Less
    else if b == "mimetype" then Greater
    else CmpText(a, b)
  }

  lemma CmpNamesStrict(a: string, b: string)
    ensures Strict(a == b, CmpNames(a, b), CmpNames(b, a))
  {
    TextStrict(a, b);
  }

  /** Names ascend by Unicode scalars, a proper prefix first, save that `mimetype` precedes
      every other name. */
  ghost predicate NameBefore(a: string, b: string) {
    a != b && (a == "mimetype" || (b != "mimetype" && TextBefore(a, b)))
  }

  lemma NamesAscend(a: string, b: string)
    ensures CmpNames(a, b) == Less <==> NameBefore(a, b)
  {
    TextAscends(a, b);
    TextStrict(a, b);
  }

  lemma CmpNamesTransitive(a: string, b: string, c: string)
    requires CmpNames(a, b) == Less && CmpNames(b, c) == Less
    ensures CmpNames(a, c) == Less
  {
    if a != "mimetype" && b != "mimetype" && c != "mimetype" { TextTransitive(a, b, c); }
  }

  ghost predicate Ascending(es: seq<Entry>) {
    forall i, j :: 0 <= i < j < |es| ==> CmpNames(es[i].name, es[j].name) == Less
  }

  /** The serialized order of a builder's entries: all of them, each once, ascending. */
  ghost predicate IsListing(entries: map<string, Bytes>, es: seq<Entry>) {
    && Ascending(es)
    && (forall i :: 0 <= i < |es| ==> es[i].name in entries && es[i] == Entry(es[i].name, entries[es[i].name], true))
    && forall name :: name in entries ==> exists i :: 0 <= i < |es| && es[i].name == name
  }

  /** The output order does not depend on the insertion order or on how a hash map happens
      to enumerate: one set of entries has one listing. */
  lemma {:induction false} ListingIsUnique(entries: map<string, Bytes>, s: seq<Entry>, t: seq<Entry>)
    requires IsListing(entries, s) && IsListing(entries, t)
    ensures s == t
    decreases |s|
  {
    NoEntriesNoListing(entries, s);
    NoEntriesNoListing(entries, t);
    if s != [] {
      SameHead(entries, s, t);
      ListingTail(entries, s);
      ListingTail(entries, t);
      ListingIsUnique(entries - {s[0].name}, s[1..], t[1..]);
      assert s == [s[0]] + s[1..] && t == [t[0]] + t[1..];
    }
  }

  lemma NoEntriesNoListing(entries: map<string, Bytes>, es: seq<Entry>)
    requires IsListing(entries, es)
    ensures es == [] <==> entries.Keys == {}
    ensures es != [] ==> es[0].name in entries
  {
    if es == [] {
      assert entries.Keys == {};
    } else {
      assert es[0].name in entries.Keys;
    }
  }

  lemma HeadIsLeast(entries: map<string, Bytes>, es: seq<Entry>, name: string)
    requires IsListing(entries, es) && name in entries
    ensures es != [] && (es[0].name == name || CmpNames(es[0].name, name) == Less)
  {
    var i :| 0 <= i < |es| && es[i].name == name;
  }

  lemma SameHead(entries: map<string, Bytes>, s: seq<Entry>, t: seq<Entry>)
    requires IsListing(entries, s) && IsListing(entries, t) && s != [] && t != []
    ensures s[0] == t[0]
  {
    NoEntriesNoListing(entries, s);
    NoEntriesNoListing(entries, t);
    HeadIsLeast(entries, s, t[0].name);
    HeadIsLeast(entries, t, s[0].name);
    CmpNamesStrict(s[0].name, t[0].name);
  }

  lemma ListingTail(entries: map<string, Bytes>, s: seq<Entry>)
    requires IsListing(entries, s) && s != []
    ensures IsListing(entries - {s[0].name}, s[1..])
  {
    var rest := entries - {s[0].name};
    forall i | 0 <= i < |s[1..]|
      ensures s[1..][i].name in rest && s[1..][i] == Entry(s[1..][i].name, rest[s[1..][i].name], true)
    {
      CmpNamesStrict(s[0].name, s[i + 1].name);
      assert CmpNames(s[0].name, s[i + 1].name) == Less;
    }
    forall name | name in rest
      ensures exists i :: 0 <= i < |s[1..]| && s[1..][i].name == name
    {
      var i :| 0 <= i < |s| && s[i].name == name;
      assert s[1..][i - 1].name == name;
    }
  }

  // ---- adding ------------------------------------------------------------

  /** What a builder holds after these additions. */
  function Added(adds: seq<Entry>): map<string, Bytes> {
    if adds == [] then map[]
    else Added(adds[..|adds| - 1])[adds[|adds| - 1].name := adds[|adds| - 1].data]
  }

  /** The last addition under a name. */
  function LastUnder(adds: seq<Entry>, name: string): Option<Bytes> {
    if adds == [] then None
    else if adds[|adds| - 1].name == name then Some(adds[|adds| - 1].data)
    else LastUnder(adds[..|adds| - 1], name)
  }

  ghost predicate SameUnder(a: seq<Entry>, b: seq<Entry>, name: string) {
    LastUnder(a, name) == LastUnder(b, name)
  }

  lemma {:induction false} LastCounts(adds: seq<Entry>, name: string)
    ensures LastUnder(adds, name) == if name in Added(adds) then Some(Added(adds)[name]) else None
  {
    if adds != [] { LastCounts(adds[..|adds| - 1], name); }
  }

  /** Two builders are serialized alike exactly when the last additions under every name
      agree: the order of additions, and those made over again, leave no trace. */
  lemma InsertionOrderIsInvisible(a: seq<Entry>, b: seq<Entry>, s: seq<Entry>, t: seq<Entry>)
    requires IsListing(Added(a), s) && IsListing(Added(b), t)
    ensures s == t <==> forall name :: SameUnder(a, b, name)
  {
    SameAdditions(a, b);
    if Added(a) == Added(b) { ListingIsUnique(Added(a), s, t); }
    if s == t { ListedEntries(Added(a), Added(b), s); }
  }

  lemma SameAdditions(a: seq<Entry>, b: seq<Entry>)
    ensures Added(a) == Added(b) <==> forall name :: SameUnder(a, b, name)
  {
    if Added(a) == Added(b) {
      forall name
        ensures SameUnder(a, b, name)
      {
        LastCounts(a, name);
        LastCounts(b, name);
      }
    }
    if forall name :: SameUnder(a, b, name) {
      forall name
        ensures name in Added(a) <==> name in Added(b)
        ensures name in Added(a) ==> Added(a)[name] == Added(b)[name]
      {
        assert SameUnder(a, b, name);
        LastCounts(a, name);
        LastCounts(b, name);
      }
      assert Added(a) == Added(b);
    }
  }

  ghost predicate OncePerName(adds: seq<Entry>) {
    forall i, j :: 0 <= i < j < |adds| ==> adds[i].name != adds[j].name
  }

  lemma {:induction false} OnlyOneUnder(adds: seq<Entry>, i: nat)
    requires OncePerName(adds) && i < |adds|
    ensures LastUnder(adds, adds[i].name) == Some(adds[i].data)
  {
    if i < |adds| - 1 { OnlyOneUnder(adds[..|adds| - 1], i); }
  }

  lemma {:induction false} NoneUnder(adds: seq<Entry>, name: string)
    requires forall i :: 0 <= i < |adds| ==> adds[i].name != name
    ensures LastUnder(adds, name) == None
  {
    if adds != [] { NoneUnder(adds[..|adds| - 1], name); }
  }

  /** Additions under different names may be made in any order. */
  lemma ReorderedAdditions(a: seq<Entry>, b: seq<Entry>, s: seq<Entry>, t: seq<Entry>)
    requires OncePerName(a) && OncePerName(b) && multiset(a) == multiset(b)
    requires IsListing(Added(a), s) && IsListing(Added(b), t)
    ensures s == t
  {
    forall name
      ensures SameUnder(a, b, name)
    {
      if i :| 0 <= i < |a| && a[i].name == name {
        assert a[i] in multiset(b);
        var j :| 0 <= j < |b| && b[j] == a[i];
        OnlyOneUnder(a, i);
        OnlyOneUnder(b, j);
      } else {
        forall j | 0 <= j < |b|
          ensures b[j].name != name
        {
          assert b[j] in multiset(a);
        }
        NoneUnder(a, name);
        NoneUnder(b, name);
      }
    }
    InsertionOrderIsInvisible(a, b, s, t);
  }

  /** A listing determines the entries it lists. */
  lemma ListedEntries(m: map<string, Bytes>, n: map<string, Bytes>, es: seq<Entry>)
    requires IsListing(m, es) && IsListing(n, es)
    ensures m == n
  {
    forall name | name in m
      ensures name in n && m[name] == n[name]
    {
      var i :| 0 <= i < |es| && es[i].name == name;
    }
    forall name | name in n
      ensures name in m
    {
      var i :| 0 <= i < |es| && es[i].name == name;
    }
  }

  /** In `mimetype`-bearing archives the mimetype comes first. */
  lemma MimetypeFirst(entries: map<string, Bytes>, es: seq<Entry>)
    requires IsListing(entries, es) && "mimetype" in entries
    ensures es != [] && es[0].name == "mimetype"
  {
    HeadIsLeast(entries, es, "mimetype");
  }

  function Insert(e: Entry, es: seq<Entry>): seq<Entry> {
    if es == [] || CmpNames(e.name, es[0].name) == Less then [e] + es
    else [es[0]] + Insert(e, es[1..])
  }

  lemma {:induction false} InsertLists(e: Entry, es: seq<Entry>)
    requires Ascending(es) && forall i :: 0 <= i < |es| ==> es[i].name != e.name
    ensures Ascending(Insert(e, es))
    ensures forall x :: x in Insert(e, es) <==> x == e || x in es
  {
    if es != [] {
      CmpNamesStrict(e.name, es[0].name);
      if CmpNames(e.name, es[0].name) == Less {
        forall j | 0 <= j < |es|
          ensures CmpNames(e.name, es[j].name) == Less
        {
          if j > 0 { CmpNamesTransitive(e.name, es[0].name, es[j].name); }
        }
      } else {
        assert es == [es[0]] + es[1..];
        InsertLists(e, es[1..]);
        var r := Insert(e, es[1..]);
        forall j | 0 <= j < |r|
          ensures CmpNames(es[0].name, r[j].name) == Less
        {
          assert r[j] in r;
          if r[j] != e {
            var k :| 0 <= k < |es[1..]| && es[1..][k] == r[j];
            assert es[k + 1] == r[j];
          }
        }
      }
    }
  }

  /** A builder: single-valued per name, ordered only when it is finished. */
  class ArchiveBuilder {
    var entries: map<string, Bytes>

    constructor ()
      ensures entries == map[]
    {
      entries := map[];
    }

    method Add(name: string, data: Bytes)
      modifies this
      ensures entries == old(entries)[name := data]
      ensures forall adds :: old(entries) == Added(adds) ==> entries == Added(adds + [Entry(name, data, true)])
    {
      entries := entries[name := data];
      forall adds | old(entries) == Added(adds)
        ensures entries == Added(adds + [Entry(name, data, true)])
      {
        assert (adds + [Entry(name, data, true)])[..|adds|] == adds;
      }
    }

    method Finish(zip: Zip) returns (r: Checked<Bytes>)
      ensures r.Ok? ==> exists es :: IsListing(entries, es) && zip.write(es) == Some(r.value)
      ensures r.Rejected? ==> r == Rejected(ContainerWrite) && exists es :: IsListing(entries, es) && zip.write(es).None?
    {
      var ordered: seq<Entry> := [];
      var rest := entries.Keys;
      while rest != {}
        invariant rest <= entries.Keys && Ascending(ordered)
        invariant forall e :: e in ordered <==> e.name in entries.Keys - rest && e == Entry(e.name, entries[e.name], true)
      {
        var name :| name in rest;
        InsertLists(Entry(name, entries[name], true), ordered);
        ordered := Insert(Entry(name, entries[name], true), ordered);
        rest := rest - {name};
      }
      ghost var es := ordered;
      forall i | 0 <= i < |es|
        ensures es[i].name in entries && es[i] == Entry(es[i].name, entries[es[i].name], true)
      {
        assert es[i] in es;
      }
      forall name | name in entries
        ensures exists i :: 0 <= i < |es| && es[i].name == name
      {
        assert Entry(name, entries[name], true) in es;
      }
      var written := zip.write(ordered);
      match written {
        case Some(b) => return Ok(b);
        case None => return Rejected(ContainerWrite);
      }
    }
  }
}
