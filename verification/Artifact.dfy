/** Opening and verifying an artifact, with its nested modules (liasse-artifact,
    artifact.rs). */
module Artifact {
  import opened Archive
  import opened Text
  import opened Values

  const MIMETYPE := "application/vnd.liasse+zip"
  const LIASSE_JSON_PATH := "liasse.json"
  const STATE_PATH := "state/current.cbor.zst"
  const HISTORY_INDEX_PATH := "history/index.json"
  const REQUIRED_ENTRIES: seq<string> := ["mimetype", LIASSE_JSON_PATH, STATE_PATH, HISTORY_INDEX_PATH]
  const MAX_MODULE_DEPTH: nat := 64

  type Digest = int
  type Point = int
  type Coverage = int

  datatype EntryRef = EntryRef(path: string, sha256: Digest)
  datatype DefinitionRef = DefinitionRef(identity: Digest, path: string)
  datatype EntryChecksum = EntryChecksum(media: string, sha256: Digest)
  datatype IncludedModule = IncludedModule(artifact: string, sha256: Digest)
  datatype MountRef = MountRef(instance: string, artifact: string, selected: Point)

  datatype Manifest = Manifest(
    instance: string, selected: Point, definition: DefinitionRef, state: EntryRef, history: EntryRef, coverage: Coverage,
    modules: map<string, MountRef>, included: map<string, IncludedModule>, entries: map<string, EntryChecksum>)

  /** The container codec, the manifest codec, text as bytes and back, and the two digests. */
  datatype Codec = Codec(
    zip: Zip,
    parse: Bytes -> Option<Manifest>,
    encode: Manifest -> Bytes,
    text: Bytes -> string,
    bytesOf: string -> Bytes,
    digest: Bytes -> Digest,
    identity: Bytes -> Digest)

  /** Manifests and text come back from their bytes. */
  ghost predicate Faithful(c: Codec) {
    FaithfulZip(c.zip) && (forall m :: ParsesBack(c, m)) && forall s :: DecodesBack(c, s)
  }

  ghost predicate ParsesBack(c: Codec, m: Manifest) { c.parse(c.encode(m)) == Some(m) }

  ghost predicate DecodesBack(c: Codec, s: string) { c.text(c.bytesOf(s)) == s }

  // ---- the single checks -------------------------------------------------

  ghost predicate MimetypeInOrder(c: Codec, es: seq<Entry>) {
    && es != [] && es[0].name == "mimetype" && es[0].stored && Trim(c.text(es[0].data)) == MIMETYPE
  }

  ghost predicate Has(es: seq<Entry>, name: string) { exists i :: 0 <= i < |es| && es[i].name == name }

  function VerifyMimetype(c: Codec, es: seq<Entry>): (r: Checked<()>)
    ensures r.Ok? <==> MimetypeInOrder(c, es)
    ensures r == Rejected(MimetypeMissing) <==> !Has(es, "mimetype")
    ensures r == Rejected(MimetypeNotFirst) <==> Has(es, "mimetype") && es[0].name != "mimetype"
    ensures r == Rejected(MimetypeCompressed) <==> es != [] && es[0].name == "mimetype" && !es[0].stored
  {
    var entry := Get(es, "mimetype");
    if entry.None? then Rejected(MimetypeMissing)
    else if es[0].name != "mimetype" then Rejected(MimetypeNotFirst)
    else if !entry.value.stored then Rejected(MimetypeCompressed)
    else if Trim(c.text(entry.value.data)) == MIMETYPE then Ok(())
    else Rejected(MimetypeContent)
  }

  ghost predicate RolesCanonical(m: Manifest) {
    m.definition.path == LIASSE_JSON_PATH && m.state.path == STATE_PATH && m.history.path == HISTORY_INDEX_PATH
  }

  function VerifyRolePaths(m: Manifest): (r: Checked<()>)
    ensures r.Ok? <==> RolesCanonical(m)
  {
    if m.definition.path != LIASSE_JSON_PATH then Rejected(NonCanonicalRolePath(m.definition.path))
    else if m.state.path != STATE_PATH then Rejected(NonCanonicalRolePath(m.state.path))
    else if m.history.path != HISTORY_INDEX_PATH then Rejected(NonCanonicalRolePath(m.history.path))
    else Ok(())
  }

  predicate Forbidden(path: string) { path == "manifest.json" || StartsWith(path, "modules/") }

  ghost predicate Membership(m: Manifest) {
    && (forall i :: 0 <= i < |REQUIRED_ENTRIES| ==> REQUIRED_ENTRIES[i] in m.entries)
    && forall path :: path in m.entries ==> !Forbidden(path)
  }

  // ---- the first of several faults ---------------------------------------

  /** The maps and sets are walked in text order. */
  ghost predicate IsLeast(name: string, names: set<string>) {
    name in names && forall q :: q in names && q != name ==> CmpText(name, q) == Less
  }

  lemma LeastIsUnique(a: string, b: string, names: set<string>)
    requires IsLeast(a, names) && IsLeast(b, names)
    ensures a == b
  {
    TextStrict(a, b);
  }

  lemma {:induction false} HasLeast(names: set<string>)
    requires names != {}
    ensures exists name :: IsLeast(name, names)
    decreases |names|
  {
    var some :| some in names;
    var others := names - {some};
    assert names == others + {some};
    if others == {} {
      assert IsLeast(some, names);
    } else {
      HasLeast(others);
      var least :| IsLeast(least, others);
      TextStrict(some, least);
      if CmpText(least, some) == Less {
        assert IsLeast(least, names);
      } else {
        forall q | q in names && q != some
          ensures CmpText(some, q) == Less
        {
          if q != least { TextTransitive(some, least, q); }
        }
        assert IsLeast(some, names);
      }
    }
  }

  method Least(names: set<string>) returns (name: string)
    requires names != {}
    ensures IsLeast(name, names)
  {
    HasLeast(names);
    name :| name in names && forall q :: q in names ==> q == name || CmpText(name, q) == Less;
  }

  // ---- membership and checksums ------------------------------------------

  ghost function ForbiddenIn(m: Manifest): set<string> { set path | path in m.entries && Forbidden(path) }

  /** The first required entry that is missing, else the first forbidden one. */
  ghost predicate MembershipFault(m: Manifest, error: ArtifactError) {
    || (exists i :: 0 <= i < |REQUIRED_ENTRIES| && FirstMissing(m, i) && error == EntriesMissingRequired(REQUIRED_ENTRIES[i]))
    || ((forall i :: 0 <= i < |REQUIRED_ENTRIES| ==> REQUIRED_ENTRIES[i] in m.entries)
        && exists path :: IsLeast(path, ForbiddenIn(m)) && error == EntriesForbiddenMember(path))
  }

  ghost predicate FirstMissing(m: Manifest, i: nat)
    requires i < |REQUIRED_ENTRIES|
  {
    REQUIRED_ENTRIES[i] !in m.entries && forall j :: 0 <= j < i ==> REQUIRED_ENTRIES[j] in m.entries
  }

  method VerifyMembership(m: Manifest) returns (r: Checked<()>)
    ensures r.Ok? <==> Membership(m)
    ensures r.Rejected? ==> MembershipFault(m, r.error)
  {
    for i := 0 to |REQUIRED_ENTRIES|
      invariant forall j :: 0 <= j < i ==> REQUIRED_ENTRIES[j] in m.entries
    {
      if REQUIRED_ENTRIES[i] !in m.entries {
        assert FirstMissing(m, i);
        return Rejected(EntriesMissingRequired(REQUIRED_ENTRIES[i]));
      }
    }
    var rest := m.entries.Keys;
    while rest != {}
      invariant rest <= m.entries.Keys && ForbiddenIn(m) <= rest
    {
      var path := Least(rest);
      if Forbidden(path) {
        assert IsLeast(path, ForbiddenIn(m));
        return Rejected(EntriesForbiddenMember(path));
      }
      rest := rest - {path};
    }
    assert forall path :: path in m.entries && Forbidden(path) ==> path in ForbiddenIn(m);
    return Ok(());
  }

  ghost predicate Matches(c: Codec, es: seq<Entry>, path: string, expected: Digest) {
    Get(es, path).Some? && c.digest(Get(es, path).value.data) == expected
  }

  function VerifyNamedEntry(c: Codec, es: seq<Entry>, path: string, expected: Digest): (r: Checked<()>)
    ensures r.Ok? <==> Matches(c, es, path, expected)
    ensures r.Rejected? ==> r.error == NamedFault(es, path)
  {
    match Get(es, path)
    case None => Rejected(MissingEntry(path))
    case Some(entry) => if c.digest(entry.data) == expected then Ok(()) else Rejected(ChecksumMismatch(path))
  }

  ghost predicate EntriesMatch(c: Codec, es: seq<Entry>, m: Manifest) {
    forall path :: path in m.entries ==> Matches(c, es, path, m.entries[path].sha256)
  }

  function NamedFault(es: seq<Entry>, path: string): ArtifactError {
    if Get(es, path).None? then MissingEntry(path) else ChecksumMismatch(path)
  }

  ghost function Mismatched(c: Codec, es: seq<Entry>, m: Manifest): set<string> {
    set path | path in m.entries && !Matches(c, es, path, m.entries[path].sha256)
  }

  /** The first covered entry that is missing or differs. */
  ghost predicate EntriesFault(c: Codec, es: seq<Entry>, m: Manifest, error: ArtifactError) {
    exists path :: IsLeast(path, Mismatched(c, es, m)) && error == NamedFault(es, path)
  }

  method VerifyEntryChecksums(c: Codec, es: seq<Entry>, m: Manifest) returns (r: Checked<()>)
    ensures r.Ok? <==> EntriesMatch(c, es, m)
    ensures r.Rejected? ==> EntriesFault(c, es, m, r.error)
  {
    var rest := m.entries.Keys;
    while rest != {}
      invariant rest <= m.entries.Keys && Mismatched(c, es, m) <= rest
    {
      var path := Least(rest);
      r := VerifyNamedEntry(c, es, path, m.entries[path].sha256);
      if r.Rejected? {
        assert IsLeast(path, Mismatched(c, es, m));
        return;
      }
      rest := rest - {path};
    }
    assert forall path :: path in m.entries && !Matches(c, es, path, m.entries[path].sha256) ==> path in Mismatched(c, es, m);
    return Ok(());
  }

  // ---- the whole verification --------------------------------------------

  function ChildPaths(m: Manifest): set<string> {
    (set k | k in m.included :: m.included[k].artifact) + (set k | k in m.modules :: m.modules[k].artifact)
  }

  ghost predicate HasManifest(c: Codec, es: seq<Entry>, m: Manifest) {
    Get(es, "manifest.json").Some? && c.parse(Get(es, "manifest.json").value.data) == Some(m)
  }

  /** Everything but the nested artifacts. */
  ghost predicate Consistent(c: Codec, es: seq<Entry>, m: Manifest) {
    && MimetypeInOrder(c, es) && HasManifest(c, es, m) && RolesCanonical(m) && Membership(m) && EntriesMatch(c, es, m)
    && Matches(c, es, m.state.path, m.state.sha256) && Matches(c, es, m.history.path, m.history.sha256)
    && Get(es, m.definition.path).Some? && IncludedMatch(c, es, m) && MountsPresent(es, m)
    && c.identity(Get(es, m.definition.path).value.data) == m.definition.identity
  }

  /** What it is to be a verified artifact at this nesting depth. */
  ghost predicate Verified(c: Codec, b: Bytes, depth: nat)
    decreases MAX_MODULE_DEPTH + 1 - depth, 2
  {
    && depth <= MAX_MODULE_DEPTH
    && Contents(c.zip, b).Some?
    && exists m :: Consistent(c, Contents(c.zip, b).value, m) && ChildrenVerified(c, Contents(c.zip, b).value, ChildPaths(m), depth)
  }

  ghost predicate VerifiedChild(c: Codec, es: seq<Entry>, path: string, depth: nat)
    requires depth <= MAX_MODULE_DEPTH
    decreases MAX_MODULE_DEPTH + 1 - depth, 0
  {
    Get(es, path).Some? && Verified(c, Get(es, path).value.data, depth + 1)
  }

  /** With its one manifest in hand, verification is consistency and verified children. */
  lemma VerifiedIs(c: Codec, b: Bytes, es: seq<Entry>, m: Manifest, depth: nat)
    requires Contents(c.zip, b) == Some(es) && Consistent(c, es, m)
    ensures Verified(c, b, depth) <==> depth <= MAX_MODULE_DEPTH && ChildrenVerified(c, es, ChildPaths(m), depth)
  {
  }

  datatype Opened = Opened(entries: seq<Entry>, manifest: Manifest)

  method Open(c: Codec, b: Bytes) returns (r: Checked<Opened>)
    ensures r.Ok? <==> Verified(c, b, 0)
    ensures r.Rejected? ==> Reports(c, b, 0, r.error)
    ensures r.Ok? ==> Contents(c.zip, b) == Some(r.value.entries) && Consistent(c, r.value.entries, r.value.manifest)
  {
    r := OpenWithin(c, b, 0);
  }

  /** What is reported about bytes that are no verified artifact: the checks come in one
      order, and each reports the first fault it meets. */
  ghost predicate Reports(c: Codec, b: Bytes, depth: nat, error: ArtifactError)
    decreases MAX_MODULE_DEPTH + 1 - depth, 3, 0
  {
    if depth > MAX_MODULE_DEPTH then error == ModuleNestingTooDeep
    else
      match Contents(c.zip, b)
      case None => ReadFault(c.zip, b, error)
      case Some(es) =>
        if !MimetypeInOrder(c, es) then Rejected(error) == VerifyMimetype(c, es)
        else
          match Get(es, "manifest.json")
          case None => error == ManifestMissing
          case Some(entry) =>
            match c.parse(entry.data)
            case None => error == ManifestMalformed
            case Some(m) => ManifestFault(c, es, m, depth, error)
  }

  ghost predicate ManifestFault(c: Codec, es: seq<Entry>, m: Manifest, depth: nat, error: ArtifactError)
    requires depth <= MAX_MODULE_DEPTH
    decreases MAX_MODULE_DEPTH + 1 - depth, 2, 0
  {
    if !LeavesInOrder(c, es, m) then LeavesFault(c, es, m, error)
    else if !ModulesInOrder(c, es, m, depth) then ModulesFault(c, es, m, depth, error)
    else c.identity(Get(es, m.definition.path).value.data) != m.definition.identity && error == DefinitionIdentityMismatch
  }

  ghost predicate LeavesFault(c: Codec, es: seq<Entry>, m: Manifest, error: ArtifactError) {
    if !RolesCanonical(m) then Rejected(error) == VerifyRolePaths(m)
    else if !Membership(m) then MembershipFault(m, error)
    else if !EntriesMatch(c, es, m) then EntriesFault(c, es, m, error)
    else if !Matches(c, es, m.state.path, m.state.sha256) then error == NamedFault(es, m.state.path)
    else if !Matches(c, es, m.history.path, m.history.sha256) then error == NamedFault(es, m.history.path)
    else error == MissingEntry(m.definition.path)
  }

  ghost predicate ModulesInOrder(c: Codec, es: seq<Entry>, m: Manifest, depth: nat)
    requires depth <= MAX_MODULE_DEPTH
    decreases MAX_MODULE_DEPTH + 1 - depth, 1
  {
    IncludedMatch(c, es, m) && MountsPresent(es, m) && ChildrenVerified(c, es, ChildPaths(m), depth)
  }

  ghost function MismatchedIncluded(c: Codec, es: seq<Entry>, m: Manifest): set<string> {
    set k | k in m.included && !Matches(c, es, m.included[k].artifact, m.included[k].sha256)
  }

  ghost function AbsentMounts(es: seq<Entry>, m: Manifest): set<string> {
    set k | k in m.modules && Get(es, m.modules[k].artifact).None?
  }

  ghost function Unverified(c: Codec, es: seq<Entry>, m: Manifest, depth: nat): set<string>
    requires depth <= MAX_MODULE_DEPTH
    decreases MAX_MODULE_DEPTH + 1 - depth, 1
  {
    set path | path in ChildPaths(m) && !VerifiedChild(c, es, path, depth)
  }

  ghost predicate IncludedFault(c: Codec, es: seq<Entry>, m: Manifest, error: ArtifactError) {
    exists k :: IsLeast(k, MismatchedIncluded(c, es, m)) && error == NamedFault(es, m.included[k].artifact)
  }

  ghost predicate MountsFault(es: seq<Entry>, m: Manifest, error: ArtifactError) {
    exists k :: IsLeast(k, AbsentMounts(es, m)) && error == MissingEntry(m.modules[k].artifact)
  }

  /** Inventory, then mounts, then the nested artifacts, each in order. */
  ghost predicate ModulesFault(c: Codec, es: seq<Entry>, m: Manifest, depth: nat, error: ArtifactError)
    requires depth <= MAX_MODULE_DEPTH
    decreases MAX_MODULE_DEPTH + 1 - depth, 1
  {
    if !IncludedMatch(c, es, m) then IncludedFault(c, es, m, error)
    else if !MountsPresent(es, m) then MountsFault(es, m, error)
    else ChildrenFault(c, es, m, depth, error)
  }

  ghost predicate ChildrenFault(c: Codec, es: seq<Entry>, m: Manifest, depth: nat, error: ArtifactError)
    requires depth <= MAX_MODULE_DEPTH
    decreases MAX_MODULE_DEPTH + 1 - depth, 1, 0
  {
    exists path :: IsLeast(path, Unverified(c, es, m, depth)) && ChildFault(c, es, path, depth, error)
  }

  ghost predicate ChildFault(c: Codec, es: seq<Entry>, path: string, depth: nat, error: ArtifactError)
    requires depth <= MAX_MODULE_DEPTH
    decreases MAX_MODULE_DEPTH + 1 - depth, 0
  {
    Get(es, path).Some? && Reports(c, Get(es, path).value.data, depth + 1, error)
  }

  /** One artifact is refused for one reason, however deep it lies. */
  lemma {:induction false} ReportIsUnique(c: Codec, b: Bytes, depth: nat, e1: ArtifactError, e2: ArtifactError)
    requires Reports(c, b, depth, e1) && Reports(c, b, depth, e2)
    ensures e1 == e2
    decreases MAX_MODULE_DEPTH + 1 - depth, 2
  {
    if depth <= MAX_MODULE_DEPTH {
      if Contents(c.zip, b).None? {
        ReadFaultIsUnique(c.zip, b, e1, e2);
      } else {
        var es := Contents(c.zip, b).value;
        if MimetypeInOrder(c, es) && Get(es, "manifest.json").Some? {
          var parsed := c.parse(Get(es, "manifest.json").value.data);
          if parsed.Some? { ManifestFaultIsUnique(c, es, parsed.value, depth, e1, e2); }
        }
      }
    }
  }

  lemma {:induction false} ManifestFaultIsUnique(c: Codec, es: seq<Entry>, m: Manifest, depth: nat, e1: ArtifactError, e2: ArtifactError)
    requires depth <= MAX_MODULE_DEPTH && ManifestFault(c, es, m, depth, e1) && ManifestFault(c, es, m, depth, e2)
    ensures e1 == e2
    decreases MAX_MODULE_DEPTH + 1 - depth, 1
  {
    if !LeavesInOrder(c, es, m) {
      LeavesFaultIsUnique(c, es, m, e1, e2);
    } else if !ModulesInOrder(c, es, m, depth) {
      ModulesFaultIsUnique(c, es, m, depth, e1, e2);
    }
  }

  lemma LeavesFaultIsUnique(c: Codec, es: seq<Entry>, m: Manifest, e1: ArtifactError, e2: ArtifactError)
    requires LeavesFault(c, es, m, e1) && LeavesFault(c, es, m, e2)
    ensures e1 == e2
  {
    if RolesCanonical(m) && !Membership(m) {
      MembershipFaultIsUnique(m, e1, e2);
    } else if RolesCanonical(m) && !EntriesMatch(c, es, m) {
      EntriesFaultIsUnique(c, es, m, e1, e2);
    }
  }

  lemma EntriesFaultIsUnique(c: Codec, es: seq<Entry>, m: Manifest, e1: ArtifactError, e2: ArtifactError)
    requires EntriesFault(c, es, m, e1) && EntriesFault(c, es, m, e2)
    ensures e1 == e2
  {
    var p1 :| IsLeast(p1, Mismatched(c, es, m)) && e1 == NamedFault(es, p1);
    var p2 :| IsLeast(p2, Mismatched(c, es, m)) && e2 == NamedFault(es, p2);
    LeastIsUnique(p1, p2, Mismatched(c, es, m));
  }

  lemma MembershipFaultIsUnique(m: Manifest, e1: ArtifactError, e2: ArtifactError)
    requires MembershipFault(m, e1) && MembershipFault(m, e2)
    ensures e1 == e2
  {
    if forall i :: 0 <= i < |REQUIRED_ENTRIES| ==> REQUIRED_ENTRIES[i] in m.entries {
      var p1 :| IsLeast(p1, ForbiddenIn(m)) && e1 == EntriesForbiddenMember(p1);
      var p2 :| IsLeast(p2, ForbiddenIn(m)) && e2 == EntriesForbiddenMember(p2);
      LeastIsUnique(p1, p2, ForbiddenIn(m));
    } else {
      var i :| 0 <= i < |REQUIRED_ENTRIES| && FirstMissing(m, i) && e1 == EntriesMissingRequired(REQUIRED_ENTRIES[i]);
      var j :| 0 <= j < |REQUIRED_ENTRIES| && FirstMissing(m, j) && e2 == EntriesMissingRequired(REQUIRED_ENTRIES[j]);
      assert i == j;
    }
  }

  lemma {:induction false} ModulesFaultIsUnique(c: Codec, es: seq<Entry>, m: Manifest, depth: nat, e1: ArtifactError, e2: ArtifactError)
    requires depth <= MAX_MODULE_DEPTH && ModulesFault(c, es, m, depth, e1) && ModulesFault(c, es, m, depth, e2)
    ensures e1 == e2
    decreases MAX_MODULE_DEPTH + 1 - depth, 0, 1
  {
    if !IncludedMatch(c, es, m) {
      IncludedFaultIsUnique(c, es, m, e1, e2);
    } else if !MountsPresent(es, m) {
      MountsFaultIsUnique(es, m, e1, e2);
    } else {
      ChildrenFaultIsUnique(c, es, m, depth, e1, e2);
    }
  }

  lemma {:induction false} ChildrenFaultIsUnique(c: Codec, es: seq<Entry>, m: Manifest, depth: nat, e1: ArtifactError, e2: ArtifactError)
    requires depth <= MAX_MODULE_DEPTH && ChildrenFault(c, es, m, depth, e1) && ChildrenFault(c, es, m, depth, e2)
    ensures e1 == e2
    decreases MAX_MODULE_DEPTH + 1 - depth, 0, 0
  {
    var p1 :| IsLeast(p1, Unverified(c, es, m, depth)) && ChildFault(c, es, p1, depth, e1);
    var p2 :| IsLeast(p2, Unverified(c, es, m, depth)) && ChildFault(c, es, p2, depth, e2);
    LeastIsUnique(p1, p2, Unverified(c, es, m, depth));
    ReportIsUnique(c, Get(es, p1).value.data, depth + 1, e1, e2);
  }

  lemma IncludedFaultIsUnique(c: Codec, es: seq<Entry>, m: Manifest, e1: ArtifactError, e2: ArtifactError)
    requires IncludedFault(c, es, m, e1) && IncludedFault(c, es, m, e2)
    ensures e1 == e2
  {
    var k1 :| IsLeast(k1, MismatchedIncluded(c, es, m)) && e1 == NamedFault(es, m.included[k1].artifact);
    var k2 :| IsLeast(k2, MismatchedIncluded(c, es, m)) && e2 == NamedFault(es, m.included[k2].artifact);
    LeastIsUnique(k1, k2, MismatchedIncluded(c, es, m));
  }

  lemma MountsFaultIsUnique(es: seq<Entry>, m: Manifest, e1: ArtifactError, e2: ArtifactError)
    requires MountsFault(es, m, e1) && MountsFault(es, m, e2)
    ensures e1 == e2
  {
    var k1 :| IsLeast(k1, AbsentMounts(es, m)) && e1 == MissingEntry(m.modules[k1].artifact);
    var k2 :| IsLeast(k2, AbsentMounts(es, m)) && e2 == MissingEntry(m.modules[k2].artifact);
    LeastIsUnique(k1, k2, AbsentMounts(es, m));
  }

  /** Accepts exactly the verified artifacts, and reports the one fault of any other. */
  method OpenWithin(c: Codec, b: Bytes, depth: nat) returns (r: Checked<Opened>)
    ensures r.Ok? <==> Verified(c, b, depth)
    ensures r.Ok? ==> Contents(c.zip, b) == Some(r.value.entries) && Consistent(c, r.value.entries, r.value.manifest)
    ensures r.Rejected? ==> Reports(c, b, depth, r.error)
    decreases MAX_MODULE_DEPTH + 1 - depth, 2
  {
    if depth > MAX_MODULE_DEPTH {
      return Rejected(ModuleNestingTooDeep);
    }
    var archive := Read(c.zip, b);
    if archive.Rejected? {
      return Rejected(archive.error);
    }
    var es := archive.value;
    var mimetype := VerifyMimetype(c, es);
    if mimetype.Rejected? {
      return Rejected(mimetype.error);
    }
    var entry := Get(es, "manifest.json");
    if entry.None? {
      return Rejected(ManifestMissing);
    }
    var parsed := c.parse(entry.value.data);
    if parsed.None? {
      return Rejected(ManifestMalformed);
    }
    var m := parsed.value;
    var checked := VerifyLeaves(c, es, m);
    if checked.Ok? {
      checked := VerifyModules(c, es, m, depth);
    }
    if checked.Rejected? {
      return Rejected(checked.error);
    }
    assert Verified(c, b, depth) <==> Consistent(c, es, m) && ChildrenVerified(c, es, ChildPaths(m), depth);
    if c.identity(Get(es, m.definition.path).value.data) != m.definition.identity {
      return Rejected(DefinitionIdentityMismatch);
    }
    return Ok(Opened(es, m));
  }

  ghost predicate LeavesInOrder(c: Codec, es: seq<Entry>, m: Manifest) {
    && RolesCanonical(m) && Membership(m) && EntriesMatch(c, es, m)
    && Matches(c, es, m.state.path, m.state.sha256) && Matches(c, es, m.history.path, m.history.sha256)
    && Get(es, m.definition.path).Some?
  }

  method VerifyLeaves(c: Codec, es: seq<Entry>, m: Manifest) returns (r: Checked<()>)
    ensures r.Ok? <==> LeavesInOrder(c, es, m)
    ensures r.Rejected? ==> LeavesFault(c, es, m, r.error)
  {
    r := VerifyRolePaths(m);
    if r.Rejected? {
      return;
    }
    r := VerifyMembership(m);
    if r.Rejected? {
      return;
    }
    r := VerifyEntryChecksums(c, es, m);
    if r.Rejected? {
      return;
    }
    r := VerifyNamedEntry(c, es, m.state.path, m.state.sha256);
    if r.Rejected? {
      return;
    }
    r := VerifyNamedEntry(c, es, m.history.path, m.history.sha256);
    if r.Rejected? {
      return;
    }
    if Get(es, m.definition.path).None? {
      r := Rejected(MissingEntry(m.definition.path));
    }
  }

  ghost predicate IncludedMatch(c: Codec, es: seq<Entry>, m: Manifest) {
    forall k :: k in m.included ==> Matches(c, es, m.included[k].artifact, m.included[k].sha256)
  }

  ghost predicate MountsPresent(es: seq<Entry>, m: Manifest) {
    forall k :: k in m.modules ==> Get(es, m.modules[k].artifact).Some?
  }

  method VerifyIncluded(c: Codec, es: seq<Entry>, m: Manifest) returns (r: Checked<()>, paths: set<string>)
    ensures r.Ok? <==> IncludedMatch(c, es, m)
    ensures r.Rejected? ==> IncludedFault(c, es, m, r.error)
    ensures r.Ok? ==> paths == set k | k in m.included :: m.included[k].artifact
  {
    paths := {};
    var rest := m.included.Keys;
    while rest != {}
      invariant rest <= m.included.Keys && MismatchedIncluded(c, es, m) <= rest
      invariant paths == set k | k in m.included && k !in rest :: m.included[k].artifact
    {
      var k := Least(rest);
      r := VerifyNamedEntry(c, es, m.included[k].artifact, m.included[k].sha256);
      if r.Rejected? {
        assert IsLeast(k, MismatchedIncluded(c, es, m));
        return;
      }
      paths := paths + {m.included[k].artifact};
      rest := rest - {k};
    }
    assert forall k :: k in m.included && !Matches(c, es, m.included[k].artifact, m.included[k].sha256) ==>
      k in MismatchedIncluded(c, es, m);
    r := Ok(());
  }

  method VerifyMounts(es: seq<Entry>, m: Manifest) returns (r: Checked<()>, paths: set<string>)
    ensures r.Ok? <==> MountsPresent(es, m)
    ensures r.Rejected? ==> MountsFault(es, m, r.error)
    ensures r.Ok? ==> paths == set k | k in m.modules :: m.modules[k].artifact
  {
    paths := {};
    var rest := m.modules.Keys;
    while rest != {}
      invariant rest <= m.modules.Keys && AbsentMounts(es, m) <= rest
      invariant paths == set k | k in m.modules && k !in rest :: m.modules[k].artifact
    {
      var k := Least(rest);
      if Get(es, m.modules[k].artifact).None? {
        assert IsLeast(k, AbsentMounts(es, m));
        return Rejected(MissingEntry(m.modules[k].artifact)), paths;
      }
      paths := paths + {m.modules[k].artifact};
      rest := rest - {k};
    }
    assert forall k :: k in m.modules && Get(es, m.modules[k].artifact).None? ==> k in AbsentMounts(es, m);
    r := Ok(());
  }

  ghost predicate ChildrenVerified(c: Codec, es: seq<Entry>, paths: set<string>, depth: nat)
    requires depth <= MAX_MODULE_DEPTH
    decreases MAX_MODULE_DEPTH + 1 - depth, 1
  {
    forall path :: path in paths ==> VerifiedChild(c, es, path, depth)
  }

  lemma ChildrenPresent(c: Codec, es: seq<Entry>, m: Manifest)
    requires IncludedMatch(c, es, m) && MountsPresent(es, m)
    ensures forall path :: path in ChildPaths(m) ==> Get(es, path).Some?
  {
  }

  /** What is not verified is still to come. */
  ghost predicate OnlyIn(c: Codec, es: seq<Entry>, m: Manifest, depth: nat, rest: set<string>)
    requires depth <= MAX_MODULE_DEPTH
  {
    Unverified(c, es, m, depth) <= rest
  }

  lemma OneVerified(c: Codec, es: seq<Entry>, m: Manifest, depth: nat, rest: set<string>, path: string)
    requires depth <= MAX_MODULE_DEPTH && OnlyIn(c, es, m, depth, rest)
    requires VerifiedChild(c, es, path, depth)
    ensures OnlyIn(c, es, m, depth, rest - {path})
  {
  }

  lemma FirstUnverified(c: Codec, es: seq<Entry>, m: Manifest, depth: nat, rest: set<string>, path: string, error: ArtifactError)
    requires depth <= MAX_MODULE_DEPTH && OnlyIn(c, es, m, depth, rest) && IsLeast(path, rest) && path in ChildPaths(m)
    requires !VerifiedChild(c, es, path, depth) && ChildFault(c, es, path, depth, error)
    ensures ChildrenFault(c, es, m, depth, error) && !ChildrenVerified(c, es, ChildPaths(m), depth)
  {
    assert path in Unverified(c, es, m, depth);
    assert IsLeast(path, Unverified(c, es, m, depth));
  }

  lemma NoneUnverified(c: Codec, es: seq<Entry>, m: Manifest, depth: nat)
    requires depth <= MAX_MODULE_DEPTH
    ensures Unverified(c, es, m, depth) == {} <==> ChildrenVerified(c, es, ChildPaths(m), depth)
  {
    if ChildrenVerified(c, es, ChildPaths(m), depth) {
      assert forall path :: path in ChildPaths(m) ==> VerifiedChild(c, es, path, depth);
    } else {
      var path :| path in ChildPaths(m) && !VerifiedChild(c, es, path, depth);
      assert path in Unverified(c, es, m, depth);
    }
  }

  /** The inventoried and mounted modules are there, and each opens one level deeper. */
  method VerifyModules(c: Codec, es: seq<Entry>, m: Manifest, depth: nat) returns (r: Checked<()>)
    requires depth <= MAX_MODULE_DEPTH
    ensures r.Ok? <==> ModulesInOrder(c, es, m, depth)
    ensures r.Rejected? ==> ModulesFault(c, es, m, depth, r.error)
    decreases MAX_MODULE_DEPTH + 1 - depth, 1
  {
    var included;
    r, included := VerifyIncluded(c, es, m);
    if r.Rejected? {
      return;
    }
    var mounted;
    r, mounted := VerifyMounts(es, m);
    if r.Rejected? {
      return;
    }
    r := VerifyChildren(c, es, m, included + mounted, depth);
  }

  /** Each nested artifact opens one level deeper, in path order. */
  method VerifyChildren(c: Codec, es: seq<Entry>, m: Manifest, paths: set<string>, depth: nat) returns (r: Checked<()>)
    requires depth <= MAX_MODULE_DEPTH && IncludedMatch(c, es, m) && MountsPresent(es, m) && paths == ChildPaths(m)
    ensures r.Ok? <==> ChildrenVerified(c, es, paths, depth)
    ensures r.Rejected? ==> ChildrenFault(c, es, m, depth, r.error)
    decreases MAX_MODULE_DEPTH + 1 - depth, 0, 1
  {
    ChildrenPresent(c, es, m);
    var rest := paths;
    while rest != {}
      invariant rest <= paths && OnlyIn(c, es, m, depth, rest)
    {
      var path := Least(rest);
      r := VerifyChild(c, es, path, depth);
      if r.Rejected? {
        FirstUnverified(c, es, m, depth, rest, path, r.error);
        return;
      }
      OneVerified(c, es, m, depth, rest, path);
      rest := rest - {path};
    }
    NoneUnverified(c, es, m, depth);
    r := Ok(());
  }

  method VerifyChild(c: Codec, es: seq<Entry>, path: string, depth: nat) returns (r: Checked<()>)
    requires depth <= MAX_MODULE_DEPTH && Get(es, path).Some?
    ensures r.Ok? <==> VerifiedChild(c, es, path, depth)
    ensures r.Rejected? ==> ChildFault(c, es, path, depth, r.error)
    decreases MAX_MODULE_DEPTH + 1 - depth, 0, 0
  {
    var nested := OpenWithin(c, Get(es, path).value.data, depth + 1);
    r := if nested.Ok? then Ok(()) else Rejected(nested.error);
  }
}
