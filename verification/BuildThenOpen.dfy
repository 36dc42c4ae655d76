/** What was built opens: the round trip of build.rs and artifact.rs. */
module BuildThenOpen {
  import opened Archive
  import opened Artifact
  import opened Build
  import opened Text
  import opened Values

  // ---- reading a listing back --------------------------------------------

  lemma ListingGet(files: map<string, Bytes>, es: seq<Entry>, name: string)
    requires IsListing(files, es)
    ensures Get(es, name) == if name in files then Some(Entry(name, files[name], true)) else None
  {
    assert forall i :: 0 <= i < |es| ==> es[i].name in files && es[i] == Entry(es[i].name, files[es[i].name], true);
    if name in files {
      var i :| 0 <= i < |es| && es[i].name == name;
      assert Get(es, name).Some?;
    }
  }

  lemma {:induction false} NoMarkers(es: seq<Entry>)
    requires forall i :: 0 <= i < |es| ==> !IsMarker(es[i].name)
    ensures ContentEntries(Wholes(es)) == es
  {
    if es != [] {
      NoMarkers(es[..|es| - 1]);
      assert Wholes(es)[..|es| - 1] == Wholes(es[..|es| - 1]);
      assert es == es[..|es| - 1] + [es[|es| - 1]];
    }
  }

  lemma ListingIsAcceptable(files: map<string, Bytes>, es: seq<Entry>)
    requires IsListing(files, es) && forall name :: name in files ==> SafeName(name)
    ensures Acceptable(NamesOf(es))
  {
    var names := NamesOf(es);
    forall i | 0 <= i < |names|
      ensures !Escapes(names[i])
    {
      assert es[i].name in files;
      EscapesExactly(names[i]);
    }
    forall i, j | 0 <= i < j < |names|
      ensures names[i] != names[j]
    {
      CmpNamesStrict(es[i].name, es[j].name);
    }
  }

  lemma ListingIsContents(zip: Zip, files: map<string, Bytes>, es: seq<Entry>, b: Bytes)
    requires FaithfulZip(zip) && IsListing(files, es) && zip.write(es) == Some(b)
    requires forall name :: name in files ==> SafeName(name)
    ensures Contents(zip, b) == Some(es)
  {
    assert ReadsBack(zip, es);
    ListingIsAcceptable(files, es);
    forall i | 0 <= i < |es|
      ensures !IsMarker(es[i].name) && zip.enclosed(es[i].name)
    {
      EscapesExactly(es[i].name);
      assert es[i].name in files && Encloses(zip, es[i].name);
    }
    NoMarkers(es);
  }

  // ---- what the archive of some parts holds ------------------------------

  /** The bytes of each incarnation's artifact: the last added. */
  function ChildBytes(children: seq<Child>): map<string, Bytes> {
    if children == [] then map[]
    else
      var last := children[|children| - 1];
      ChildBytes(children[..|children| - 1])[last.incarnation := last.bytes]
  }

  lemma {:induction false} SectionsKeep(base: map<string, Bytes>, sections: seq<Section>, name: string)
    requires forall i :: 0 <= i < |sections| ==> sections[i].path != name
    ensures name in SectionFiles(base, sections) <==> name in base
    ensures name in base ==> SectionFiles(base, sections)[name] == base[name]
  {
    if sections != [] {
      assert sections[|sections| - 1].path != name;
      SectionsKeep(base, sections[..|sections| - 1], name);
    }
  }

  lemma {:induction false} SectionsAreSafe(base: map<string, Bytes>, sections: seq<Section>)
    requires forall name :: name in base ==> SafeName(name)
    requires forall i :: 0 <= i < |sections| ==> SafeSection(sections[i].path)
    ensures forall name :: name in SectionFiles(base, sections) ==> SafeName(name)
  {
    if sections != [] { SectionsAreSafe(base, sections[..|sections| - 1]); }
  }

  lemma {:induction false} ChildrenKeep(base: map<string, Bytes>, children: seq<Child>, name: string)
    requires !StartsWith(name, "modules/")
    ensures name in ChildFiles(base, children) <==> name in base
    ensures name in base ==> ChildFiles(base, children)[name] == base[name]
  {
    if children != [] {
      var inc := children[|children| - 1].incarnation;
      ArtifactPathsDiffer(inc, inc);
      ChildrenKeep(base, children[..|children| - 1], name);
    }
  }

  lemma {:induction false} ChildrenAreSafe(base: map<string, Bytes>, children: seq<Child>)
    requires forall name :: name in base ==> SafeName(name)
    requires forall i :: 0 <= i < |children| ==> SafeIncarnation(children[i].incarnation)
    ensures forall name :: name in ChildFiles(base, children) ==> SafeName(name)
  {
    if children != [] { ChildrenAreSafe(base, children[..|children| - 1]); }
  }

  lemma {:induction false} ChildrenAreFiled(base: map<string, Bytes>, children: seq<Child>, inc: string)
    requires inc in ChildBytes(children)
    ensures ArtifactPath(inc) in ChildFiles(base, children) && ChildFiles(base, children)[ArtifactPath(inc)] == ChildBytes(children)[inc]
  {
    var last := children[|children| - 1];
    ArtifactPathsDiffer(inc, last.incarnation);
    if inc != last.incarnation { ChildrenAreFiled(base, children[..|children| - 1], inc); }
  }

  /** The fixed names are five different ones. */
  lemma NamesDiffer()
    ensures "mimetype" != "manifest.json" && "mimetype" != LIASSE_JSON_PATH && "mimetype" != STATE_PATH && "mimetype" != HISTORY_INDEX_PATH
    ensures "manifest.json" != LIASSE_JSON_PATH && "manifest.json" != STATE_PATH && "manifest.json" != HISTORY_INDEX_PATH
    ensures LIASSE_JSON_PATH != STATE_PATH && LIASSE_JSON_PATH != HISTORY_INDEX_PATH && STATE_PATH != HISTORY_INDEX_PATH
  {
    assert |"mimetype"| == 8 && |"manifest.json"| == 13 && |LIASSE_JSON_PATH| == 11 && |STATE_PATH| == 22 && |HISTORY_INDEX_PATH| == 18;
  }

  lemma FiveKeys<T>(n1: string, v1: T, n2: string, v2: T, n3: string, v3: T, n4: string, v4: T, n5: string, v5: T)
    requires n1 != n2 && n1 != n3 && n1 != n4 && n1 != n5 && n2 != n3 && n2 != n4 && n2 != n5 && n3 != n4 && n3 != n5 && n4 != n5
    ensures var m := map[n1 := v1][n2 := v2][n3 := v3][n4 := v4][n5 := v5];
      m.Keys == {n1, n2, n3, n4, n5} && m[n1] == v1 && m[n2] == v2 && m[n3] == v3 && m[n4] == v4 && m[n5] == v5
  {
  }

  lemma LeafFilesAre(c: Codec, parts: Parts)
    ensures LeafFiles(c, parts).Keys == {"mimetype", "manifest.json", LIASSE_JSON_PATH, STATE_PATH, HISTORY_INDEX_PATH}
    ensures LeafFiles(c, parts)["mimetype"] == c.bytesOf(MIMETYPE)
    ensures LeafFiles(c, parts)["manifest.json"] == c.encode(ManifestFor(c, parts))
    ensures LeafFiles(c, parts)[LIASSE_JSON_PATH] == parts.definition
    ensures LeafFiles(c, parts)[STATE_PATH] == parts.state
    ensures LeafFiles(c, parts)[HISTORY_INDEX_PATH] == parts.history
  {
    NamesDiffer();
    FiveKeys("mimetype", c.bytesOf(MIMETYPE), "manifest.json", c.encode(ManifestFor(c, parts)), LIASSE_JSON_PATH, parts.definition,
             STATE_PATH, parts.state, HISTORY_INDEX_PATH, parts.history);
  }

  lemma FourKeys<T>(n1: string, v1: T, n2: string, v2: T, n3: string, v3: T, n4: string, v4: T)
    requires n1 != n2 && n1 != n3 && n1 != n4 && n2 != n3 && n2 != n4 && n3 != n4
    ensures var m := map[n1 := v1][n2 := v2][n3 := v3][n4 := v4];
      m.Keys == {n1, n2, n3, n4} && m[n1] == v1 && m[n2] == v2 && m[n3] == v3 && m[n4] == v4
  {
  }

  lemma LeafChecksAre(c: Codec, parts: Parts)
    ensures LeafChecks(c, parts).Keys == {"mimetype", LIASSE_JSON_PATH, STATE_PATH, HISTORY_INDEX_PATH}
    ensures LeafChecks(c, parts)["mimetype"].sha256 == c.digest(c.bytesOf(MIMETYPE))
    ensures LeafChecks(c, parts)[LIASSE_JSON_PATH].sha256 == c.digest(parts.definition)
    ensures LeafChecks(c, parts)[STATE_PATH].sha256 == c.digest(parts.state)
    ensures LeafChecks(c, parts)[HISTORY_INDEX_PATH].sha256 == c.digest(parts.history)
  {
    NamesDiffer();
    FourKeys("mimetype", Checksum(c, "text/plain", c.bytesOf(MIMETYPE)), LIASSE_JSON_PATH, Checksum(c, "application/json", parts.definition),
             STATE_PATH, Checksum(c, "application/cbor+zstd", parts.state),
             HISTORY_INDEX_PATH, Checksum(c, "application/json", parts.history));
  }

  lemma ReservedBaseIsSafe(base: map<string, Bytes>, parts: Parts)
    requires Safe(parts) && forall name :: name in base ==> Reserved(name)
    ensures forall name :: name in ChildFiles(SectionFiles(base, parts.sections), parts.children) ==> SafeName(name)
  {
    forall name | name in base
      ensures SafeName(name)
    {
      ReservedAreSafe(name);
    }
    SectionsAreSafe(base, parts.sections);
    ChildrenAreSafe(SectionFiles(base, parts.sections), parts.children);
  }

  lemma OneOfFive(keys: set<string>, n1: string, n2: string, n3: string, n4: string, n5: string, name: string)
    requires keys == {n1, n2, n3, n4, n5} && name in keys
    ensures name == n1 || name == n2 || name == n3 || name == n4 || name == n5
  {
  }

  lemma LeafFilesAreReserved(c: Codec, parts: Parts)
    ensures forall name :: name in LeafFiles(c, parts) ==> Reserved(name)
  {
    LeafFilesAre(c, parts);
    forall name | name in LeafFiles(c, parts)
      ensures Reserved(name)
    {
      OneOfFive(LeafFiles(c, parts).Keys, "mimetype", "manifest.json", LIASSE_JSON_PATH, STATE_PATH, HISTORY_INDEX_PATH, name);
    }
  }

  lemma FilesAreSafe(c: Codec, parts: Parts)
    requires Safe(parts)
    ensures forall name :: name in Files(c, parts) ==> SafeName(name)
  {
    LeafFilesAreReserved(c, parts);
    ReservedBaseIsSafe(LeafFiles(c, parts), parts);
  }

  lemma ReservedFiles(c: Codec, parts: Parts, name: string)
    requires Safe(parts) && Reserved(name)
    ensures name in Files(c, parts) && Files(c, parts)[name] == LeafFiles(c, parts)[name]
  {
    ReservedAreNotModules(name);
    SectionsKeep(LeafFiles(c, parts), parts.sections, name);
    ChildrenKeep(SectionFiles(LeafFiles(c, parts), parts.sections), parts.children, name);
  }

  /** The manifest's checksums are those of the filed bytes. */
  ghost predicate Agree(c: Codec, checks: map<string, EntryChecksum>, files: map<string, Bytes>) {
    forall p :: p in checks ==> !Forbidden(p) && p in files && checks[p].sha256 == c.digest(files[p])
  }

  lemma FourAgree(c: Codec, checks: map<string, EntryChecksum>, files: map<string, Bytes>, n1: string, n2: string, n3: string, n4: string)
    requires checks.Keys == {n1, n2, n3, n4} && n1 in files && n2 in files && n3 in files && n4 in files
    requires !Forbidden(n1) && !Forbidden(n2) && !Forbidden(n3) && !Forbidden(n4)
    requires checks[n1].sha256 == c.digest(files[n1]) && checks[n2].sha256 == c.digest(files[n2])
    requires checks[n3].sha256 == c.digest(files[n3]) && checks[n4].sha256 == c.digest(files[n4])
    ensures Agree(c, checks, files)
  {
  }

  lemma LeavesAgree(c: Codec, parts: Parts)
    ensures Agree(c, LeafChecks(c, parts), LeafFiles(c, parts))
  {
    LeafFilesAre(c, parts);
    LeafChecksAre(c, parts);
    NamesDiffer();
    ReservedAreNotModules("mimetype");
    ReservedAreNotModules(LIASSE_JSON_PATH);
    ReservedAreNotModules(STATE_PATH);
    ReservedAreNotModules(HISTORY_INDEX_PATH);
    FourAgree(c, LeafChecks(c, parts), LeafFiles(c, parts), "mimetype", LIASSE_JSON_PATH, STATE_PATH, HISTORY_INDEX_PATH);
  }

  lemma {:induction false} SectionsAgree(c: Codec, checks: map<string, EntryChecksum>, files: map<string, Bytes>, sections: seq<Section>)
    requires Agree(c, checks, files) && forall i :: 0 <= i < |sections| ==> SafeSection(sections[i].path)
    ensures Agree(c, SectionChecks(c, checks, sections), SectionFiles(files, sections))
    ensures checks.Keys <= SectionChecks(c, checks, sections).Keys
  {
    if sections != [] { SectionsAgree(c, checks, files, sections[..|sections| - 1]); }
  }

  lemma ChildrenAgree(c: Codec, checks: map<string, EntryChecksum>, files: map<string, Bytes>, children: seq<Child>)
    requires Agree(c, checks, files)
    ensures Agree(c, checks, ChildFiles(files, children))
  {
    forall p | p in checks
      ensures p in ChildFiles(files, children) && checks[p].sha256 == c.digest(ChildFiles(files, children)[p])
    {
      ChildrenKeep(files, children, p);
    }
  }

  lemma EntriesAgree(c: Codec, parts: Parts)
    requires Safe(parts)
    ensures Agree(c, ManifestFor(c, parts).entries, Files(c, parts))
  {
    LeavesAgree(c, parts);
    SectionsAgree(c, LeafChecks(c, parts), LeafFiles(c, parts), parts.sections);
    ChildrenAgree(c, SectionChecks(c, LeafChecks(c, parts), parts.sections), SectionFiles(LeafFiles(c, parts), parts.sections), parts.children);
  }

  lemma RequiredAreIn(keys: set<string>, n1: string, n2: string, n3: string, n4: string)
    requires [n1, n2, n3, n4] == REQUIRED_ENTRIES && {n1, n2, n3, n4} <= keys
    ensures forall i :: 0 <= i < |REQUIRED_ENTRIES| ==> REQUIRED_ENTRIES[i] in keys
  {
    forall i | 0 <= i < |REQUIRED_ENTRIES|
      ensures REQUIRED_ENTRIES[i] in keys
    {
      assert REQUIRED_ENTRIES[i] == [n1, n2, n3, n4][i];
    }
  }

  lemma MembershipHolds(c: Codec, parts: Parts)
    requires Safe(parts)
    ensures Membership(ManifestFor(c, parts))
  {
    EntriesAgree(c, parts);
    LeafChecksAre(c, parts);
    LeavesAgree(c, parts);
    SectionsAgree(c, LeafChecks(c, parts), LeafFiles(c, parts), parts.sections);
    RequiredAreIn(ManifestFor(c, parts).entries.Keys, "mimetype", LIASSE_JSON_PATH, STATE_PATH, HISTORY_INDEX_PATH);
  }

  lemma {:induction false} InventoryIsChildren(c: Codec, children: seq<Child>)
    ensures Inventory(c, children).Keys == ChildBytes(children).Keys
    ensures forall inc :: inc in Inventory(c, children) ==>
      Inventory(c, children)[inc] == IncludedModule(ArtifactPath(inc), c.digest(ChildBytes(children)[inc]))
  {
    if children != [] { InventoryIsChildren(c, children[..|children| - 1]); }
  }

  lemma {:induction false} MountsAreChildren(children: seq<Child>)
    ensures forall k :: k in Mounts(children) ==>
      Mounts(children)[k].instance in ChildBytes(children) && Mounts(children)[k].artifact == ArtifactPath(Mounts(children)[k].instance)
  {
    if children != [] { MountsAreChildren(children[..|children| - 1]); }
  }

  lemma PathsOfChildren(c: Codec, parts: Parts)
    ensures ChildPaths(ManifestFor(c, parts)) == set inc | inc in ChildBytes(parts.children) :: ArtifactPath(inc)
  {
    InventoryIsChildren(c, parts.children);
    MountsAreChildren(parts.children);
    PathsAreChildren(ManifestFor(c, parts), ChildBytes(parts.children).Keys);
  }

  lemma PathsAreChildren(m: Manifest, incarnations: set<string>)
    requires m.included.Keys == incarnations && forall inc :: inc in m.included ==> m.included[inc].artifact == ArtifactPath(inc)
    requires forall k :: k in m.modules ==> m.modules[k].instance in incarnations && m.modules[k].artifact == ArtifactPath(m.modules[k].instance)
    ensures ChildPaths(m) == set inc | inc in incarnations :: ArtifactPath(inc)
  {
    forall inc | inc in incarnations
      ensures ArtifactPath(inc) in ChildPaths(m)
    {
      assert inc in m.included && m.included[inc].artifact == ArtifactPath(inc);
    }
  }

  // ---- the round trip ----------------------------------------------------

  lemma MimetypeTrims()
    ensures Trim(MIMETYPE) == MIMETYPE
  {
    assert !IsSpace(MIMETYPE[0]) && !IsSpace(MIMETYPE[|MIMETYPE| - 1]);
  }

  lemma LeafRead(c: Codec, parts: Parts, es: seq<Entry>, name: string)
    requires Safe(parts) && IsListing(Files(c, parts), es) && Reserved(name)
    ensures name in LeafFiles(c, parts) && Get(es, name) == Some(Entry(name, LeafFiles(c, parts)[name], true))
  {
    LeafFilesAre(c, parts);
    ReservedFiles(c, parts, name);
    ListingGet(Files(c, parts), es, name);
  }

  lemma LeavesRead(c: Codec, parts: Parts, es: seq<Entry>)
    requires Safe(parts) && IsListing(Files(c, parts), es)
    ensures Get(es, "mimetype") == Some(Entry("mimetype", c.bytesOf(MIMETYPE), true))
    ensures Get(es, "manifest.json") == Some(Entry("manifest.json", c.encode(ManifestFor(c, parts)), true))
    ensures Get(es, LIASSE_JSON_PATH) == Some(Entry(LIASSE_JSON_PATH, parts.definition, true))
    ensures Get(es, STATE_PATH) == Some(Entry(STATE_PATH, parts.state, true))
    ensures Get(es, HISTORY_INDEX_PATH) == Some(Entry(HISTORY_INDEX_PATH, parts.history, true))
  {
    LeafFilesAre(c, parts);
    LeafRead(c, parts, es, "mimetype");
    LeafRead(c, parts, es, "manifest.json");
    LeafRead(c, parts, es, LIASSE_JSON_PATH);
    LeafRead(c, parts, es, STATE_PATH);
    LeafRead(c, parts, es, HISTORY_INDEX_PATH);
  }

  lemma MimetypeRead(c: Codec, parts: Parts, es: seq<Entry>)
    requires Faithful(c) && Safe(parts) && IsListing(Files(c, parts), es)
    ensures MimetypeInOrder(c, es)
  {
    LeafRead(c, parts, es, "mimetype");
    LeafFilesAre(c, parts);
    ReservedFiles(c, parts, "mimetype");
    MimetypeFirst(Files(c, parts), es);
    MimetypeTrims();
    assert DecodesBack(c, MIMETYPE);
  }

  lemma ModulesRead(c: Codec, parts: Parts, es: seq<Entry>)
    requires IsListing(Files(c, parts), es)
    ensures IncludedMatch(c, es, ManifestFor(c, parts)) && MountsPresent(es, ManifestFor(c, parts))
    ensures forall inc :: inc in ChildBytes(parts.children) ==>
      Get(es, ArtifactPath(inc)) == Some(Entry(ArtifactPath(inc), ChildBytes(parts.children)[inc], true))
  {
    forall inc | inc in ChildBytes(parts.children)
      ensures Get(es, ArtifactPath(inc)) == Some(Entry(ArtifactPath(inc), ChildBytes(parts.children)[inc], true))
    {
      ChildrenAreFiled(SectionFiles(LeafFiles(c, parts), parts.sections), parts.children, inc);
      ListingGet(Files(c, parts), es, ArtifactPath(inc));
    }
    InventoryIsChildren(c, parts.children);
    MountsAreChildren(parts.children);
  }

  lemma BuiltIsConsistent(c: Codec, parts: Parts, es: seq<Entry>)
    requires Faithful(c) && Safe(parts) && IsListing(Files(c, parts), es)
    ensures Consistent(c, es, ManifestFor(c, parts))
  {
    var m := ManifestFor(c, parts);
    assert ParsesBack(c, m);
    MimetypeRead(c, parts, es);
    LeavesRead(c, parts, es);
    ModulesRead(c, parts, es);
    MembershipHolds(c, parts);
    EntriesAgree(c, parts);
    forall p | p in m.entries
      ensures Matches(c, es, p, m.entries[p].sha256)
    {
      ListingGet(Files(c, parts), es, p);
    }
  }

  /** Every nested artifact of the parts verifies at `depth`. */
  ghost predicate ChildrenOpen(c: Codec, children: seq<Child>, depth: nat) {
    forall inc :: inc in ChildBytes(children) ==> Verified(c, ChildBytes(children)[inc], depth)
  }

  /** A built archive is accepted exactly when the depth is within the limit and each of
      its nested artifacts is accepted one level down. */
  lemma BuiltOpens(c: Codec, parts: Parts, b: Bytes, depth: nat)
    requires Faithful(c) && Safe(parts) && Writes(c, parts, b)
    ensures Verified(c, b, depth) <==> depth <= MAX_MODULE_DEPTH && ChildrenOpen(c, parts.children, depth + 1)
  {
    var es :| IsListing(Files(c, parts), es) && c.zip.write(es) == Some(b);
    FilesAreSafe(c, parts);
    ListingIsContents(c.zip, Files(c, parts), es, b);
    BuiltIsConsistent(c, parts, es);
    VerifiedIs(c, b, es, ManifestFor(c, parts), depth);
    if depth <= MAX_MODULE_DEPTH {
      BuiltChildren(c, parts, es, depth);
    }
  }

  /** It gives back the manifest and the sections it was built from. */
  lemma BuiltReadsBack(c: Codec, parts: Parts, b: Bytes)
    requires Faithful(c) && Safe(parts) && Writes(c, parts, b)
    ensures Contents(c.zip, b).Some?
    ensures var es := Contents(c.zip, b).value;
      && HasManifest(c, es, ManifestFor(c, parts))
      && Get(es, LIASSE_JSON_PATH) == Some(Entry(LIASSE_JSON_PATH, parts.definition, true))
      && Get(es, STATE_PATH) == Some(Entry(STATE_PATH, parts.state, true))
      && Get(es, HISTORY_INDEX_PATH) == Some(Entry(HISTORY_INDEX_PATH, parts.history, true))
  {
    var es :| IsListing(Files(c, parts), es) && c.zip.write(es) == Some(b);
    FilesAreSafe(c, parts);
    ListingIsContents(c.zip, Files(c, parts), es, b);
    LeavesRead(c, parts, es);
    assert ParsesBack(c, ManifestFor(c, parts));
  }

  lemma BuiltChildren(c: Codec, parts: Parts, es: seq<Entry>, depth: nat)
    requires IsListing(Files(c, parts), es) && depth <= MAX_MODULE_DEPTH
    ensures ChildrenVerified(c, es, ChildPaths(ManifestFor(c, parts)), depth) <==> ChildrenOpen(c, parts.children, depth + 1)
  {
    PathsOfChildren(c, parts);
    ModulesRead(c, parts, es);
    var paths := ChildPaths(ManifestFor(c, parts));
    if ChildrenVerified(c, es, paths, depth) {
      forall inc | inc in ChildBytes(parts.children)
        ensures Verified(c, ChildBytes(parts.children)[inc], depth + 1)
      {
        assert ArtifactPath(inc) in paths;
        assert VerifiedChild(c, es, ArtifactPath(inc), depth);
      }
    }
  }

  // ---- whole compositions ------------------------------------------------

  /** A composition: the parts of one artifact, its children composed in turn. */
  datatype Tree = Tree(parts: Parts, kids: seq<Kid>)
  datatype Kid = Kid(incarnation: string, mount: Option<Mount>, tree: Tree)

  function ChildrenOf(kids: seq<Kid>, bytes: seq<Bytes>): seq<Child>
    requires |bytes| == |kids|
  {
    seq(|kids|, i requires 0 <= i < |kids| => Child(kids[i].incarnation, bytes[i], kids[i].mount))
  }

  /** `b` is what building the tree bottom-up writes. */
  ghost predicate IsBuild(c: Codec, t: Tree, b: Bytes)
    decreases t, 1
  {
    exists bytes: seq<Bytes> :: KidsBuilt(c, t, bytes) && Writes(c, t.parts.(children := ChildrenOf(t.kids, bytes)), b)
  }

  ghost predicate KidsBuilt(c: Codec, t: Tree, bytes: seq<Bytes>)
    decreases t, 0
  {
    |bytes| == |t.kids| && forall i :: 0 <= i < |t.kids| ==> IsBuild(c, t.kids[i].tree, bytes[i])
  }

  ghost predicate SafeTree(t: Tree) {
    && (forall i :: 0 <= i < |t.parts.sections| ==> SafeSection(t.parts.sections[i].path))
    && forall i :: 0 <= i < |t.kids| ==> SafeIncarnation(t.kids[i].incarnation) && SafeTree(t.kids[i].tree)
  }

  /** The kid is not replaced by a later one of the same incarnation. */
  ghost predicate Kept(kids: seq<Kid>, i: nat)
    requires i < |kids|
  {
    forall j :: i < j < |kids| ==> kids[j].incarnation != kids[i].incarnation
  }

  /** How deep modules nest below the root. */
  ghost function Height(t: Tree): nat
    decreases t, 1, 0
  {
    HeightUpTo(t, |t.kids|)
  }

  ghost function HeightUpTo(t: Tree, n: nat): nat
    requires n <= |t.kids|
    decreases t, 0, n
  {
    if n == 0 then 0
    else
      var rest := HeightUpTo(t, n - 1);
      if Kept(t.kids, n - 1) && 1 + Height(t.kids[n - 1].tree) > rest then 1 + Height(t.kids[n - 1].tree) else rest
  }

  lemma {:induction false} HeightFits(t: Tree, n: nat, limit: nat)
    requires n <= |t.kids|
    ensures HeightUpTo(t, n) <= limit <==> forall i :: 0 <= i < n && Kept(t.kids, i) ==> 1 + Height(t.kids[i].tree) <= limit
    decreases n
  {
    if n > 0 { HeightFits(t, n - 1, limit); }
  }

  lemma {:induction false} KeptBytes(kids: seq<Kid>, bytes: seq<Bytes>, n: nat, inc: string) returns (i: nat)
    requires |bytes| == |kids| && n <= |kids| && inc in ChildBytes(ChildrenOf(kids, bytes)[..n])
    ensures i < n && kids[i].incarnation == inc && ChildBytes(ChildrenOf(kids, bytes)[..n])[inc] == bytes[i]
    ensures forall j :: i < j < n ==> kids[j].incarnation != inc
  {
    var children := ChildrenOf(kids, bytes);
    assert children[..n][..n - 1] == children[..n - 1];
    i := n - 1;
    if kids[n - 1].incarnation != inc { i := KeptBytes(kids, bytes, n - 1, inc); }
  }

  lemma {:induction false} BytesOfKept(kids: seq<Kid>, bytes: seq<Bytes>, n: nat, i: nat)
    requires |bytes| == |kids| && i < n <= |kids|
    requires forall j :: i < j < n ==> kids[j].incarnation != kids[i].incarnation
    ensures var m := ChildBytes(ChildrenOf(kids, bytes)[..n]); kids[i].incarnation in m && m[kids[i].incarnation] == bytes[i]
    decreases n
  {
    var children := ChildrenOf(kids, bytes);
    assert children[..n][..n - 1] == children[..n - 1];
    if i < n - 1 { BytesOfKept(kids, bytes, n - 1, i); }
  }

  /** Opening what a safe composition builds succeeds exactly when its modules nest at most
      as deep as the limit leaves room for. */
  lemma {:induction false} BuiltTreeOpens(c: Codec, t: Tree, b: Bytes, depth: nat)
    requires Faithful(c) && SafeTree(t) && IsBuild(c, t, b)
    ensures Verified(c, b, depth) <==> depth + Height(t) <= MAX_MODULE_DEPTH
    decreases t, depth
  {
    var bytes :| KidsBuilt(c, t, bytes) && Writes(c, t.parts.(children := ChildrenOf(t.kids, bytes)), b);
    forall i | 0 <= i < |t.kids|
      ensures KidFits(c, t, bytes, i, depth)
    {
      BuiltTreeOpens(c, t.kids[i].tree, bytes[i], depth + 1);
    }
    BuiltTreeFits(c, t, bytes, b, depth);
  }

  lemma BuiltTreeFits(c: Codec, t: Tree, bytes: seq<Bytes>, b: Bytes, depth: nat)
    requires |bytes| == |t.kids| && Faithful(c) && SafeTree(t)
    requires Writes(c, t.parts.(children := ChildrenOf(t.kids, bytes)), b)
    requires forall i :: 0 <= i < |t.kids| ==> KidFits(c, t, bytes, i, depth)
    ensures Verified(c, b, depth) <==> depth + Height(t) <= MAX_MODULE_DEPTH
  {
    BuiltOpens(c, t.parts.(children := ChildrenOf(t.kids, bytes)), b, depth);
    if depth <= MAX_MODULE_DEPTH {
      KidsFit(c, t, bytes, depth);
    }
  }

  ghost predicate KidFits(c: Codec, t: Tree, bytes: seq<Bytes>, i: nat, depth: nat)
    requires |bytes| == |t.kids| && i < |t.kids|
  {
    Verified(c, bytes[i], depth + 1) <==> depth + 1 + Height(t.kids[i].tree) <= MAX_MODULE_DEPTH
  }

  lemma KidsFit(c: Codec, t: Tree, bytes: seq<Bytes>, depth: nat)
    requires |bytes| == |t.kids| && depth <= MAX_MODULE_DEPTH
    requires forall i :: 0 <= i < |t.kids| ==> KidFits(c, t, bytes, i, depth)
    ensures ChildrenOpen(c, ChildrenOf(t.kids, bytes), depth + 1) <==> depth + Height(t) <= MAX_MODULE_DEPTH
  {
    HeightFits(t, |t.kids|, MAX_MODULE_DEPTH - depth);
    KidsOpen(c, t, bytes, depth);
    forall i | 0 <= i < |t.kids| && Kept(t.kids, i)
      ensures Verified(c, bytes[i], depth + 1) <==> 1 + Height(t.kids[i].tree) <= MAX_MODULE_DEPTH - depth
    {
      assert KidFits(c, t, bytes, i, depth);
    }
  }

  lemma KidsOpen(c: Codec, t: Tree, bytes: seq<Bytes>, depth: nat)
    requires |bytes| == |t.kids|
    ensures ChildrenOpen(c, ChildrenOf(t.kids, bytes), depth + 1)
        <==> forall i :: 0 <= i < |t.kids| && Kept(t.kids, i) ==> Verified(c, bytes[i], depth + 1)
  {
    var children := ChildrenOf(t.kids, bytes);
    assert children[..|t.kids|] == children;
    forall i | 0 <= i < |t.kids| && Kept(t.kids, i)
      ensures t.kids[i].incarnation in ChildBytes(children) && ChildBytes(children)[t.kids[i].incarnation] == bytes[i]
    {
      BytesOfKept(t.kids, bytes, |t.kids|, i);
    }
    forall inc | inc in ChildBytes(children)
      ensures exists i :: 0 <= i < |t.kids| && Kept(t.kids, i) && ChildBytes(children)[inc] == bytes[i]
    {
      var i := KeptBytes(t.kids, bytes, |t.kids|, inc);
      assert Kept(t.kids, i);
    }
  }
}
