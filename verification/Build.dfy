/** Composing an artifact (liasse-artifact, build.rs), and opening what was built. */
module Build {
  import opened Archive
  import opened Artifact
  import opened Text
  import opened Values

  datatype Section = Section(path: string, media: string, bytes: Bytes)
  datatype Mount = Mount(name: string, selected: Point)
  datatype Child = Child(incarnation: string, bytes: Bytes, mount: Option<Mount>)

  function ArtifactPath(incarnation: string): string { "modules/" + incarnation + ".liasse" }

  /** What a builder has accumulated. */
  datatype Parts = Parts(
    instance: string, selected: Point, definition: Bytes, state: Bytes, history: Bytes, coverage: Coverage,
    sections: seq<Section>, children: seq<Child>)

  function Checksum(c: Codec, media: string, bytes: Bytes): EntryChecksum { EntryChecksum(media, c.digest(bytes)) }

  // A later section or child of the same name replaces an earlier one, in the manifest and
  // in the archive alike.

  function LeafChecks(c: Codec, parts: Parts): map<string, EntryChecksum> {
    map["mimetype" := Checksum(c, "text/plain", c.bytesOf(MIMETYPE))]
      [LIASSE_JSON_PATH := Checksum(c, "application/json", parts.definition)]
      [STATE_PATH := Checksum(c, "application/cbor+zstd", parts.state)]
      [HISTORY_INDEX_PATH := Checksum(c, "application/json", parts.history)]
  }

  function SectionChecks(c: Codec, base: map<string, EntryChecksum>, sections: seq<Section>): map<string, EntryChecksum> {
    if sections == [] then base
    else
      var last := sections[|sections| - 1];
      SectionChecks(c, base, sections[..|sections| - 1])[last.path := Checksum(c, last.media, last.bytes)]
  }

  function Inventory(c: Codec, children: seq<Child>): map<string, IncludedModule> {
    if children == [] then map[]
    else
      var last := children[|children| - 1];
      Inventory(c, children[..|children| - 1])[last.incarnation := IncludedModule(ArtifactPath(last.incarnation), c.digest(last.bytes))]
  }

  function Mounts(children: seq<Child>): map<string, MountRef> {
    if children == [] then map[]
    else
      var last := children[|children| - 1];
      var rest := Mounts(children[..|children| - 1]);
      if last.mount.None? then rest
      else rest[last.mount.value.name := MountRef(last.incarnation, ArtifactPath(last.incarnation), last.mount.value.selected)]
  }

  function ManifestFor(c: Codec, parts: Parts): Manifest {
    Manifest(
      parts.instance, parts.selected, DefinitionRef(c.identity(parts.definition), LIASSE_JSON_PATH),
      EntryRef(STATE_PATH, c.digest(parts.state)), EntryRef(HISTORY_INDEX_PATH, c.digest(parts.history)), parts.coverage,
      Mounts(parts.children), Inventory(c, parts.children), SectionChecks(c, LeafChecks(c, parts), parts.sections))
  }

  function LeafFiles(c: Codec, parts: Parts): map<string, Bytes> {
    map["mimetype" := c.bytesOf(MIMETYPE)]["manifest.json" := c.encode(ManifestFor(c, parts))]
      [LIASSE_JSON_PATH := parts.definition][STATE_PATH := parts.state][HISTORY_INDEX_PATH := parts.history]
  }

  function SectionFiles(base: map<string, Bytes>, sections: seq<Section>): map<string, Bytes> {
    if sections == [] then base
    else
      var last := sections[|sections| - 1];
      SectionFiles(base, sections[..|sections| - 1])[last.path := last.bytes]
  }

  function ChildFiles(base: map<string, Bytes>, children: seq<Child>): map<string, Bytes> {
    if children == [] then base
    else
      var last := children[|children| - 1];
      ChildFiles(base, children[..|children| - 1])[ArtifactPath(last.incarnation) := last.bytes]
  }

  /** Everything the archive holds. */
  function Files(c: Codec, parts: Parts): map<string, Bytes> {
    ChildFiles(SectionFiles(LeafFiles(c, parts), parts.sections), parts.children)
  }

  ghost predicate Writes(c: Codec, parts: Parts, b: Bytes) {
    exists es :: IsListing(Files(c, parts), es) && c.zip.write(es) == Some(b)
  }

  method AddChecksums(c: Codec, base: map<string, EntryChecksum>, sections: seq<Section>) returns (entries: map<string, EntryChecksum>)
    ensures entries == SectionChecks(c, base, sections)
  {
    entries := base;
    for n := 0 to |sections|
      invariant entries == SectionChecks(c, base, sections[..n])
    {
      assert sections[..n + 1][..n] == sections[..n];
      entries := entries[sections[n].path := Checksum(c, sections[n].media, sections[n].bytes)];
    }
    assert sections[..|sections|] == sections;
  }

  method ListModules(c: Codec, children: seq<Child>) returns (modules: map<string, MountRef>, included: map<string, IncludedModule>)
    ensures modules == Mounts(children) && included == Inventory(c, children)
  {
    modules, included := map[], map[];
    for n := 0 to |children|
      invariant modules == Mounts(children[..n]) && included == Inventory(c, children[..n])
    {
      assert children[..n + 1][..n] == children[..n];
      var child := children[n];
      var path := ArtifactPath(child.incarnation);
      included := included[child.incarnation := IncludedModule(path, c.digest(child.bytes))];
      if child.mount.Some? {
        modules := modules[child.mount.value.name := MountRef(child.incarnation, path, child.mount.value.selected)];
      }
    }
    assert children[..|children|] == children;
  }

  class ArtifactBuilder {
    var instance: string
    var selected: Point
    var definition: Bytes
    var state: Bytes
    var history: Bytes
    var coverage: Coverage
    var sections: seq<Section>
    var children: seq<Child>

    function Accumulated(): Parts
      reads this
    {
      Parts(instance, selected, definition, state, history, coverage, sections, children)
    }

    constructor (instance: string, selected: Point, definition: Bytes, state: Bytes, history: Bytes, coverage: Coverage)
      ensures Accumulated() == Parts(instance, selected, definition, state, history, coverage, [], [])
    {
      this.instance, this.selected, this.coverage := instance, selected, coverage;
      this.definition, this.state, this.history := definition, state, history;
      sections, children := [], [];
    }

    method AddSection(path: string, media: string, bytes: Bytes)
      modifies this
      ensures Accumulated() == old(Accumulated()).(sections := old(sections) + [Section(path, media, bytes)])
    {
      sections := sections + [Section(path, media, bytes)];
    }

    method Module(mountName: string, incarnation: string, selected: Point, bytes: Bytes)
      modifies this
      ensures Accumulated() == old(Accumulated()).(children := old(children) + [Child(incarnation, bytes, Some(Mount(mountName, selected)))])
    {
      children := children + [Child(incarnation, bytes, Some(Mount(mountName, selected)))];
    }

    method IncludedOnly(incarnation: string, bytes: Bytes)
      modifies this
      ensures Accumulated() == old(Accumulated()).(children := old(children) + [Child(incarnation, bytes, None)])
    {
      children := children + [Child(incarnation, bytes, None)];
    }

    method ComputeManifest(c: Codec) returns (m: Manifest)
      ensures m == ManifestFor(c, Accumulated())
    {
      var entries := AddChecksums(c, LeafChecks(c, Accumulated()), sections);
      var modules, included := ListModules(c, children);
      m := Manifest(
        instance, selected, DefinitionRef(c.identity(definition), LIASSE_JSON_PATH),
        EntryRef(STATE_PATH, c.digest(state)), EntryRef(HISTORY_INDEX_PATH, c.digest(history)), coverage,
        modules, included, entries);
    }

    /** Adds the extra sections, then the nested artifacts. */
    method AddParts(archive: ArchiveBuilder)
      modifies archive
      ensures archive.entries == ChildFiles(SectionFiles(old(archive.entries), sections), children)
    {
      ghost var leaves := archive.entries;
      for n := 0 to |sections|
        invariant archive.entries == SectionFiles(leaves, sections[..n])
      {
        assert sections[..n + 1][..n] == sections[..n];
        archive.Add(sections[n].path, sections[n].bytes);
      }
      assert sections[..|sections|] == sections;
      ghost var base := archive.entries;
      for n := 0 to |children|
        invariant archive.entries == ChildFiles(base, children[..n])
      {
        assert children[..n + 1][..n] == children[..n];
        archive.Add(ArtifactPath(children[n].incarnation), children[n].bytes);
      }
      assert children[..|children|] == children;
    }

    /** Serializes all files of the accumulated parts, in the one order they have. */
    method Build(c: Codec) returns (r: Checked<Bytes>)
      ensures r.Ok? ==> Writes(c, Accumulated(), r.value)
      ensures r.Rejected? ==> exists es :: IsListing(Files(c, Accumulated()), es) && c.zip.write(es).None?
    {
      var manifest := ComputeManifest(c);
      var archive := new ArchiveBuilder();
      archive.Add("mimetype", c.bytesOf(MIMETYPE));
      archive.Add("manifest.json", c.encode(manifest));
      archive.Add(LIASSE_JSON_PATH, definition);
      archive.Add(STATE_PATH, state);
      archive.Add(HISTORY_INDEX_PATH, history);
      assert archive.entries == LeafFiles(c, Accumulated());
      AddParts(archive);
      r := archive.Finish(c.zip);
    }
  }

  // ---- safe names --------------------------------------------------------

  /** A name the archive reader takes back as a content entry. */
  predicate SafeName(name: string) { !IsMarker(name) && !EscapesRoot(name) && '\0' !in name }

  predicate Reserved(path: string) {
    path == "mimetype" || path == "manifest.json" || path == LIASSE_JSON_PATH || path == STATE_PATH || path == HISTORY_INDEX_PATH
  }

  predicate SafeSection(path: string) { SafeName(path) && !Reserved(path) && !StartsWith(path, "modules/") }

  predicate SafeIncarnation(incarnation: string) { SafeName(ArtifactPath(incarnation)) }

  ghost predicate Safe(parts: Parts) {
    && (forall i :: 0 <= i < |parts.sections| ==> SafeSection(parts.sections[i].path))
    && forall i :: 0 <= i < |parts.children| ==> SafeIncarnation(parts.children[i].incarnation)
  }

  predicate Plain(name: string) { '\\' !in name && ':' !in name && '\0' !in name && NoDoubleDot(name) }

  lemma PlainJoin(a: string, b: string)
    requires Plain(a) && Plain(b) && a != "" && a[|a| - 1] != '.'
    ensures Plain(a + b)
  {
    forall i | 0 <= i < |a + b| - 1
      ensures !DoubleDotAt(a + b, i)
    {
      if i < |a| - 1 { assert !DoubleDotAt(a, i); } else if i >= |a| { assert !DoubleDotAt(b, i - |a|); }
    }
  }

  lemma PlainIsSafe(name: string)
    requires Plain(name) && name != "" && name[0] != '/' && name[|name| - 1] != '/'
    ensures SafeName(name)
  {
    PlainNameStaysInside(name);
  }

  lemma StatePathIsSafe()
    ensures SafeName(STATE_PATH)
  {
    assert Plain("state/") && Plain("current") && Plain(".cbor") && Plain(".zst");
    PlainJoin("state/", "current");
    PlainJoin("state/" + "current", ".cbor");
    PlainJoin("state/" + "current" + ".cbor", ".zst");
    assert STATE_PATH == "state/" + "current" + ".cbor" + ".zst";
    PlainIsSafe(STATE_PATH);
  }

  lemma HistoryPathIsSafe()
    ensures SafeName(HISTORY_INDEX_PATH)
  {
    assert Plain("history/") && Plain("index") && Plain(".json");
    PlainJoin("history/", "index");
    PlainJoin("history/" + "index", ".json");
    assert HISTORY_INDEX_PATH == "history/" + "index" + ".json";
    PlainIsSafe(HISTORY_INDEX_PATH);
  }

  lemma JsonPathsAreSafe()
    ensures SafeName(LIASSE_JSON_PATH) && SafeName("manifest.json") && SafeName("mimetype")
  {
    LiasseJsonIsSafe();
    ManifestIsSafe();
    MimetypeIsSafe();
  }

  lemma LiasseJsonIsSafe()
    ensures SafeName(LIASSE_JSON_PATH)
  {
    assert Plain("liasse") && Plain(".json");
    PlainJoin("liasse", ".json");
    assert LIASSE_JSON_PATH == "liasse" + ".json";
    PlainIsSafe(LIASSE_JSON_PATH);
  }

  lemma ManifestIsSafe()
    ensures SafeName("manifest.json")
  {
    assert Plain("manifest") && Plain(".json");
    PlainJoin("manifest", ".json");
    assert "manifest.json" == "manifest" + ".json";
    PlainIsSafe("manifest.json");
  }

  lemma MimetypeIsSafe()
    ensures SafeName("mimetype")
  {
    assert Plain("mimetype");
    PlainIsSafe("mimetype");
  }

  lemma ReservedAreSafe(path: string)
    requires Reserved(path)
    ensures SafeName(path)
  {
    StatePathIsSafe();
    HistoryPathIsSafe();
    JsonPathsAreSafe();
  }

  lemma ReservedAreNotModules(path: string)
    requires Reserved(path)
    ensures !StartsWith(path, "modules/")
  {
    var prefix := "modules/";
    assert |path| >= 8 ==> path[..8][0] == path[0] && path[..8][1] == path[1];
    assert prefix[0] == 'm' && prefix[1] == 'o';
  }

  lemma ArtifactPathsDiffer(a: string, b: string)
    ensures StartsWith(ArtifactPath(a), "modules/")
    ensures ArtifactPath(a) == ArtifactPath(b) ==> a == b
  {
    assert ArtifactPath(a)[8..|ArtifactPath(a)| - 7] == a && ArtifactPath(b)[8..|ArtifactPath(b)| - 7] == b;
    assert ArtifactPath(a)[..8] == "modules/";
  }
}
