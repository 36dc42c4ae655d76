/** What the manifest and the archive of some parts say of each of them, by the last part of
    every name (liasse-artifact, build.rs). */
module BuiltParts {
  import opened Archive
  import opened Artifact
  import opened Build
  import opened Values

  // ---- the last of every name --------------------------------------------

  /** The `i`-th part is the last that goes by `name`. */
  ghost predicate IsLast(names: seq<Option<string>>, name: string, i: nat) {
    i < |names| && names[i] == Some(name) && forall j :: i < j < |names| ==> names[j] != Some(name)
  }

  ghost predicate Goes(names: seq<Option<string>>, name: string) { exists i :: 0 <= i < |names| && names[i] == Some(name) }

  ghost predicate HoldsAt<T(!new)>(base: map<string, T>, names: seq<Option<string>>, values: seq<T>, m: map<string, T>, name: string)
    requires |names| == |values|
  {
    if Goes(names, name) then exists i: nat :: IsLast(names, name, i) && name in m && m[name] == values[i]
    else (name in m <==> name in base) && (name in m ==> m[name] == base[name])
  }

  /** `m` has the value of the last part under every name a part goes by, and what `base` has
      under any other. */
  ghost predicate Replaces<T(!new)>(base: map<string, T>, names: seq<Option<string>>, values: seq<T>, m: map<string, T>)
    requires |names| == |values|
  {
    forall name :: HoldsAt(base, names, values, m, name)
  }

  lemma NoParts<T(!new)>(base: map<string, T>)
    ensures Replaces(base, [], [], base)
  {
  }

  lemma OnePart<T(!new)>(base: map<string, T>, names: seq<Option<string>>, values: seq<T>, m: map<string, T>, part: Option<string>, value: T)
    requires |names| == |values| && Replaces(base, names, values, m)
    ensures Replaces(base, names + [part], values + [value], if part.Some? then m[part.value := value] else m)
  {
    var all, next := names + [part], if part.Some? then m[part.value := value] else m;
    forall name
      ensures HoldsAt(base, all, values + [value], next, name)
    {
      assert HoldsAt(base, names, values, m, name);
      if part == Some(name) {
        assert IsLast(all, name, |names|) && (values + [value])[|names|] == value;
        assert all[|names|] == Some(name);
      } else if Goes(names, name) {
        var i: nat :| IsLast(names, name, i) && name in m && m[name] == values[i];
        assert IsLast(all, name, i) && all[i] == Some(name) && (values + [value])[i] == values[i];
      } else {
        assert !Goes(all, name);
      }
    }
  }

  // ---- the parts ---------------------------------------------------------

  function SectionNames(sections: seq<Section>): seq<Option<string>> {
    seq(|sections|, i requires 0 <= i < |sections| => Some(sections[i].path))
  }

  function SectionSums(c: Codec, sections: seq<Section>): seq<EntryChecksum> {
    seq(|sections|, i requires 0 <= i < |sections| => EntryChecksum(sections[i].media, c.digest(sections[i].bytes)))
  }

  function SectionBytes(sections: seq<Section>): seq<Bytes> {
    seq(|sections|, i requires 0 <= i < |sections| => sections[i].bytes)
  }

  function Incarnations(children: seq<Child>): seq<Option<string>> {
    seq(|children|, i requires 0 <= i < |children| => Some(children[i].incarnation))
  }

  function Nested(c: Codec, children: seq<Child>): seq<IncludedModule> {
    seq(|children|, i requires 0 <= i < |children| => IncludedModule(NestedPath(children[i]), c.digest(children[i].bytes)))
  }

  function NestedPath(child: Child): string { "modules/" + child.incarnation + ".liasse" }

  function NestedNames(children: seq<Child>): seq<Option<string>> {
    seq(|children|, i requires 0 <= i < |children| => Some(NestedPath(children[i])))
  }

  function NestedBytes(children: seq<Child>): seq<Bytes> {
    seq(|children|, i requires 0 <= i < |children| => children[i].bytes)
  }

  /** Only a child that is mounted goes by a mount name. */
  function MountNames(children: seq<Child>): seq<Option<string>> {
    seq(|children|, i requires 0 <= i < |children| => if children[i].mount.Some? then Some(children[i].mount.value.name) else None)
  }

  /** A mount refers to the child's incarnation and artifact, at the point selected for it. */
  function MountRefs(children: seq<Child>, unused: Point): seq<MountRef> {
    seq(|children|, i requires 0 <= i < |children| =>
      MountRef(children[i].incarnation, NestedPath(children[i]),
               if children[i].mount.Some? then children[i].mount.value.selected else unused))
  }

  lemma {:induction false} SectionsReplace(c: Codec, base: map<string, EntryChecksum>, sections: seq<Section>)
    ensures Replaces(base, SectionNames(sections), SectionSums(c, sections), SectionChecks(c, base, sections))
  {
    if sections == [] {
      NoParts(base);
      assert SectionNames(sections) == [] && SectionSums(c, sections) == [];
    } else {
      var n := |sections| - 1;
      var front, last := sections[..n], sections[n];
      SectionsReplace(c, base, front);
      OnePart(base, SectionNames(front), SectionSums(c, front), SectionChecks(c, base, front), Some(last.path),
              EntryChecksum(last.media, c.digest(last.bytes)));
      assert SectionNames(front) + [Some(last.path)] == SectionNames(sections);
      assert SectionSums(c, front) + [EntryChecksum(last.media, c.digest(last.bytes))] == SectionSums(c, sections);
    }
  }

  lemma {:induction false} SectionFilesReplace(base: map<string, Bytes>, sections: seq<Section>)
    ensures Replaces(base, SectionNames(sections), SectionBytes(sections), SectionFiles(base, sections))
  {
    if sections == [] {
      NoParts(base);
      assert SectionNames(sections) == [] && SectionBytes(sections) == [];
    } else {
      var n := |sections| - 1;
      var front, last := sections[..n], sections[n];
      SectionFilesReplace(base, front);
      OnePart(base, SectionNames(front), SectionBytes(front), SectionFiles(base, front), Some(last.path), last.bytes);
      assert SectionNames(front) + [Some(last.path)] == SectionNames(sections);
      assert SectionBytes(front) + [last.bytes] == SectionBytes(sections);
    }
  }

  lemma {:induction false} ChildFilesReplace(base: map<string, Bytes>, children: seq<Child>)
    ensures Replaces(base, NestedNames(children), NestedBytes(children), ChildFiles(base, children))
  {
    if children == [] {
      NoParts(base);
      assert NestedNames(children) == [] && NestedBytes(children) == [];
    } else {
      var n := |children| - 1;
      var front, last := children[..n], children[n];
      ChildFilesReplace(base, front);
      OnePart(base, NestedNames(front), NestedBytes(front), ChildFiles(base, front), Some(NestedPath(last)), last.bytes);
      assert NestedNames(front) + [Some(NestedPath(last))] == NestedNames(children);
      assert NestedBytes(front) + [last.bytes] == NestedBytes(children);
    }
  }

  lemma {:induction false} InventoryReplaces(c: Codec, children: seq<Child>)
    ensures Replaces(map[], Incarnations(children), Nested(c, children), Inventory(c, children))
  {
    if children == [] {
      NoParts<IncludedModule>(map[]);
      assert Incarnations(children) == [] && Nested(c, children) == [];
    } else {
      var n := |children| - 1;
      var front, last := children[..n], children[n];
      var module_ := IncludedModule(NestedPath(last), c.digest(last.bytes));
      InventoryReplaces(c, front);
      OnePart(map[], Incarnations(front), Nested(c, front), Inventory(c, front), Some(last.incarnation), module_);
      assert Incarnations(front) + [Some(last.incarnation)] == Incarnations(children);
      assert Nested(c, front) + [module_] == Nested(c, children);
    }
  }

  lemma {:induction false} MountsReplace(children: seq<Child>, unused: Point)
    ensures Replaces(map[], MountNames(children), MountRefs(children, unused), Mounts(children))
  {
    if children == [] {
      NoParts<MountRef>(map[]);
      assert MountNames(children) == [] && MountRefs(children, unused) == [];
    } else {
      var n := |children| - 1;
      var front, last := children[..n], children[n];
      var name := if last.mount.Some? then Some(last.mount.value.name) else None;
      var ref := MountRef(last.incarnation, NestedPath(last), if last.mount.Some? then last.mount.value.selected else unused);
      MountsReplace(front, unused);
      OnePart(map[], MountNames(front), MountRefs(front, unused), Mounts(front), name, ref);
      assert MountNames(front) + [name] == MountNames(children);
      assert MountRefs(front, unused) + [ref] == MountRefs(children, unused);
    }
  }

  /** What the manifest has of the parts: the checksums of the four leaves under the names the
      specification gives them, and of every section, nested artifact and mount the last one
      added under its name. */
  ghost predicate Describes(c: Codec, parts: Parts, m: Manifest) {
    && m.instance == parts.instance && m.selected == parts.selected && m.coverage == parts.coverage
    && m.definition == DefinitionRef(c.identity(parts.definition), "liasse.json")
    && m.state == EntryRef("state/current.cbor.zst", c.digest(parts.state))
    && m.history == EntryRef("history/index.json", c.digest(parts.history))
    && Replaces(
         map["mimetype" := EntryChecksum("text/plain", c.digest(c.bytesOf(MIMETYPE)))]
           ["liasse.json" := EntryChecksum("application/json", c.digest(parts.definition))]
           ["state/current.cbor.zst" := EntryChecksum("application/cbor+zstd", c.digest(parts.state))]
           ["history/index.json" := EntryChecksum("application/json", c.digest(parts.history))],
         SectionNames(parts.sections), SectionSums(c, parts.sections), m.entries)
    && Replaces(map[], Incarnations(parts.children), Nested(c, parts.children), m.included)
    && Replaces(map[], MountNames(parts.children), MountRefs(parts.children, parts.selected), m.modules)
  }

  lemma ManifestDescribes(c: Codec, parts: Parts)
    ensures Describes(c, parts, ManifestFor(c, parts))
  {
    SectionsReplace(c, LeafChecks(c, parts), parts.sections);
    InventoryReplaces(c, parts.children);
    MountsReplace(parts.children, parts.selected);
  }

  /** The archive holds the five leaves, the manifest among them, the last section of every
      path, and under `modules/` the last artifact of every incarnation. */
  lemma FilesHold(c: Codec, parts: Parts) returns (upToSections: map<string, Bytes>)
    ensures Replaces(
      map["mimetype" := c.bytesOf(MIMETYPE)]["manifest.json" := c.encode(ManifestFor(c, parts))]["liasse.json" := parts.definition]
        ["state/current.cbor.zst" := parts.state]["history/index.json" := parts.history],
      SectionNames(parts.sections), SectionBytes(parts.sections), upToSections)
    ensures Replaces(upToSections, NestedNames(parts.children), NestedBytes(parts.children), Files(c, parts))
  {
    upToSections := SectionFiles(LeafFiles(c, parts), parts.sections);
    SectionFilesReplace(LeafFiles(c, parts), parts.sections);
    ChildFilesReplace(upToSections, parts.children);
  }
}
