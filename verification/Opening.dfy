/** What opening an artifact guarantees, in the names of the format, through every level of
    nesting (liasse-artifact, artifact.rs). */
module Opening {
  import opened Archive
  import opened Artifact
  import opened Text
  import opened Values

  /** The inventory covers the four leaves, and neither the manifest nor a nested artifact. */
  ghost predicate CoversLeaves(entries: set<string>) {
    && "mimetype" in entries && "liasse.json" in entries && "state/current.cbor.zst" in entries && "history/index.json" in entries
    && "manifest.json" !in entries && forall t :: "modules/" + t !in entries
  }

  lemma ForbiddenExactly(path: string)
    ensures Forbidden(path) <==> path == "manifest.json" || exists t :: path == "modules/" + t
  {
    if StartsWith(path, "modules/") { assert path == "modules/" + path[8..]; }
    if t :| path == "modules/" + t { assert path[..8] == "modules/"; }
  }

  lemma RequiredAre(m: Manifest)
    ensures (forall i :: 0 <= i < |REQUIRED_ENTRIES| ==> REQUIRED_ENTRIES[i] in m.entries)
       <==> "mimetype" in m.entries && "liasse.json" in m.entries && "state/current.cbor.zst" in m.entries && "history/index.json" in m.entries
  {
    assert |REQUIRED_ENTRIES| == 4 && REQUIRED_ENTRIES[0] == "mimetype" && REQUIRED_ENTRIES[1] == "liasse.json"
      && REQUIRED_ENTRIES[2] == "state/current.cbor.zst" && REQUIRED_ENTRIES[3] == "history/index.json";
  }

  /** The membership check accepts exactly such inventories. */
  lemma MembershipExactly(m: Manifest)
    ensures Membership(m) <==> CoversLeaves(m.entries.Keys)
  {
    RequiredAre(m);
    forall path
      ensures Forbidden(path) <==> path == "manifest.json" || exists t :: path == "modules/" + t
    {
      ForbiddenExactly(path);
    }
    if Membership(m) {
      forall t
        ensures "modules/" + t !in m.entries
      {
        ForbiddenExactly("modules/" + t);
      }
    }
  }

  /** The first entry of that name holds `data`. */
  ghost predicate Holds(es: seq<Entry>, name: string, data: Bytes) {
    exists i :: 0 <= i < |es| && es[i].name == name && es[i].data == data && forall j :: 0 <= j < i ==> es[j].name != name
  }

  lemma {:induction false} GetHolds(es: seq<Entry>, name: string)
    ensures Get(es, name).Some? ==> Holds(es, name, Get(es, name).value.data)
  {
    if es != [] && es[0].name != name {
      GetHolds(es[1..], name);
      if Get(es, name).Some? {
        var i :| 0 <= i < |es[1..]| && es[1..][i].name == name && es[1..][i].data == Get(es, name).value.data
                 && forall j :: 0 <= j < i ==> es[1..][j].name != name;
        forall j | 0 <= j < i + 1
          ensures es[j].name != name
        {
          if j > 0 { assert es[j] == es[1..][j - 1]; }
        }
        assert es[i + 1] == es[1..][i];
      }
    }
  }

  /** An entry of the archive with the recorded digest. */
  ghost predicate Certified(c: Codec, es: seq<Entry>, name: string, sha256: Digest) {
    exists data :: Holds(es, name, data) && c.digest(data) == sha256
  }

  lemma MatchesCertify(c: Codec, es: seq<Entry>, name: string, sha256: Digest)
    requires Matches(c, es, name, sha256)
    ensures Certified(c, es, name, sha256)
  {
    GetHolds(es, name);
  }

  /** What is known of the parts of an opened artifact. */
  ghost predicate Guaranteed(c: Codec, es: seq<Entry>, m: Manifest) {
    && es != [] && es[0].name == "mimetype" && es[0].stored && Strips(c.text(es[0].data), "application/vnd.liasse+zip", IsSpace)
    && CoversLeaves(m.entries.Keys) && (forall path :: path in m.entries ==> Certified(c, es, path, m.entries[path].sha256))
    && Certified(c, es, "state/current.cbor.zst", m.state.sha256) && Certified(c, es, "history/index.json", m.history.sha256)
    && (exists data :: Holds(es, "liasse.json", data) && c.identity(data) == m.definition.identity)
    && (forall k :: k in m.included ==> Certified(c, es, m.included[k].artifact, m.included[k].sha256))
    && forall k :: k in m.modules ==> exists data :: Holds(es, m.modules[k].artifact, data)
  }

  lemma ConsistentGuarantees(c: Codec, es: seq<Entry>, m: Manifest)
    requires Consistent(c, es, m)
    ensures Guaranteed(c, es, m)
  {
    MembershipExactly(m);
    TrimExactly(c.text(es[0].data), "application/vnd.liasse+zip");
    forall path | path in m.entries
      ensures Certified(c, es, path, m.entries[path].sha256)
    {
      MatchesCertify(c, es, path, m.entries[path].sha256);
    }
    MatchesCertify(c, es, m.state.path, m.state.sha256);
    MatchesCertify(c, es, m.history.path, m.history.sha256);
    GetHolds(es, m.definition.path);
    forall k | k in m.included
      ensures Certified(c, es, m.included[k].artifact, m.included[k].sha256)
    {
      MatchesCertify(c, es, m.included[k].artifact, m.included[k].sha256);
    }
    forall k | k in m.modules
      ensures exists data :: Holds(es, m.modules[k].artifact, data)
    {
      GetHolds(es, m.modules[k].artifact);
    }
  }

  // ---- nesting -----------------------------------------------------------

  /** `inner` is an artifact that `outer` inventories or mounts. */
  ghost predicate Nests(c: Codec, outer: Bytes, inner: Bytes) {
    exists es, m, path :: NestsAt(c, outer, inner, es, m, path)
  }

  ghost predicate NestsAt(c: Codec, outer: Bytes, inner: Bytes, es: seq<Entry>, m: Manifest, path: string) {
    && Contents(c.zip, outer) == Some(es) && HasManifest(c, es, m)
    && ((exists k :: k in m.included && m.included[k].artifact == path) || (exists k :: k in m.modules && m.modules[k].artifact == path))
    && Get(es, path).Some? && Get(es, path).value.data == inner
  }

  /** Every archive of the chain nests the next one. */
  ghost predicate IsChain(c: Codec, chain: seq<Bytes>) {
    |chain| > 0 && forall i :: 0 <= i < |chain| - 1 ==> Nests(c, chain[i], chain[i + 1])
  }

  lemma NestedIsVerified(c: Codec, outer: Bytes, inner: Bytes, depth: nat)
    requires Verified(c, outer, depth) && Nests(c, outer, inner)
    ensures Verified(c, inner, depth + 1)
  {
    var es, m, path :| NestsAt(c, outer, inner, es, m, path);
    var n :| Consistent(c, es, n) && ChildrenVerified(c, es, ChildPaths(n), depth);
    assert m == n;
    assert path in ChildPaths(m);
    assert VerifiedChild(c, es, path, depth);
  }

  /** A verified artifact: an archive whose manifest guarantees all that. */
  ghost predicate Sound(c: Codec, b: Bytes) {
    exists es, m :: Contents(c.zip, b) == Some(es) && Guaranteed(c, es, m)
  }

  lemma VerifiedIsSound(c: Codec, b: Bytes, depth: nat)
    requires Verified(c, b, depth)
    ensures Sound(c, b) && depth <= 64
  {
    var es := Contents(c.zip, b).value;
    var m :| Consistent(c, es, m) && ChildrenVerified(c, es, ChildPaths(m), depth);
    ConsistentGuarantees(c, es, m);
  }

  lemma ChainTail(c: Codec, chain: seq<Bytes>)
    requires IsChain(c, chain) && |chain| > 1
    ensures IsChain(c, chain[1..]) && Nests(c, chain[0], chain[1])
  {
    var rest := chain[1..];
    forall i | 0 <= i < |rest| - 1
      ensures Nests(c, rest[i], rest[i + 1])
    {
      assert Nests(c, chain[i + 1], chain[i + 2]);
    }
  }

  /** Whatever lies inside an opened artifact, at any depth, is sound itself, and lies at most
      sixty-four levels deep. */
  lemma {:induction false} AllInsideIsSound(c: Codec, chain: seq<Bytes>, depth: nat)
    requires IsChain(c, chain) && Verified(c, chain[0], depth)
    ensures depth + |chain| - 1 <= 64 && Sound(c, chain[|chain| - 1])
    decreases |chain|
  {
    VerifiedIsSound(c, chain[0], depth);
    if |chain| > 1 {
      ChainTail(c, chain);
      NestedIsVerified(c, chain[0], chain[1], depth);
      AllInsideIsSound(c, chain[1..], depth + 1);
    }
  }
}
