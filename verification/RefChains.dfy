/** The refs of a package by their places in the model tree: which are found, and whose row
    a cascade over each of them removes (liasse-model, delete.rs). */
module RefChains {
  import opened Text
  import opened Values
  import opened Deletion

  // ---- places in the tree ------------------------------------------------

  /** Member numbers from the root down, through structs and collections. */
  ghost predicate IsPlace(shape: Shape, path: seq<nat>)
    decreases |path|
  {
    && path != [] && path[0] < |shape.members|
    && (|path| == 1
        || match shape.members[path[0]].node
           case StructNode(inner) => IsPlace(inner, path[1..])
           case CollectionNode(rows) => IsPlace(rows, path[1..])
           case _ => false)
  }

  ghost function Within(node: Node): Shape
    requires node.StructNode? || node.CollectionNode?
  {
    if node.StructNode? then node.inner else node.rows
  }

  ghost function NodeAt(shape: Shape, path: seq<nat>): Node
    requires IsPlace(shape, path)
    decreases |path|
  {
    var node := shape.members[path[0]].node;
    if |path| == 1 then node else NodeAt(Within(node), path[1..])
  }

  /** The names on the way, a slash before each. */
  ghost function PathText(shape: Shape, path: seq<nat>): string
    requires IsPlace(shape, path)
    decreases |path|
  {
    var member := shape.members[path[0]];
    "/" + member.name + if |path| == 1 then "" else PathText(Within(member.node), path[1..])
  }

  /** A ref stands here: a ref field, or a set of refs. */
  ghost predicate IsRefPlace(shape: Shape, path: seq<nat>) {
    IsPlace(shape, path) && (NodeAt(shape, path).RefField? || (NodeAt(shape, path).RefSet? && NodeAt(shape, path).element.Some?))
  }

  /** The first `k` steps of `path` lead to a collection around its end. */
  ghost predicate Encloses(shape: Shape, path: seq<nat>, k: nat) {
    0 < k < |path| && IsPlace(shape, path[..k]) && NodeAt(shape, path[..k]).CollectionNode?
  }

  ghost predicate NearestEncloses(shape: Shape, path: seq<nat>, k: nat) {
    Encloses(shape, path, k) && forall j: nat :: j > k ==> !Encloses(shape, path, j)
  }

  /** The collection whose row holds what stands at `path`: the nearest one around it by its
      normalized path, or, where there is none, what surrounds the whole shape. */
  ghost predicate OwnedBy(shape: Shape, path: seq<nat>, prefix: string, outer: Option<string>, owner: Option<string>) {
    if exists k: nat :: Encloses(shape, path, k) then
      exists k: nat :: NearestEncloses(shape, path, k) && owner == Some(Normalize(prefix + PathText(shape, path[..k])))
    else owner == outer
  }

  /** `l` is what the checker has to know of the ref at `path`. */
  ghost predicate LocatesIn(shape: Shape, path: seq<nat>, prefix: string, outer: Option<string>, l: LocatedRef) {
    && IsRefPlace(shape, path)
    && (match NodeAt(shape, path)
        case RefField(r) => l.reference == r && !l.setMember
        case RefSet(element) => element == Some(l.reference) && l.setMember
        case _ => false)
    && l.target == Normalize(l.reference.target)
    && OwnedBy(shape, path, prefix, outer, l.owner)
  }

  /** In the whole package nothing surrounds the root. */
  ghost predicate Locates(root: Shape, path: seq<nat>, l: LocatedRef) { LocatesIn(root, path, "", None, l) }

  // ---- the places in order -----------------------------------------------

  ghost predicate SplitsAt(a: seq<nat>, b: seq<nat>, n: nat) { n < |a| && n < |b| && a[..n] == b[..n] && a[n] < b[n] }

  /** `a` leaves the tree before `b` does, members in their order. */
  ghost predicate PlaceBefore(a: seq<nat>, b: seq<nat>) { exists n :: SplitsAt(a, b, n) }

  ghost predicate PlacesAscend(paths: seq<seq<nat>>) {
    forall i, j :: 0 <= i < j < |paths| ==> PlaceBefore(paths[i], paths[j])
  }

  ghost function Below(i: nat, paths: seq<seq<nat>>): seq<seq<nat>> {
    seq(|paths|, j requires 0 <= j < |paths| => [i] + paths[j])
  }

  ghost function RefPlaces(shape: Shape): seq<seq<nat>>
    decreases shape, 1, 0
  {
    PlacesUpTo(shape, |shape.members|)
  }

  ghost function PlacesUpTo(shape: Shape, n: nat): seq<seq<nat>>
    requires n <= |shape.members|
    decreases shape, 0, n
  {
    if n == 0 then [] else PlacesUpTo(shape, n - 1) + PlacesOfMember(shape.members[n - 1], n - 1)
  }

  ghost function PlacesOfMember(member: Member, i: nat): seq<seq<nat>>
    decreases member, 1, 0
  {
    match member.node
    case RefField(_) => [[i]]
    case RefSet(Some(_)) => [[i]]
    case StructNode(inner) => Below(i, RefPlaces(inner))
    case CollectionNode(rows) => Below(i, RefPlaces(rows))
    case _ => []
  }

  // ---- they are all the places -------------------------------------------

  ghost predicate Lists(paths: seq<seq<nat>>, path: seq<nat>) { path in paths }

  lemma BelowLists(i: nat, paths: seq<seq<nat>>, path: seq<nat>)
    ensures path in Below(i, paths) <==> path != [] && path[0] == i && path[1..] in paths
  {
    if path in Below(i, paths) {
      var j :| 0 <= j < |paths| && Below(i, paths)[j] == path;
      assert path[1..] == paths[j];
    }
    if path != [] && path[0] == i && path[1..] in paths {
      var j :| 0 <= j < |paths| && paths[j] == path[1..];
      assert Below(i, paths)[j] == [i] + path[1..] == path;
    }
  }

  lemma {:induction false} PlacesAreComplete(shape: Shape, path: seq<nat>)
    ensures path in RefPlaces(shape) <==> IsRefPlace(shape, path)
    decreases shape, 1, 0
  {
    PlacesUpToComplete(shape, |shape.members|, path);
  }

  lemma {:induction false} PlacesUpToComplete(shape: Shape, n: nat, path: seq<nat>)
    requires n <= |shape.members|
    ensures path in PlacesUpTo(shape, n) <==> IsRefPlace(shape, path) && path[0] < n
    decreases shape, 0, n
  {
    if n > 0 {
      PlacesUpToComplete(shape, n - 1, path);
      MemberPlacesComplete(shape, n - 1, path);
    }
  }

  lemma {:induction false} MemberPlacesComplete(shape: Shape, i: nat, path: seq<nat>)
    requires i < |shape.members|
    ensures path in PlacesOfMember(shape.members[i], i) <==> IsRefPlace(shape, path) && path[0] == i
    decreases shape, 0, 0
  {
    var node := shape.members[i].node;
    if node.StructNode? || node.CollectionNode? {
      BelowLists(i, RefPlaces(Within(node)), path);
      if path != [] && path[0] == i {
        if |path| == 1 { assert path[1..] == []; }
        PlacesAreComplete(Within(node), path[1..]);
      }
    } else if path != [] {
      assert |path| == 1 && path[0] == i ==> path == [i];
    }
  }

  lemma BelowAscends(i: nat, paths: seq<seq<nat>>)
    requires PlacesAscend(paths)
    ensures PlacesAscend(Below(i, paths))
  {
    forall j, k | 0 <= j < k < |paths|
      ensures PlaceBefore([i] + paths[j], [i] + paths[k])
    {
      var n: nat :| SplitsAt(paths[j], paths[k], n);
      assert ([i] + paths[j])[..n + 1] == [i] + paths[j][..n] && ([i] + paths[k])[..n + 1] == [i] + paths[k][..n];
      assert SplitsAt([i] + paths[j], [i] + paths[k], n + 1);
    }
  }

  lemma {:induction false} RefPlacesAscend(shape: Shape)
    ensures PlacesAscend(RefPlaces(shape))
    decreases shape, 1, 0
  {
    PlacesUpToAscend(shape, |shape.members|);
  }

  lemma {:induction false} PlacesUpToAscend(shape: Shape, n: nat)
    requires n <= |shape.members|
    ensures PlacesAscend(PlacesUpTo(shape, n))
    decreases shape, 0, n
  {
    if n > 0 {
      var before, here := PlacesUpTo(shape, n - 1), PlacesOfMember(shape.members[n - 1], n - 1);
      PlacesUpToAscend(shape, n - 1);
      MemberPlacesAscend(shape, n - 1);
      forall a, b | a in before && b in here
        ensures PlaceBefore(a, b)
      {
        PlacesUpToComplete(shape, n - 1, a);
        MemberPlacesComplete(shape, n - 1, b);
        assert SplitsAt(a, b, 0);
      }
      JoinAscends(before, here);
    }
  }

  lemma JoinAscends(a: seq<seq<nat>>, b: seq<seq<nat>>)
    requires PlacesAscend(a) && PlacesAscend(b) && forall x, y :: x in a && y in b ==> PlaceBefore(x, y)
    ensures PlacesAscend(a + b)
  {
    forall i, j | 0 <= i < j < |a + b|
      ensures PlaceBefore((a + b)[i], (a + b)[j])
    {
      if i < |a| <= j { assert (a + b)[i] in a && (a + b)[j] in b; }
    }
  }

  lemma {:induction false} MemberPlacesAscend(shape: Shape, i: nat)
    requires i < |shape.members|
    ensures PlacesAscend(PlacesOfMember(shape.members[i], i))
    decreases shape, 0, 0
  {
    var node := shape.members[i].node;
    if node.StructNode? || node.CollectionNode? {
      RefPlacesAscend(Within(node));
      BelowAscends(i, RefPlaces(Within(node)));
    }
  }

  // ---- the walk locates them ---------------------------------------------

  ghost predicate AllLocated(shape: Shape, paths: seq<seq<nat>>, prefix: string, outer: Option<string>, refs: seq<LocatedRef>) {
    |paths| == |refs| && forall j :: 0 <= j < |refs| ==> LocatesIn(shape, paths[j], prefix, outer, refs[j])
  }

  lemma LocatedJoin(shape: Shape, a: seq<seq<nat>>, b: seq<seq<nat>>, prefix: string, outer: Option<string>, x: seq<LocatedRef>, y: seq<LocatedRef>)
    requires AllLocated(shape, a, prefix, outer, x) && AllLocated(shape, b, prefix, outer, y)
    ensures AllLocated(shape, a + b, prefix, outer, x + y)
  {
    forall j | 0 <= j < |x + y|
      ensures LocatesIn(shape, (a + b)[j], prefix, outer, (x + y)[j])
    {
      if j >= |x| { assert (a + b)[j] == b[j - |a|] && (x + y)[j] == y[j - |x|]; }
    }
  }

  lemma {:induction false} WalkLocates(shape: Shape, prefix: string, collection: Option<string>)
    ensures AllLocated(shape, RefPlaces(shape), prefix, NormalizedOwner(collection), RefsOf(shape, prefix, collection))
    decreases shape, 1, 0
  {
    WalkLocatesUpTo(shape, prefix, collection, |shape.members|);
  }

  lemma {:induction false} WalkLocatesUpTo(shape: Shape, prefix: string, collection: Option<string>, n: nat)
    requires n <= |shape.members|
    ensures AllLocated(shape, PlacesUpTo(shape, n), prefix, NormalizedOwner(collection), RefsUpTo(shape, prefix, collection, n))
    decreases shape, 0, n
  {
    if n > 0 {
      var member := shape.members[n - 1];
      WalkLocatesUpTo(shape, prefix, collection, n - 1);
      WalkLocatesMember(shape, prefix, collection, n - 1);
      LocatedJoin(shape, PlacesUpTo(shape, n - 1), PlacesOfMember(member, n - 1), prefix, NormalizedOwner(collection),
                  RefsUpTo(shape, prefix, collection, n - 1), RefsOfMember(member, prefix + "/" + member.name, collection));
    }
  }

  lemma {:induction false} WalkLocatesMember(shape: Shape, prefix: string, collection: Option<string>, i: nat)
    requires i < |shape.members|
    ensures var member := shape.members[i];
      AllLocated(shape, PlacesOfMember(member, i), prefix, NormalizedOwner(collection),
                 RefsOfMember(member, prefix + "/" + member.name, collection))
    decreases shape, 0, 0
  {
    var member := shape.members[i];
    var path, node := prefix + "/" + member.name, member.node;
    if node.StructNode? || node.CollectionNode? {
      var inner := if node.CollectionNode? then Some(path) else collection;
      WalkLocates(Within(node), path, inner);
      forall j | 0 <= j < |RefPlaces(Within(node))|
        ensures LocatesIn(shape, Below(i, RefPlaces(Within(node)))[j], prefix, NormalizedOwner(collection),
                          RefsOf(Within(node), path, inner)[j])
      {
        StepOut(shape, i, RefPlaces(Within(node))[j], prefix, collection, RefsOf(Within(node), path, inner)[j]);
      }
    } else if RefsOfMember(member, path, collection) != [] {
      assert IsPlace(shape, [i]) && NodeAt(shape, [i]) == node;
      assert !exists k: nat :: Encloses(shape, [i], k);
    }
  }

  /** What is located inside a struct or the rows of a collection is located in the shape. */
  lemma StepOut(shape: Shape, i: nat, path: seq<nat>, prefix: string, collection: Option<string>, l: LocatedRef)
    requires i < |shape.members| && (shape.members[i].node.StructNode? || shape.members[i].node.CollectionNode?)
    requires var member := shape.members[i];
      var text := prefix + "/" + member.name;
      LocatesIn(Within(member.node), path, text, NormalizedOwner(if member.node.CollectionNode? then Some(text) else collection), l)
    ensures LocatesIn(shape, [i] + path, prefix, NormalizedOwner(collection), l)
  {
    var member := shape.members[i];
    var whole, text := [i] + path, prefix + "/" + member.name;
    assert whole[1..] == path;
    FirstEncloses(shape, i, path);
    forall k: nat
      ensures Encloses(shape, whole, k + 1) <==> if k == 0 then member.node.CollectionNode? else Encloses(Within(member.node), path, k)
      ensures Encloses(shape, whole, k + 1) && k > 0 ==>
        prefix + PathText(shape, whole[..k + 1]) == text + PathText(Within(member.node), path[..k])
    {
      if k > 0 { LaterEncloses(shape, i, path, k, prefix); }
    }
    if k: nat :| NearestEncloses(Within(member.node), path, k)
                 && l.owner == Some(Normalize(text + PathText(Within(member.node), path[..k]))) {
      assert Encloses(shape, whole, k + 1);
      forall j: nat | j > k + 1
        ensures !Encloses(shape, whole, j)
      {
        assert !Encloses(Within(member.node), path, j - 1);
        assert Encloses(shape, whole, (j - 1) + 1) <==> Encloses(Within(member.node), path, j - 1);
      }
      assert NearestEncloses(shape, whole, k + 1);
    } else {
      assert !exists k: nat :: Encloses(Within(member.node), path, k);
      forall k: nat | Encloses(shape, whole, k)
        ensures k == 1
      {
        Shifts(shape, i, path, k, prefix);
      }
      OnlyFirst(shape, i, path, prefix, collection, l.owner);
    }
  }

  /** No collection further in: the member itself is the nearest one, or nothing is. */
  lemma OnlyFirst(shape: Shape, i: nat, path: seq<nat>, prefix: string, collection: Option<string>, owner: Option<string>)
    requires i < |shape.members| && (shape.members[i].node.StructNode? || shape.members[i].node.CollectionNode?)
    requires IsPlace(Within(shape.members[i].node), path)
    requires forall k: nat :: Encloses(shape, [i] + path, k) ==> k == 1
    requires Encloses(shape, [i] + path, 1) <==> shape.members[i].node.CollectionNode?
    requires var text := prefix + "/" + shape.members[i].name;
      owner == NormalizedOwner(if shape.members[i].node.CollectionNode? then Some(text) else collection)
    ensures OwnedBy(shape, [i] + path, prefix, NormalizedOwner(collection), owner)
  {
    var whole := [i] + path;
    if shape.members[i].node.CollectionNode? {
      assert NearestEncloses(shape, whole, 1);
      assert whole[..1] == [i];
      OwnText(shape, i, prefix);
    }
  }

  lemma OwnText(shape: Shape, i: nat, prefix: string)
    requires i < |shape.members|
    ensures IsPlace(shape, [i]) && prefix + PathText(shape, [i]) == prefix + "/" + shape.members[i].name
  {
    assert PathText(shape, [i]) == "/" + shape.members[i].name + "" == "/" + shape.members[i].name;
    assert prefix + ("/" + shape.members[i].name) == prefix + "/" + shape.members[i].name;
  }

  lemma FirstEncloses(shape: Shape, i: nat, path: seq<nat>)
    requires i < |shape.members| && (shape.members[i].node.StructNode? || shape.members[i].node.CollectionNode?)
    requires IsPlace(Within(shape.members[i].node), path)
    ensures IsPlace(shape, [i] + path) && NodeAt(shape, [i] + path) == NodeAt(Within(shape.members[i].node), path)
    ensures Encloses(shape, [i] + path, 1) <==> shape.members[i].node.CollectionNode?
  {
    assert ([i] + path)[1..] == path && ([i] + path)[..1] == [i];
  }

  lemma LaterEncloses(shape: Shape, i: nat, path: seq<nat>, k: nat, prefix: string)
    requires i < |shape.members| && (shape.members[i].node.StructNode? || shape.members[i].node.CollectionNode?) && k > 0
    ensures Encloses(shape, [i] + path, k + 1) <==> Encloses(Within(shape.members[i].node), path, k)
    ensures Encloses(shape, [i] + path, k + 1) ==>
      prefix + PathText(shape, ([i] + path)[..k + 1])
      == prefix + "/" + shape.members[i].name + PathText(Within(shape.members[i].node), path[..k])
  {
    if k < |path| {
      var part := ([i] + path)[..k + 1];
      assert part == [i] + path[..k] && part[1..] == path[..k];
    }
  }

  lemma Shifts(shape: Shape, i: nat, path: seq<nat>, k: nat, prefix: string)
    requires i < |shape.members| && (shape.members[i].node.StructNode? || shape.members[i].node.CollectionNode?)
    ensures k > 1 ==> (Encloses(shape, [i] + path, k) <==> Encloses(Within(shape.members[i].node), path, k - 1))
  {
    if k > 1 { LaterEncloses(shape, i, path, k - 1, prefix); }
  }

  // ---- what the checker sees ---------------------------------------------

  /** The walk lists the ref of every place once, in the order of the places, as located
      there: with its target, whether it is a member of a set, and the nearest collection
      around it as its owner. */
  lemma RefsAreThePlaces(root: Shape) returns (paths: seq<seq<nat>>)
    ensures PlacesAscend(paths) && forall path :: path in paths <==> IsRefPlace(root, path)
    ensures |paths| == |RefsOf(root, "", None)|
    ensures forall j :: 0 <= j < |paths| ==> Locates(root, paths[j], RefsOf(root, "", None)[j])
  {
    paths := RefPlaces(root);
    RefPlacesAscend(root);
    WalkLocates(root, "", None);
    forall path
      ensures path in paths <==> IsRefPlace(root, path)
    {
      PlacesAreComplete(root, path);
    }
  }

  // ---- the texts that decide ---------------------------------------------

  /** A normalized path is a slash and what stands between the outer white space, and then
      between the outer slashes, of the text. */
  lemma NormalizeExactly(target: string, core: string)
    ensures Normalize(target) == "/" + core
       <==> exists trimmed :: Strips(target, trimmed, IsSpace) && Strips(trimmed, core, c => c == '/')
  {
    var slash := (c: char) => c == '/';
    var trimmed := Trim(target);
    TrimStrips(target, IsSpace);
    TrimStrips(trimmed, slash);
    SlashTrim(trimmed, slash);
    assert Normalize(target)[1..] == TrimEnd(TrimStart(trimmed, slash), slash);
    assert ("/" + core)[1..] == core;
    if other :| Strips(target, other, IsSpace) && Strips(other, core, slash) {
      StrippedIsUnique(target, other, trimmed, IsSpace);
      StrippedIsUnique(trimmed, core, TrimEnd(TrimStart(trimmed, slash), slash), slash);
    }
  }

  lemma SlashTrim(s: string, slash: char -> bool)
    requires forall c :: slash(c) == (c == '/')
    ensures TrimEnd(TrimStart(s, c => c == '/'), c => c == '/') == TrimEnd(TrimStart(s, slash), slash)
  {
    SameStart(s, c => c == '/', slash);
    SameEnd(TrimStart(s, slash), c => c == '/', slash);
  }

  lemma {:induction false} SameStart(s: string, f: char -> bool, g: char -> bool)
    requires forall c :: f(c) == g(c)
    ensures TrimStart(s, f) == TrimStart(s, g)
  {
    if s != [] && f(s[0]) { SameStart(s[1..], f, g); }
  }

  lemma {:induction false} SameEnd(s: string, f: char -> bool, g: char -> bool)
    requires forall c :: f(c) == g(c)
    ensures TrimEnd(s, f) == TrimEnd(s, g)
  {
    if s != [] && f(s[|s| - 1]) { SameEnd(s[..|s| - 1], f, g); }
  }

  /** A ref cascades when its policy is that word between white space. */
  lemma CascadesExactly(r: Reference)
    ensures IsCascade(r) <==> r.onDelete.Some? && Strips(r.onDelete.value, "cascade", IsSpace)
  {
    if r.onDelete.Some? { TrimExactly(r.onDelete.value, "cascade"); }
  }

  /** It crosses modules when the first thing in its target that is no white space is `#`. */
  lemma CrossesExactly(r: LocatedRef)
    ensures CrossesModules(r) <==> exists front, rest :: r.reference.target == front + ("#" + rest) && AllDrop(front, IsSpace)
  {
    var s := r.reference.target;
    var front := StartStrips(s, IsSpace);
    var text := TrimStart(s, IsSpace);
    if CrossesModules(r) { assert text == "#" + text[1..]; }
    if other, rest :| s == other + ("#" + rest) && AllDrop(other, IsSpace) {
      assert s[|other|] == '#';
      NotAllDrop(s, front, text, |other|);
      SameFront(s, front, text, other, "#" + rest);
    }
  }

  lemma NotAllDrop(s: string, front: string, text: string, i: nat)
    requires s == front + text && AllDrop(front, IsSpace) && i < |s| && !IsSpace(s[i])
    ensures text != []
  {
    OutsideDrops(s, front, text, "", IsSpace, i);
    assert s == front + text + "";
  }

  lemma SameFront(s: string, a: string, t: string, b: string, u: string)
    requires s == a + t && AllDrop(a, IsSpace) && t != [] && !IsSpace(t[0])
    requires s == b + u && AllDrop(b, IsSpace) && u != [] && !IsSpace(u[0])
    ensures t == u
  {
    assert s == a + t + "" && s == b + u + "" && s[|a|] == t[0] && s[|b|] == u[0];
    OutsideDrops(s, a, t, "", IsSpace, |b|);
    OutsideDrops(s, b, u, "", IsSpace, |a|);
    assert t == s[|a|..] && u == s[|b|..];
  }
}
