/** Inference of computed-value types by repeated passes (liasse-model, infer.rs). */
module Inference {
  import opened Values

  /** A field is named by its path of member names; `Untyped` is the `json` placeholder of a
      computed value that has not been typed. */
  type Path = seq<string>

  datatype Type = Untyped | Concrete(code: int)

  type Types = map<Path, Type>

  datatype Node = Computed | StructNode(inner: Shape) | CollectionNode(rows: Shape) | OtherNode

  datatype Member = Member(name: string, node: Node)

  datatype Shape = Shape(members: seq<Member>)

  /** Typing one computed expression: the field, the rows of the lexical chain (outermost
      first, its own shape last) and the package root, each as the types in force when that
      row was built. `None` covers every failure and a result of type `json`. */
  type Oracle = (Path, seq<Types>, Types) -> Option<int>

  // ---- the fields of a tree ----------------------------------------------

  function Fields(shape: Shape, path: Path): set<Path>
    decreases shape, 1, 0
  {
    FieldsUpTo(shape, path, |shape.members|)
  }

  function FieldsUpTo(shape: Shape, path: Path, n: nat): set<Path>
    requires n <= |shape.members|
    decreases shape, 0, n
  {
    if n == 0 then {}
    else FieldsUpTo(shape, path, n - 1) + FieldsOfMember(shape.members[n - 1], path + [shape.members[n - 1].name])
  }

  function FieldsOfMember(member: Member, path: Path): set<Path>
    decreases member, 2, 0
  {
    match member.node
    case Computed => {path}
    case StructNode(inner) => Fields(inner, path)
    case CollectionNode(rows) => Fields(rows, path)
    case OtherNode => {}
  }

  /** The names lead through structs and collections to a computed value. */
  ghost predicate Declares(shape: Shape, names: Path)
    decreases |names|
  {
    names != [] && exists i :: 0 <= i < |shape.members| && MemberDeclares(shape.members[i], names)
  }

  ghost predicate MemberDeclares(member: Member, names: Path)
    requires names != []
    decreases |names|, 0
  {
    && member.name == names[0]
    && match member.node
       case Computed => |names| == 1
       case StructNode(inner) => |names| > 1 && Declares(inner, names[1..])
       case CollectionNode(rows) => |names| > 1 && Declares(rows, names[1..])
       case OtherNode => false
  }

  /** The fields that are typed are exactly the computed values of the tree, at any depth. */
  lemma {:induction false} FieldsAreTheComputed(shape: Shape, path: Path, f: Path)
    ensures f in Fields(shape, path) <==> |f| >= |path| && f[..|path|] == path && Declares(shape, f[|path|..])
    decreases shape, 1, 0
  {
    FieldsUpToComputed(shape, path, |shape.members|, f);
  }

  lemma {:induction false} FieldsUpToComputed(shape: Shape, path: Path, n: nat, f: Path)
    requires n <= |shape.members|
    ensures f in FieldsUpTo(shape, path, n)
       <==> |f| > |path| && f[..|path|] == path && exists i :: 0 <= i < n && MemberDeclares(shape.members[i], f[|path|..])
    decreases shape, 0, n
  {
    if n > 0 {
      FieldsUpToComputed(shape, path, n - 1, f);
      MemberFields(shape, path, n - 1, f);
    }
  }

  lemma {:induction false} MemberFields(shape: Shape, path: Path, i: nat, f: Path)
    requires i < |shape.members|
    ensures f in FieldsOfMember(shape.members[i], path + [shape.members[i].name])
       <==> |f| > |path| && f[..|path|] == path && MemberDeclares(shape.members[i], f[|path|..])
    decreases shape, 0, 0
  {
    var member := shape.members[i];
    var here := path + [member.name];
    if |f| > |path| {
      assert f[..|path| + 1] == f[..|path|] + [f[|path|]] && f[|path|..][0] == f[|path|];
      assert f[|path|..][1..] == f[|here|..];
      assert |f| == |here| ==> f[..|here|] == f;
      assert here[..|path|] == path && here[|path|] == member.name;
    }
    match member.node
    case StructNode(inner) => FieldsAreTheComputed(inner, here, f);
    case CollectionNode(rows) => FieldsAreTheComputed(rows, here, f);
    case _ =>
  }

  function Pending(types: Types, fields: set<Path>): set<Path> {
    set f | f in fields && f in types && types[f] == Untyped
  }

  // ---- one pass, as a function -------------------------------------------

  function SetComputedType(types: Types, f: Path, code: int): Types {
    if f in types && types[f] == Untyped then types[f := Concrete(code)] else types
  }

  predicate IsPending(member: Member, path: Path, types: Types) {
    member.node.Computed? && path + [member.name] in types && types[path + [member.name]] == Untyped
  }

  /** Type the still-pending fields of one shape, all against the rows built on entry. */
  function RefineFields(infer: Oracle, chain: seq<Types>, root: Types, shape: Shape, path: Path, entry: Types, n: nat): Types
    requires n <= |shape.members|
  {
    if n == 0 then entry
    else
      var types := RefineFields(infer, chain, root, shape, path, entry, n - 1);
      var f := path + [shape.members[n - 1].name];
      if IsPending(shape.members[n - 1], path, entry) && infer(f, chain, root).Some?
      then SetComputedType(types, f, infer(f, chain, root).value)
      else types
  }

  /** Within a pass a pending field of the shape is typed exactly when its expression can be
      typed against the rows as they stood on entry: a sibling typed in the same pass is not
      seen. */
  lemma {:induction false} SiblingsAreNotSeen(infer: Oracle, chain: seq<Types>, root: Types, shape: Shape, path: Path, entry: Types, n: nat, i: nat)
    requires i < n <= |shape.members| && IsPending(shape.members[i], path, entry)
    ensures var f := path + [shape.members[i].name];
      var t := RefineFields(infer, chain, root, shape, path, entry, n);
      f in t && t[f] == if infer(f, chain, root).Some? then Concrete(infer(f, chain, root).value) else Untyped
    decreases n
  {
    var f := path + [shape.members[i].name];
    RefinedOnce(infer, chain, root, shape, path, entry, n - 1, f);
    if i < n - 1 { SiblingsAreNotSeen(infer, chain, root, shape, path, entry, n - 1, i); }
  }

  lemma {:induction false} RefinedOnce(infer: Oracle, chain: seq<Types>, root: Types, shape: Shape, path: Path, entry: Types, n: nat, f: Path)
    requires n <= |shape.members| && f in entry && entry[f] == Untyped
    ensures var t := RefineFields(infer, chain, root, shape, path, entry, n);
      f in t && (t[f] == Untyped || (infer(f, chain, root).Some? && t[f] == Concrete(infer(f, chain, root).value)))
  {
    if n > 0 { RefinedOnce(infer, chain, root, shape, path, entry, n - 1, f); }
  }

  function RefineKids(infer: Oracle, ancestors: seq<Types>, root: Types, shape: Shape, path: Path, types: Types, n: nat): Types
    requires n <= |shape.members|
    decreases shape, 0, n
  {
    if n == 0 then types
    else
      RefineKid(infer, ancestors, root, shape.members[n - 1], path + [shape.members[n - 1].name],
                RefineKids(infer, ancestors, root, shape, path, types, n - 1))
  }

  function RefineKid(infer: Oracle, ancestors: seq<Types>, root: Types, member: Member, path: Path, before: Types): Types
    decreases member, 2, 0
  {
    match member.node
    case StructNode(inner) => RefineShape(infer, ancestors, root, inner, path, before)
    case CollectionNode(rows) => RefineShape(infer, ancestors, root, rows, path, before)
    case Computed => before
    case OtherNode => before
  }

  function RefineShape(infer: Oracle, ancestors: seq<Types>, root: Types, shape: Shape, path: Path, types: Types): Types
    decreases shape, 1, 0
  {
    var refined := RefineFields(infer, ancestors + [types], root, shape, path, types, |shape.members|);
    RefineKids(infer, ancestors + [refined], root, shape, path, refined, |shape.members|)
  }

  // ---- what a pass keeps -------------------------------------------------

  /** `t` types the same fields as `s`, and every field `s` had typed as `s` did. */
  ghost predicate Grows(s: Types, t: Types) {
    s.Keys == t.Keys && forall f :: f in s && s[f] != Untyped ==> t[f] == s[f]
  }

  /** ... and touches nothing outside `fields`. */
  ghost predicate Refines(s: Types, t: Types, fields: set<Path>) {
    Grows(s, t) && forall f :: f in s && f !in fields ==> t[f] == s[f]
  }

  lemma GrowsTwice(a: Types, b: Types, c: Types, fields: set<Path>)
    requires Refines(a, b, fields) && Refines(b, c, fields)
    ensures Refines(a, c, fields) && (a == c ==> a == b)
  {
    if a != b {
      var f :| f in a && a[f] != b[f];
      assert a[f] == Untyped && c[f] == b[f];
    }
  }

  lemma WithinFields(shape: Shape, path: Path, n: nat, i: nat)
    requires i < n <= |shape.members|
    ensures FieldsOfMember(shape.members[i], path + [shape.members[i].name]) <= FieldsUpTo(shape, path, n)
  {
  }

  lemma {:induction false} RefineFieldsGrows(infer: Oracle, chain: seq<Types>, root: Types, shape: Shape, path: Path, entry: Types, n: nat)
    requires n <= |shape.members|
    ensures Refines(entry, RefineFields(infer, chain, root, shape, path, entry, n), Fields(shape, path))
  {
    if n > 0 {
      RefineFieldsGrows(infer, chain, root, shape, path, entry, n - 1);
      WithinFields(shape, path, |shape.members|, n - 1);
    }
  }

  lemma {:induction false} RefineKidsGrows(infer: Oracle, ancestors: seq<Types>, root: Types, shape: Shape, path: Path, types: Types, n: nat)
    requires n <= |shape.members|
    ensures Refines(types, RefineKids(infer, ancestors, root, shape, path, types, n), Fields(shape, path))
    decreases shape, 0, n
  {
    if n > 0 {
      var before := RefineKids(infer, ancestors, root, shape, path, types, n - 1);
      RefineKidsGrows(infer, ancestors, root, shape, path, types, n - 1);
      RefineKidGrows(infer, ancestors, root, shape, path, before, n - 1);
      GrowsTwice(types, before, RefineKids(infer, ancestors, root, shape, path, types, n), Fields(shape, path));
    }
  }

  lemma {:induction false} RefineKidGrows(infer: Oracle, ancestors: seq<Types>, root: Types, shape: Shape, path: Path, before: Types, i: nat)
    requires i < |shape.members|
    ensures Refines(before, RefineKid(infer, ancestors, root, shape.members[i], path + [shape.members[i].name], before),
                    Fields(shape, path))
    decreases shape, 0, i
  {
    var member := shape.members[i];
    WithinFields(shape, path, |shape.members|, i);
    if member.node.StructNode? {
      RefineShapeGrows(infer, ancestors, root, member.node.inner, path + [member.name], before);
    } else if member.node.CollectionNode? {
      RefineShapeGrows(infer, ancestors, root, member.node.rows, path + [member.name], before);
    }
  }

  /** A pass changes pending fields of its own shape only, and only from `json`. */
  lemma {:induction false} RefineShapeGrows(infer: Oracle, ancestors: seq<Types>, root: Types, shape: Shape, path: Path, types: Types)
    ensures Refines(types, RefineShape(infer, ancestors, root, shape, path, types), Fields(shape, path))
    decreases shape, 1, 0
  {
    var refined := RefineFields(infer, ancestors + [types], root, shape, path, types, |shape.members|);
    RefineFieldsGrows(infer, ancestors + [types], root, shape, path, types, |shape.members|);
    RefineKidsGrows(infer, ancestors + [refined], root, shape, path, refined, |shape.members|);
    GrowsTwice(types, refined, RefineShape(infer, ancestors, root, shape, path, types), Fields(shape, path));
  }

  // ---- the pending count -------------------------------------------------

  function PendingCount(shape: Shape, path: Path, types: Types): nat
    decreases shape, 1, 0
  {
    PendingCountUpTo(shape, path, types, |shape.members|)
  }

  function PendingCountUpTo(shape: Shape, path: Path, types: Types, n: nat): nat
    requires n <= |shape.members|
    decreases shape, 0, n
  {
    if n == 0 then 0
    else
      var member := shape.members[n - 1];
      PendingCountUpTo(shape, path, types, n - 1) + PendingCountOf(member, path + [member.name], types)
  }

  function PendingCountOf(member: Member, path: Path, types: Types): nat
    decreases member, 2, 0
  {
    match member.node
    case Computed => if path in types && types[path] == Untyped then 1 else 0
    case StructNode(inner) => PendingCount(inner, path, types)
    case CollectionNode(rows) => PendingCount(rows, path, types)
    case OtherNode => 0
  }

  lemma UnionSize(a: set<Path>, b: set<Path>)
    ensures |a + b| <= |a| + |b|
  {
    assert a + b == a + (b - a);
    assert |a + (b - a)| == |a| + |b - a|;
    assert b == (b - a) + (b * a);
  }

  lemma {:induction false} PendingCountBounds(shape: Shape, path: Path, types: Types, n: nat)
    requires n <= |shape.members|
    ensures |Pending(types, FieldsUpTo(shape, path, n))| <= PendingCountUpTo(shape, path, types, n)
    decreases shape, 0, n
  {
    if n > 0 {
      var here := path + [shape.members[n - 1].name];
      PendingCountBounds(shape, path, types, n - 1);
      PendingCountOfBounds(shape.members[n - 1], here, types);
      var a, b := Pending(types, FieldsUpTo(shape, path, n - 1)), Pending(types, FieldsOfMember(shape.members[n - 1], here));
      assert Pending(types, FieldsUpTo(shape, path, n)) == a + b;
      UnionSize(a, b);
    }
  }

  lemma {:induction false} PendingCountOfBounds(member: Member, path: Path, types: Types)
    ensures |Pending(types, FieldsOfMember(member, path))| <= PendingCountOf(member, path, types)
    decreases member, 2, 0
  {
    match member.node
    case StructNode(inner) => PendingCountBounds(inner, path, types, |inner.members|);
    case CollectionNode(rows) => PendingCountBounds(rows, path, types, |rows.members|);
    case OtherNode =>
    case Computed =>
      if path in types && types[path] == Untyped {
        assert Pending(types, FieldsOfMember(member, path)) == {path};
      } else {
        assert Pending(types, FieldsOfMember(member, path)) == {};
      }
  }

  lemma SmallerSet(a: set<Path>, b: set<Path>)
    requires a < b
    ensures |a| < |b|
  {
    assert b == a + (b - a) && b - a != {};
  }

  /** A pass that changes anything leaves strictly fewer fields pending. */
  lemma PendingShrinks(fields: set<Path>, s: Types, t: Types)
    requires Refines(s, t, fields) && s != t
    ensures |Pending(t, fields)| < |Pending(s, fields)|
  {
    var f :| f in s && s[f] != t[f];
    assert f in Pending(s, fields) && f !in Pending(t, fields);
    assert Pending(t, fields) <= Pending(s, fields);
    SmallerSet(Pending(t, fields), Pending(s, fields));
  }

  // ---- fixpoints ---------------------------------------------------------

  /** The chain a field sees once every row is built from the same types. */
  function Uniform(types: Types, n: nat): (chain: seq<Types>)
    ensures |chain| == n
  {
    seq(n, _ => types)
  }

  /** No field still pending can be typed. */
  ghost predicate Stable(infer: Oracle, fields: set<Path>, types: Types) {
    forall f :: f in fields && f in types && types[f] == Untyped ==> infer(f, Uniform(types, |f|), types).None?
  }

  lemma {:induction false} UnchangedFields(infer: Oracle, chain: seq<Types>, root: Types, shape: Shape, path: Path, entry: Types, n: nat, i: nat)
    requires i < n <= |shape.members|
    requires RefineFields(infer, chain, root, shape, path, entry, n) == entry
    ensures
      var f := path + [shape.members[i].name];
      shape.members[i].node.Computed? && f in entry && entry[f] == Untyped ==> infer(f, chain, root).None?
    decreases n
  {
    RefineFieldsGrows(infer, chain, root, shape, path, entry, n - 1);
    var before := RefineFields(infer, chain, root, shape, path, entry, n - 1);
    assert before == entry;
    if i < n - 1 {
      UnchangedFields(infer, chain, root, shape, path, entry, n - 1, i);
    }
  }

  /** A pass over uniform rows that changes nothing has nothing left to type. */
  lemma {:induction false} UnchangedIsStable(infer: Oracle, shape: Shape, path: Path, types: Types)
    requires RefineShape(infer, Uniform(types, |path|), types, shape, path, types) == types
    ensures Stable(infer, Fields(shape, path), types)
    decreases shape, 1, 0
  {
    var ancestors := Uniform(types, |path|);
    var refined := RefineFields(infer, ancestors + [types], types, shape, path, types, |shape.members|);
    RefineFieldsGrows(infer, ancestors + [types], types, shape, path, types, |shape.members|);
    RefineKidsGrows(infer, ancestors + [refined], types, shape, path, refined, |shape.members|);
    GrowsTwice(types, refined, types, Fields(shape, path));
    UnchangedKids(infer, shape, path, types, |shape.members|);
  }

  lemma {:induction false} UnchangedKids(infer: Oracle, shape: Shape, path: Path, types: Types, n: nat)
    requires n <= |shape.members|
    requires RefineFields(infer, Uniform(types, |path|) + [types], types, shape, path, types, |shape.members|) == types
    requires RefineKids(infer, Uniform(types, |path|) + [types], types, shape, path, types, n) == types
    ensures Stable(infer, FieldsUpTo(shape, path, n), types)
    decreases shape, 0, n
  {
    if n > 0 {
      var chain := Uniform(types, |path|) + [types];
      var before := RefineKids(infer, chain, types, shape, path, types, n - 1);
      RefineKidsGrows(infer, chain, types, shape, path, types, n - 1);
      RefineKidGrows(infer, chain, types, shape, path, before, n - 1);
      GrowsTwice(types, before, types, Fields(shape, path));
      UnchangedKids(infer, shape, path, types, n - 1);
      var member := shape.members[n - 1];
      var here := path + [member.name];
      assert chain == Uniform(types, |here|);
      if member.node.StructNode? {
        UnchangedIsStable(infer, member.node.inner, here, types);
      } else if member.node.CollectionNode? {
        UnchangedIsStable(infer, member.node.rows, here, types);
      } else {
        UnchangedFields(infer, chain, types, shape, path, types, |shape.members|, n - 1);
      }
    }
  }

  // ---- least typings -----------------------------------------------------

  ghost predicate RowsGrow(chain: seq<Types>, t: Types) {
    forall i :: 0 <= i < |chain| ==> Grows(chain[i], t)
  }

  /** Refining the rows an expression reads never loses or changes its type. */
  ghost predicate Monotone(infer: Oracle) {
    forall f, chain, root, t :: Lifts(infer, f, chain, root, t)
  }

  ghost predicate Lifts(infer: Oracle, f: Path, chain: seq<Types>, root: Types, t: Types) {
    |chain| == |f| && RowsGrow(chain, t) && Grows(root, t) && infer(f, chain, root).Some? ==>
      infer(f, Uniform(t, |f|), t) == infer(f, chain, root)
  }

  /** `types` refines `init` and every field pending in `init` that can be typed is. */
  ghost predicate Closed(infer: Oracle, fields: set<Path>, init: Types, types: Types) {
    Grows(init, types)
    && forall f :: f in fields && f in init && init[f] == Untyped && infer(f, Uniform(types, |f|), types).Some? ==>
      types[f] == Concrete(infer(f, Uniform(types, |f|), types).value)
  }

  /** Every field typed since `init` has the type its expression has now. */
  ghost predicate Supported(infer: Oracle, fields: set<Path>, init: Types, types: Types) {
    Grows(init, types)
    && forall f :: f in fields && f in init && init[f] == Untyped && types[f] != Untyped ==>
      infer(f, Uniform(types, |f|), types) == Some(types[f].code)
  }

  ghost predicate LeastClosed(infer: Oracle, fields: set<Path>, init: Types, types: Types) {
    Closed(infer, fields, init, types) && forall t :: Closed(infer, fields, init, t) ==> Grows(types, t)
  }

  /** The least closed typing is one typing, whatever tree order it was reached by. */
  lemma LeastIsUnique(infer: Oracle, fields: set<Path>, init: Types, s: Types, t: Types)
    requires LeastClosed(infer, fields, init, s) && LeastClosed(infer, fields, init, t)
    ensures s == t
  {
    assert Grows(s, t) && Grows(t, s);
    assert s.Keys == t.Keys;
    forall f | f in s
      ensures s[f] == t[f]
    {
    }
  }

  lemma SupportedGrows(infer: Oracle, fields: set<Path>, init: Types, s: Types, t: Types, f: Path)
    requires Monotone(infer) && Supported(infer, fields, init, s) && Grows(s, t)
    requires f in fields && f in init && init[f] == Untyped && s[f] != Untyped
    ensures infer(f, Uniform(t, |f|), t) == Some(t[f].code)
  {
    assert RowsGrow(Uniform(s, |f|), t) && Lifts(infer, f, Uniform(s, |f|), s, t);
  }

  lemma GrowsOn(s: Types, t: Types, u: Types)
    requires Grows(s, t) && Grows(t, u)
    ensures Grows(s, u)
  {
  }

  lemma RowsGrowOn(chain: seq<Types>, s: Types, t: Types)
    requires RowsGrow(chain, s) && Grows(s, t)
    ensures RowsGrow(chain, t) && RowsGrow(chain + [s], t) && RowsGrow(chain + [t], t)
  {
    forall i | 0 <= i < |chain|
      ensures Grows(chain[i], t)
    {
      GrowsOn(chain[i], s, t);
    }
  }

  lemma SupportedStep(infer: Oracle, chain: seq<Types>, root: Types, s: Types, g: Path, init: Types, fields: set<Path>)
    requires Monotone(infer) && Supported(infer, fields, init, s)
    requires |chain| == |g| && RowsGrow(chain, s) && Grows(root, s)
    requires g in s && s[g] == Untyped && infer(g, chain, root).Some?
    ensures Supported(infer, fields, init, s[g := Concrete(infer(g, chain, root).value)])
  {
    var t := s[g := Concrete(infer(g, chain, root).value)];
    assert Grows(s, t);
    RowsGrowOn(chain, s, t);
    GrowsOn(root, s, t);
    GrowsOn(init, s, t);
    forall f | f in fields && f in init && init[f] == Untyped && t[f] != Untyped
      ensures infer(f, Uniform(t, |f|), t) == Some(t[f].code)
    {
      if f != g {
        SupportedGrows(infer, fields, init, s, t, f);
      } else {
        assert Lifts(infer, g, chain, root, t);
      }
    }
  }

  lemma {:induction false} FieldsSupported(infer: Oracle, chain: seq<Types>, root: Types, shape: Shape, path: Path, entry: Types, n: nat,
                                           init: Types, fields: set<Path>)
    requires n <= |shape.members| && Monotone(infer) && Supported(infer, fields, init, entry)
    requires |chain| == |path| + 1 && RowsGrow(chain, entry) && Grows(root, entry)
    ensures Supported(infer, fields, init, RefineFields(infer, chain, root, shape, path, entry, n))
  {
    if n > 0 {
      FieldsSupported(infer, chain, root, shape, path, entry, n - 1, init, fields);
      NextFieldSupported(infer, chain, root, shape, path, entry, n, init, fields);
    }
  }

  lemma NextFieldSupported(infer: Oracle, chain: seq<Types>, root: Types, shape: Shape, path: Path, entry: Types, n: nat,
                           init: Types, fields: set<Path>)
    requires 0 < n <= |shape.members| && Monotone(infer)
    requires |chain| == |path| + 1 && RowsGrow(chain, entry) && Grows(root, entry)
    requires Supported(infer, fields, init, RefineFields(infer, chain, root, shape, path, entry, n - 1))
    ensures Supported(infer, fields, init, RefineFields(infer, chain, root, shape, path, entry, n))
  {
    RefineFieldsGrows(infer, chain, root, shape, path, entry, n - 1);
    var s := RefineFields(infer, chain, root, shape, path, entry, n - 1);
    var f := path + [shape.members[n - 1].name];
    if IsPending(shape.members[n - 1], path, entry) && infer(f, chain, root).Some? && s[f] == Untyped {
      RowsGrowOn(chain, entry, s);
      GrowsOn(root, entry, s);
      SupportedStep(infer, chain, root, s, f, init, fields);
    }
  }

  lemma {:induction false} KidsSupported(infer: Oracle, ancestors: seq<Types>, root: Types, shape: Shape, path: Path, types: Types, n: nat,
                                         init: Types, fields: set<Path>)
    requires n <= |shape.members| && Monotone(infer) && Supported(infer, fields, init, types)
    requires |ancestors| == |path| + 1 && RowsGrow(ancestors, types) && Grows(root, types)
    ensures Supported(infer, fields, init, RefineKids(infer, ancestors, root, shape, path, types, n))
    decreases shape, 0, n
  {
    if n > 0 {
      KidsSupported(infer, ancestors, root, shape, path, types, n - 1, init, fields);
      var before := RefineKids(infer, ancestors, root, shape, path, types, n - 1);
      RefineKidsGrows(infer, ancestors, root, shape, path, types, n - 1);
      RowsGrowOn(ancestors, types, before);
      GrowsOn(root, types, before);
      var member := shape.members[n - 1];
      if member.node.StructNode? {
        ShapeSupported(infer, ancestors, root, member.node.inner, path + [member.name], before, init, fields);
      } else if member.node.CollectionNode? {
        ShapeSupported(infer, ancestors, root, member.node.rows, path + [member.name], before, init, fields);
      }
    }
  }

  /** Under a monotone oracle a pass leaves every typed field with its expression's type. */
  lemma {:induction false} ShapeSupported(infer: Oracle, ancestors: seq<Types>, root: Types, shape: Shape, path: Path, types: Types,
                                          init: Types, fields: set<Path>)
    requires Monotone(infer) && Supported(infer, fields, init, types)
    requires |ancestors| == |path| && RowsGrow(ancestors, types) && Grows(root, types)
    ensures Supported(infer, fields, init, RefineShape(infer, ancestors, root, shape, path, types))
    decreases shape, 1, 0
  {
    var refined := RefineFields(infer, ancestors + [types], root, shape, path, types, |shape.members|);
    FieldsSupported(infer, ancestors + [types], root, shape, path, types, |shape.members|, init, fields);
    RefineFieldsGrows(infer, ancestors + [types], root, shape, path, types, |shape.members|);
    RowsGrowOn(ancestors, types, refined);
    GrowsOn(root, types, refined);
    KidsSupported(infer, ancestors + [refined], root, shape, path, refined, |shape.members|, init, fields);
  }

  /** Whatever any rows below `t` type, `t` has typed. */
  ghost predicate Absorbs(infer: Oracle, fields: set<Path>, init: Types, t: Types) {
    forall f, chain, root :: f in fields && f in init && init[f] == Untyped ==> AbsorbsAt(infer, f, chain, root, t)
  }

  ghost predicate AbsorbsAt(infer: Oracle, f: Path, chain: seq<Types>, root: Types, t: Types) {
    |chain| == |f| && RowsGrow(chain, t) && Grows(root, t) && infer(f, chain, root).Some? ==>
      f in t && t[f] == Concrete(infer(f, chain, root).value)
  }

  lemma ClosedAbsorbs(infer: Oracle, fields: set<Path>, init: Types, t: Types)
    requires Monotone(infer) && Closed(infer, fields, init, t)
    ensures Absorbs(infer, fields, init, t)
  {
    forall f, chain, root | f in fields && f in init && init[f] == Untyped
      ensures AbsorbsAt(infer, f, chain, root, t)
    {
      assert Lifts(infer, f, chain, root, t);
    }
  }

  /** What makes a pass stay below a closed typing `t`: all it reads is below `t`. */
  ghost predicate Below(infer: Oracle, chain: seq<Types>, root: Types, types: Types, init: Types, fields: set<Path>, t: Types) {
    && Absorbs(infer, fields, init, t)
    && Grows(init, types) && Grows(types, t) && RowsGrow(chain, t) && Grows(root, t)
  }

  lemma BelowStep(infer: Oracle, chain: seq<Types>, root: Types, types: Types, g: Path, init: Types, fields: set<Path>, t: Types)
    requires Below(infer, chain, root, types, init, fields, t) && |chain| == |g|
    requires g in fields && g in types && types[g] == Untyped && infer(g, chain, root).Some?
    ensures g in t && t[g] == Concrete(infer(g, chain, root).value)
  {
    assert init[g] == Untyped && AbsorbsAt(infer, g, chain, root, t);
  }

  lemma BelowOn(infer: Oracle, chain: seq<Types>, root: Types, s: Types, types: Types, init: Types, fields: set<Path>, t: Types)
    requires Below(infer, chain, root, s, init, fields, t) && Grows(s, types) && Grows(types, t)
    ensures Below(infer, chain, root, types, init, fields, t) && Below(infer, chain + [types], root, types, init, fields, t)
  {
    GrowsOn(init, s, types);
  }

  lemma {:induction false} FieldsBelow(infer: Oracle, chain: seq<Types>, root: Types, shape: Shape, path: Path, entry: Types, n: nat,
                                       init: Types, fields: set<Path>, t: Types)
    requires n <= |shape.members| && |chain| == |path| + 1 && Fields(shape, path) <= fields
    requires Below(infer, chain, root, entry, init, fields, t)
    ensures Grows(RefineFields(infer, chain, root, shape, path, entry, n), t)
  {
    if n > 0 {
      FieldsBelow(infer, chain, root, shape, path, entry, n - 1, init, fields, t);
      var f := path + [shape.members[n - 1].name];
      if IsPending(shape.members[n - 1], path, entry) && infer(f, chain, root).Some? {
        WithinFields(shape, path, |shape.members|, n - 1);
        assert f in fields;
        BelowStep(infer, chain, root, entry, f, init, fields, t);
      }
    }
  }

  lemma {:induction false} KidsBelow(infer: Oracle, ancestors: seq<Types>, root: Types, shape: Shape, path: Path, types: Types, n: nat,
                                     init: Types, fields: set<Path>, t: Types)
    requires n <= |shape.members| && |ancestors| == |path| + 1 && Fields(shape, path) <= fields
    requires Below(infer, ancestors, root, types, init, fields, t)
    ensures Grows(RefineKids(infer, ancestors, root, shape, path, types, n), t)
    decreases shape, 0, n, 1
  {
    if n > 0 {
      KidsBelow(infer, ancestors, root, shape, path, types, n - 1, init, fields, t);
      NextKidBelow(infer, ancestors, root, shape, path, types, n, init, fields, t);
    }
  }

  lemma {:induction false} NextKidBelow(infer: Oracle, ancestors: seq<Types>, root: Types, shape: Shape, path: Path, types: Types, n: nat,
                                        init: Types, fields: set<Path>, t: Types)
    requires 0 < n <= |shape.members| && |ancestors| == |path| + 1 && Fields(shape, path) <= fields
    requires Below(infer, ancestors, root, types, init, fields, t)
    requires Grows(RefineKids(infer, ancestors, root, shape, path, types, n - 1), t)
    ensures Grows(RefineKids(infer, ancestors, root, shape, path, types, n), t)
    decreases shape, 0, n, 0
  {
    var before := RefineKids(infer, ancestors, root, shape, path, types, n - 1);
    RefineKidsGrows(infer, ancestors, root, shape, path, types, n - 1);
    BelowOn(infer, ancestors, root, types, before, init, fields, t);
    KidBelow(infer, ancestors, root, shape, path, before, n - 1, init, fields, t);
  }

  lemma {:induction false} KidBelow(infer: Oracle, ancestors: seq<Types>, root: Types, shape: Shape, path: Path, before: Types, i: nat,
                                    init: Types, fields: set<Path>, t: Types)
    requires i < |shape.members| && |ancestors| == |path| + 1 && Fields(shape, path) <= fields
    requires Below(infer, ancestors, root, before, init, fields, t)
    ensures Grows(RefineKid(infer, ancestors, root, shape.members[i], path + [shape.members[i].name], before), t)
    decreases shape, 0, i, 2
  {
    WithinFields(shape, path, |shape.members|, i);
    var member := shape.members[i];
    if member.node.StructNode? {
      ShapeBelow(infer, ancestors, root, member.node.inner, path + [member.name], before, init, fields, t);
    } else if member.node.CollectionNode? {
      ShapeBelow(infer, ancestors, root, member.node.rows, path + [member.name], before, init, fields, t);
    }
  }

  /** A pass never types more than a closed typing does. */
  lemma {:induction false} ShapeBelow(infer: Oracle, ancestors: seq<Types>, root: Types, shape: Shape, path: Path, types: Types,
                                      init: Types, fields: set<Path>, t: Types)
    requires |ancestors| == |path| && Fields(shape, path) <= fields
    requires Below(infer, ancestors, root, types, init, fields, t)
    ensures Grows(RefineShape(infer, ancestors, root, shape, path, types), t)
    decreases shape, 1, 0
  {
    var refined := RefineFields(infer, ancestors + [types], root, shape, path, types, |shape.members|);
    FieldsBelow(infer, ancestors + [types], root, shape, path, types, |shape.members|, init, fields, t);
    RefineFieldsGrows(infer, ancestors + [types], root, shape, path, types, |shape.members|);
    BelowOn(infer, ancestors, root, types, refined, init, fields, t);
    KidsBelow(infer, ancestors + [refined], root, shape, path, refined, |shape.members|, init, fields, t);
  }

  // ---- member order ------------------------------------------------------

  /** Every member of `a` is a member of `b`, at every depth and in any order. */
  ghost predicate Covered(a: Shape, b: Shape) {
    forall i :: 0 <= i < |a.members| ==> CoveredMember(a.members[i], b)
  }

  ghost predicate CoveredMember(m: Member, b: Shape) {
    exists j :: 0 <= j < |b.members| && m.name == b.members[j].name && CoveredNode(m.node, b.members[j].node)
  }

  ghost predicate CoveredNode(m: Node, n: Node) {
    match m
    case StructNode(inner) => n.StructNode? && Covered(inner, n.inner)
    case CollectionNode(rows) => n.CollectionNode? && Covered(rows, n.rows)
    case Computed => n.Computed?
    case OtherNode => n.OtherNode?
  }

  lemma {:induction false} FieldFrom(shape: Shape, path: Path, n: nat, f: Path) returns (i: nat)
    requires n <= |shape.members| && f in FieldsUpTo(shape, path, n)
    ensures i < n && f in FieldsOfMember(shape.members[i], path + [shape.members[i].name])
  {
    i := n - 1;
    if f !in FieldsOfMember(shape.members[i], path + [shape.members[i].name]) {
      i := FieldFrom(shape, path, n - 1, f);
    }
  }

  lemma {:induction false} CoveredField(a: Shape, b: Shape, path: Path, f: Path)
    requires Covered(a, b) && f in Fields(a, path)
    ensures f in Fields(b, path)
    decreases a
  {
    var i := FieldFrom(a, path, |a.members|, f);
    var m := a.members[i];
    assert CoveredMember(m, b);
    var j :| 0 <= j < |b.members| && m.name == b.members[j].name && CoveredNode(m.node, b.members[j].node);
    WithinFields(b, path, |b.members|, j);
    if m.node.StructNode? {
      CoveredField(m.node.inner, b.members[j].node.inner, path + [m.name], f);
    } else if m.node.CollectionNode? {
      CoveredField(m.node.rows, b.members[j].node.rows, path + [m.name], f);
    }
  }

  /** Trees that differ in member order only get the same types: the least closed typing
      is unique and speaks of the set of fields. */
  lemma OrderDoesNotMatter(infer: Oracle, a: Shape, b: Shape, init: Types, s: Types, t: Types)
    requires Covered(a, b) && Covered(b, a)
    requires LeastClosed(infer, Fields(a, []), init, s) && LeastClosed(infer, Fields(b, []), init, t)
    ensures s == t
  {
    forall f | f in Fields(a, []) || f in Fields(b, [])
      ensures f in Fields(a, []) && f in Fields(b, [])
    {
      if f in Fields(a, []) { CoveredField(a, b, [], f); } else { CoveredField(b, a, [], f); }
    }
    assert Fields(a, []) == Fields(b, []);
    LeastIsUnique(infer, Fields(a, []), init, s, t);
  }

  // ---- the passes --------------------------------------------------------

  /** The tree whose computed field types the passes rewrite in place. */
  class Inference {
    const root: Shape
    const infer: Oracle
    var types: Types

    constructor (root: Shape, infer: Oracle, types: Types)
      ensures this.root == root && this.infer == infer && this.types == types
    {
      this.root, this.infer, this.types := root, infer, types;
    }

    /** `refine_shape`: the shape's own pending fields, then its structs and collections. */
    method RefinePass(ancestors: seq<Types>, rootRow: Types, shape: Shape, path: Path) returns (changed: bool)
      modifies this`types
      ensures types == RefineShape(infer, ancestors, rootRow, shape, path, old(types))
      ensures changed <==> types != old(types)
      decreases shape
    {
      var chain := ancestors + [types];
      ghost var entry := types;
      ghost var fields := Fields(shape, path);
      changed := RefineOwn(chain, rootRow, shape, path);
      ghost var refined := types;
      RefineFieldsGrows(infer, chain, rootRow, shape, path, entry, |shape.members|);
      var childAncestors := ancestors + [types];
      for n := 0 to |shape.members|
        invariant types == RefineKids(infer, childAncestors, rootRow, shape, path, refined, n)
        invariant Refines(entry, types, fields) && (changed <==> types != entry)
      {
        var member := shape.members[n];
        var more := false;
        ghost var before := types;
        if member.node.StructNode? {
          more := RefinePass(childAncestors, rootRow, member.node.inner, path + [member.name]);
        } else if member.node.CollectionNode? {
          more := RefinePass(childAncestors, rootRow, member.node.rows, path + [member.name]);
        }
        assert types == RefineKid(infer, childAncestors, rootRow, member, path + [member.name], before);
        RefineKidGrows(infer, childAncestors, rootRow, shape, path, before, n);
        GrowsTwice(entry, before, types, fields);
        changed := changed || more;
      }
    }

    /** The pending fields are listed before any of them is typed. */
    method RefineOwn(chain: seq<Types>, rootRow: Types, shape: Shape, path: Path) returns (changed: bool)
      modifies this`types
      ensures types == RefineFields(infer, chain, rootRow, shape, path, old(types), |shape.members|)
      ensures changed <==> types != old(types)
    {
      var pending: seq<bool> := [];
      for n := 0 to |shape.members|
        invariant types == old(types) && |pending| == n
        invariant forall j :: 0 <= j < n ==> pending[j] == IsPending(shape.members[j], path, types)
      {
        pending := pending + [IsPending(shape.members[n], path, types)];
      }
      changed := false;
      for n := 0 to |shape.members|
        invariant types == RefineFields(infer, chain, rootRow, shape, path, old(types), n)
        invariant Grows(old(types), types) && (changed <==> types != old(types))
      {
        if pending[n] {
          var f := path + [shape.members[n].name];
          var inferred := infer(f, chain, rootRow);
          if inferred.Some? && f in types && types[f] == Untyped {
            types := types[f := Concrete(inferred.value)];
            changed := true;
          }
        }
      }
    }

    /** As many passes as fields pend are enough: nothing outside the pending fields
        changes, the result is a true fixpoint, and for a monotone oracle it is the least
        closed typing. */
    method ComputedTypes()
      requires Fields(root, []) <= types.Keys
      modifies this`types
      ensures Refines(old(types), types, Fields(root, []))
      ensures Stable(infer, Fields(root, []), types)
      ensures Monotone(infer) ==> LeastClosed(infer, Fields(root, []), old(types), types)
    {
      ghost var fields := Fields(root, []);
      var bound := PendingCount(root, [], types);
      PendingCountBounds(root, [], types, |root.members|);
      for i := 0 to bound
        invariant Refines(old(types), types, fields) && |Pending(types, fields)| <= bound - i
        invariant Monotone(infer) ==> Supported(infer, fields, old(types), types) && IsBelowClosed(fields, old(types), types)
      {
        ghost var before := types;
        RefineShapeGrows(infer, [], before, root, [], before);
        var changed := RefinePass([], types, root, []);
        GrowsTwice(old(types), before, types, fields);
        if Monotone(infer) {
          ShapeSupported(infer, [], before, root, [], before, old(types), fields);
          PassStaysBelow(fields, old(types), before);
        }
        if !changed {
          assert Uniform(before, 0) == [];
          UnchangedIsStable(infer, root, [], before);
          return;
        }
        PendingShrinks(fields, before, types);
      }
      NothingPendingIsStable(fields, types);
    }

    ghost predicate IsBelowClosed(fields: set<Path>, init: Types, s: Types) {
      forall t :: Closed(infer, fields, init, t) ==> Grows(s, t)
    }

    lemma PassStaysBelow(fields: set<Path>, init: Types, s: Types)
      requires Monotone(infer) && IsBelowClosed(fields, init, s) && Grows(init, s) && fields == Fields(root, [])
      ensures IsBelowClosed(fields, init, RefineShape(infer, [], s, root, [], s))
    {
      forall t | Closed(infer, fields, init, t)
        ensures Grows(RefineShape(infer, [], s, root, [], s), t)
      {
        ClosedAbsorbs(infer, fields, init, t);
        ShapeBelow(infer, [], s, root, [], s, init, fields, t);
      }
    }

    lemma NothingPendingIsStable(fields: set<Path>, types: Types)
      requires |Pending(types, fields)| == 0
      ensures Stable(infer, fields, types)
    {
      assert forall f :: f in fields && f in types && types[f] == Untyped ==> f in Pending(types, fields);
    }
  }
}
