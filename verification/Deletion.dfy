/** Deletion policies and transitive deletability (liasse-model, delete.rs). */
module Deletion {
  import opened Text
  import opened Values

  /** A declared `$ref`: its target path, its `$on_delete` text and whether it is optional. */
  datatype Reference = Reference(target: string, onDelete: Option<string>, optional: bool)

  datatype Node =
    | RefField(reference: Reference)
    | RefSet(element: Option<Reference>)
    | StructNode(inner: Shape)
    | CollectionNode(rows: Shape)
    | OtherNode

  datatype Member = Member(name: string, node: Node)

  datatype Shape = Shape(members: seq<Member>)

  datatype LocatedRef = LocatedRef(reference: Reference, target: string, owner: Option<string>, setMember: bool)

  // ---- text --------------------------------------------------------------

  function Normalize(target: string): string {
    "/" + TrimEnd(TrimStart(Trim(target), c => c == '/'), c => c == '/')
  }

  // ---- collecting the refs -----------------------------------------------

  function NormalizedOwner(collection: Option<string>): Option<string> {
    if collection.Some? then Some(Normalize(collection.value)) else None
  }

  /** Every ref of the tree with the nearest enclosing collection, whose row a cascade
      over it removes. */
  function RefsOf(shape: Shape, prefix: string, collection: Option<string>): seq<LocatedRef>
    decreases shape, 1, 0
  {
    RefsUpTo(shape, prefix, collection, |shape.members|)
  }

  function RefsUpTo(shape: Shape, prefix: string, collection: Option<string>, n: nat): seq<LocatedRef>
    requires n <= |shape.members|
    decreases shape, 0, n
  {
    if n == 0 then []
    else
      RefsUpTo(shape, prefix, collection, n - 1)
      + RefsOfMember(shape.members[n - 1], prefix + "/" + shape.members[n - 1].name, collection)
  }

  function RefsOfMember(member: Member, path: string, collection: Option<string>): seq<LocatedRef>
    decreases member, 1, 0
  {
    match member.node
    case RefField(r) => [LocatedRef(r, Normalize(r.target), NormalizedOwner(collection), false)]
    case RefSet(Some(r)) => [LocatedRef(r, Normalize(r.target), NormalizedOwner(collection), true)]
    case RefSet(None) => []
    case StructNode(inner) => RefsOf(inner, path, collection)
    case CollectionNode(rows) => RefsOf(rows, path, Some(path))
    case OtherNode => []
  }

  /** The walk itself: one prefix buffer pushed and truncated, one list appended to. */
  class RefCollector {
    var prefix: string
    var refs: seq<LocatedRef>

    constructor ()
      ensures prefix == "" && refs == []
    {
      prefix, refs := "", [];
    }

    method Collect(shape: Shape, collection: Option<string>)
      modifies this
      ensures prefix == old(prefix)
      ensures refs == old(refs) + RefsOf(shape, old(prefix), collection)
      decreases shape
    {
      for n := 0 to |shape.members|
        invariant prefix == old(prefix)
        invariant refs == old(refs) + RefsUpTo(shape, old(prefix), collection, n)
      {
        var base := |prefix|;
        prefix := prefix + "/" + shape.members[n].name;
        CollectMember(shape.members[n], collection);
        prefix := prefix[..base];
      }
    }

    method CollectMember(member: Member, collection: Option<string>)
      modifies this
      ensures prefix == old(prefix)
      ensures refs == old(refs) + RefsOfMember(member, old(prefix), collection)
      decreases member
    {
      match member.node {
        case RefField(r) =>
          refs := refs + [LocatedRef(r, Normalize(r.target), NormalizedOwner(collection), false)];
        case RefSet(element) =>
          if element.Some? {
            var r := element.value;
            refs := refs + [LocatedRef(r, Normalize(r.target), NormalizedOwner(collection), true)];
          }
        case StructNode(inner) => Collect(inner, collection);
        case CollectionNode(rows) => Collect(rows, Some(prefix));
        case OtherNode =>
      }
    }
  }

  // ---- the deletable collections -----------------------------------------

  predicate IsCascade(r: Reference) { r.onDelete.Some? && Trim(r.onDelete.value) == "cascade" }

  /** Deleting a row of `target` deletes the row holding this ref. */
  predicate Propagates(r: LocatedRef) { r.owner.Some? && !r.setMember && IsCascade(r.reference) }

  ghost predicate Closed(refs: seq<LocatedRef>, s: set<string>) { ClosedUpTo(refs, s, |refs|) }

  /** What the first `n` refs propagate from inside `s` stays inside. */
  ghost predicate ClosedUpTo(refs: seq<LocatedRef>, s: set<string>, n: nat)
    requires n <= |refs|
  {
    forall i :: 0 <= i < n && Propagates(refs[i]) && refs[i].target in s ==> refs[i].owner.value in s
  }

  ghost predicate CascadeStep(refs: seq<LocatedRef>, a: string, b: string) {
    exists i :: 0 <= i < |refs| && Propagates(refs[i]) && refs[i].target == a && refs[i].owner == Some(b)
  }

  /** A chain of row-removing cascades from a directly deleted collection to `c`. */
  ghost predicate IsChain(refs: seq<LocatedRef>, direct: set<string>, p: seq<string>) {
    |p| > 0 && p[0] in direct && forall i :: 0 <= i < |p| - 1 ==> CascadeStep(refs, p[i], p[i + 1])
  }

  ghost predicate CascadeReaches(refs: seq<LocatedRef>, direct: set<string>, c: string) {
    exists p :: IsChain(refs, direct, p) && p[|p| - 1] == c
  }

  lemma {:induction false} ChainStays(refs: seq<LocatedRef>, direct: set<string>, s: set<string>, p: seq<string>)
    requires direct <= s && Closed(refs, s) && IsChain(refs, direct, p)
    ensures p[|p| - 1] in s
    decreases |p|
  {
    if |p| > 1 {
      var q := p[..|p| - 1];
      assert IsChain(refs, direct, q) by {
        forall i | 0 <= i < |q| - 1
          ensures CascadeStep(refs, q[i], q[i + 1])
        {
          assert CascadeStep(refs, p[i], p[i + 1]);
        }
      }
      ChainStays(refs, direct, s, q);
      assert CascadeStep(refs, p[|p| - 2], p[|p| - 1]);
    }
  }

  lemma ReachesOn(refs: seq<LocatedRef>, direct: set<string>, a: string, b: string)
    requires CascadeReaches(refs, direct, a) && CascadeStep(refs, a, b)
    ensures CascadeReaches(refs, direct, b)
  {
    var p :| IsChain(refs, direct, p) && p[|p| - 1] == a;
    assert IsChain(refs, direct, p + [b]) && (p + [b])[|p|] == b;
  }

  /** Every member is reached by a chain. */
  ghost predicate AllReached(refs: seq<LocatedRef>, direct: set<string>, s: set<string>) {
    forall c :: c in s ==> CascadeReaches(refs, direct, c)
  }

  lemma OwnerIsReached(refs: seq<LocatedRef>, direct: set<string>, s: set<string>, i: nat)
    requires i < |refs| && Propagates(refs[i]) && refs[i].target in s && AllReached(refs, direct, s)
    ensures AllReached(refs, direct, s + {refs[i].owner.value})
  {
    assert CascadeStep(refs, refs[i].target, refs[i].owner.value);
    ReachesOn(refs, direct, refs[i].target, refs[i].owner.value);
  }

  lemma DirectAreReached(refs: seq<LocatedRef>, direct: set<string>)
    ensures AllReached(refs, direct, direct)
  {
    forall c | c in direct
      ensures CascadeReaches(refs, direct, c)
    {
      assert IsChain(refs, direct, [c]);
    }
  }

  /** A closed set of reached collections is the least closed one and all that is reached. */
  lemma ClosedAndReached(refs: seq<LocatedRef>, direct: set<string>, targets: set<string>)
    requires direct <= targets && Closed(refs, targets) && AllReached(refs, direct, targets)
    ensures forall s :: direct <= s && Closed(refs, s) ==> targets <= s
    ensures forall c :: c in targets <==> CascadeReaches(refs, direct, c)
  {
    forall c, s | CascadeReaches(refs, direct, c) && direct <= s && Closed(refs, s)
      ensures c in s
    {
      var p :| IsChain(refs, direct, p) && p[|p| - 1] == c;
      ChainStays(refs, direct, s, p);
    }
  }

  function Owners(refs: seq<LocatedRef>): set<string> {
    set i | 0 <= i < |refs| && refs[i].owner.Some? :: refs[i].owner.value
  }

  /** The least set that contains the direct targets and is closed under row-removing
      cascades: exactly the collections a cascade chain reaches. */
  method DeletableTargets(direct: set<string>, refs: seq<LocatedRef>) returns (targets: set<string>)
    ensures direct <= targets && Closed(refs, targets)
    ensures forall s :: direct <= s && Closed(refs, s) ==> targets <= s
    ensures forall c :: c in targets <==> CascadeReaches(refs, direct, c)
  {
    targets := direct;
    DirectAreReached(refs, direct);
    while true
      invariant direct <= targets <= direct + Owners(refs)
      invariant AllReached(refs, direct, targets)
      decreases direct + Owners(refs) - targets
    {
      var grew := false;
      ghost var before := targets;
      for i := 0 to |refs|
        invariant before <= targets <= direct + Owners(refs)
        invariant grew <==> targets != before
        invariant AllReached(refs, direct, targets)
        invariant !grew ==> ClosedUpTo(refs, targets, i)
      {
        var r := refs[i];
        if r.owner.None? {
          continue;
        }
        if !r.setMember && IsCascade(r.reference) && r.target in targets && r.owner.value !in targets {
          OwnerIsReached(refs, direct, targets, i);
          targets := targets + {r.owner.value};
          grew := true;
        }
      }
      if !grew {
        break;
      }
    }
    ClosedAndReached(refs, direct, targets);
  }

  // ---- the check ---------------------------------------------------------

  datatype Rejection =
    | NotAPolicy(policy: string)
    | NoneNeedsOptional(target: string)
    | BoundaryUndecided(target: string)
    | DeferredUndecided(target: string)

  predicate CrossesModules(r: LocatedRef) {
    var text := TrimStart(r.reference.target, IsSpace);
    text != [] && text[0] == '#'
  }

  function PolicyRejections(r: Reference): seq<Rejection> {
    if r.onDelete.None? then []
    else
      var text := Trim(r.onDelete.value);
      if text == "restrict" || text == "cascade" then []
      else if text == "none" then (if r.optional then [] else [NoneNeedsOptional(r.target)])
      else if text != [] && text[0] == '=' then []
      else [NotAPolicy(text)]
  }

  /** A declared policy is one of the four forms, `none` on an optional ref only. */
  ghost predicate PolicyWellFormed(r: Reference) {
    r.onDelete.Some? ==>
      var text := Trim(r.onDelete.value);
      || text in {"restrict", "cascade"}
      || (text == "none" && r.optional)
      || (exists patch :: text == "=" + patch)
  }

  /** One ref is in order: its policy is a policy, and it declares one if it crosses a
      module boundary or a cascade chain reaches its target. */
  ghost predicate InOrder(refs: seq<LocatedRef>, direct: set<string>, r: LocatedRef) {
    && PolicyWellFormed(r.reference)
    && (r.reference.onDelete.None? ==> !CrossesModules(r) && !CascadeReaches(refs, direct, r.target))
  }

  /** What an accepted package guarantees of its refs. */
  ghost predicate Accepted(refs: seq<LocatedRef>, direct: set<string>) {
    forall i :: 0 <= i < |refs| ==> InOrder(refs, direct, refs[i])
  }

  /** A declared policy is refused for one reason: `none` on a required ref, or no policy. */
  lemma PolicyRejectionsExact(r: Reference)
    ensures PolicyRejections(r) == [] <==> PolicyWellFormed(r)
    ensures !PolicyWellFormed(r) ==> r.onDelete.Some?
    ensures !PolicyWellFormed(r) ==>
      PolicyRejections(r) == [if Trim(r.onDelete.value) == "none" then NoneNeedsOptional(r.target) else NotAPolicy(Trim(r.onDelete.value))]
  {
    if r.onDelete.Some? {
      var text := Trim(r.onDelete.value);
      if text != [] && text[0] == '=' { assert text == "=" + text[1..]; }
      if patch :| text == "=" + patch { assert text[0] == '='; }
    }
  }

  /** What is wrong with one ref: its policy, then its missing decision, a module boundary
      hiding what cascades reach. */
  ghost function Faults(refs: seq<LocatedRef>, direct: set<string>, r: LocatedRef): seq<Rejection> {
    PolicyRejections(r.reference)
    + (if r.reference.onDelete.Some? then []
       else if CrossesModules(r) then [BoundaryUndecided(r.reference.target)]
       else if CascadeReaches(refs, direct, r.target) then [DeferredUndecided(r.reference.target)]
       else [])
  }

  ghost function FaultLists(refs: seq<LocatedRef>, direct: set<string>): seq<seq<Rejection>> {
    seq(|refs|, i requires 0 <= i < |refs| => Faults(refs, direct, refs[i]))
  }

  function Joined(lists: seq<seq<Rejection>>): seq<Rejection> {
    if lists == [] then [] else Joined(lists[..|lists| - 1]) + lists[|lists| - 1]
  }

  lemma {:induction false} JoinedEmpty(lists: seq<seq<Rejection>>)
    ensures Joined(lists) == [] <==> forall i :: 0 <= i < |lists| ==> lists[i] == []
  {
    if lists != [] {
      JoinedEmpty(lists[..|lists| - 1]);
      assert |Joined(lists)| == |Joined(lists[..|lists| - 1])| + |lists[|lists| - 1]|;
    }
  }

  lemma InOrderHasNoFaults(refs: seq<LocatedRef>, direct: set<string>, r: LocatedRef)
    ensures Faults(refs, direct, r) == [] <==> InOrder(refs, direct, r)
  {
    PolicyRejectionsExact(r.reference);
  }

  /** Reports exactly the faults of the refs, in their order: none exactly when the package
      is accepted. */
  method Check(root: Shape, direct: set<string>) returns (rejections: seq<Rejection>)
    ensures var refs := RefsOf(root, "", None);
      rejections == Joined(FaultLists(refs, direct)) && (rejections == [] <==> Accepted(refs, direct))
  {
    var collector := new RefCollector();
    collector.Collect(root, None);
    assert collector.refs == RefsOf(root, "", None);
    rejections := CheckRefs(collector.refs, direct);
  }

  method CheckRefs(refs: seq<LocatedRef>, direct: set<string>) returns (rejections: seq<Rejection>)
    ensures rejections == Joined(FaultLists(refs, direct))
    ensures rejections == [] <==> Accepted(refs, direct)
  {
    var deletable := DeletableTargets(direct, refs);
    rejections := [];
    ghost var lists := FaultLists(refs, direct);
    for i := 0 to |refs|
      invariant rejections == Joined(lists[..i])
    {
      var found := CheckRef(refs[i], deletable);
      assert found == Faults(refs, direct, refs[i]) == lists[i];
      assert lists[..i + 1][..i] == lists[..i];
      rejections := rejections + found;
    }
    assert lists[..|refs|] == lists;
    JoinedEmpty(lists);
    AcceptedHasNoFaults(refs, direct);
  }

  lemma AcceptedHasNoFaults(refs: seq<LocatedRef>, direct: set<string>)
    ensures Accepted(refs, direct) <==> forall i :: 0 <= i < |refs| ==> FaultLists(refs, direct)[i] == []
  {
    forall i | 0 <= i < |refs|
      ensures FaultLists(refs, direct)[i] == [] <==> InOrder(refs, direct, refs[i])
    {
      InOrderHasNoFaults(refs, direct, refs[i]);
    }
  }

  method CheckRef(r: LocatedRef, deletable: set<string>) returns (rejections: seq<Rejection>)
    ensures rejections == PolicyRejections(r.reference)
      + (if r.reference.onDelete.Some? then []
         else if CrossesModules(r) then [BoundaryUndecided(r.reference.target)]
         else if r.target in deletable then [DeferredUndecided(r.reference.target)]
         else [])
  {
    rejections := PolicyRejections(r.reference);
    if CrossesModules(r) {
      if r.reference.onDelete.None? {
        rejections := rejections + [BoundaryUndecided(r.reference.target)];
      }
      return;
    }
    if r.reference.onDelete.None? && r.target in deletable {
      rejections := rejections + [DeferredUndecided(r.reference.target)];
    }
  }

  // ---- runs of deletions -------------------------------------------------

  datatype RowKey = RowKey(collection: string, key: string)

  /** One stored ref: which declaration it instantiates, the row that holds it when it is
      inside a collection, and the row it points at. */
  datatype Link = Link(declared: nat, holder: Option<RowKey>, target: RowKey)

  ghost predicate LinksConform(refs: seq<LocatedRef>, links: set<Link>) {
    forall l :: l in links ==>
      && l.declared < |refs|
      && l.target.collection == refs[l.declared].target
      && (l.holder.Some? ==> refs[l.declared].owner == Some(l.holder.value.collection))
  }

  /** One row goes: a deleting operator names its collection, or a scalar ref with
      `cascade` pointed at a row already gone. */
  ghost predicate Deletes(refs: seq<LocatedRef>, direct: set<string>, links: set<Link>, gone: set<RowKey>, row: RowKey) {
    || row.collection in direct
    || exists l :: l in links && l.declared < |refs| && l.holder == Some(row) && l.target in gone
                   && !refs[l.declared].setMember && IsCascade(refs[l.declared].reference)
  }

  /** The rows `run` deletes one after the other, each for a reason. */
  ghost predicate IsRun(refs: seq<LocatedRef>, direct: set<string>, links: set<Link>, run: seq<RowKey>) {
    forall i :: 0 <= i < |run| ==>
      Deletes(refs, direct, links, set j | 0 <= j < i :: run[j], run[i])
  }

  lemma {:induction false} RunsStayDeletable(refs: seq<LocatedRef>, direct: set<string>, links: set<Link>, run: seq<RowKey>, i: nat)
    requires LinksConform(refs, links) && IsRun(refs, direct, links, run) && i < |run|
    ensures CascadeReaches(refs, direct, run[i].collection)
    decreases i
  {
    var row, gone := run[i], set j | 0 <= j < i :: run[j];
    assert Deletes(refs, direct, links, gone, row);
    if row.collection in direct {
      assert IsChain(refs, direct, [row.collection]);
    } else {
      var l :| l in links && l.declared < |refs| && l.holder == Some(row) && l.target in gone
               && !refs[l.declared].setMember && IsCascade(refs[l.declared].reference);
      var j :| 0 <= j < i && run[j] == l.target;
      RunsStayDeletable(refs, direct, links, run, j);
      assert CascadeStep(refs, l.target.collection, row.collection);
      ReachesOn(refs, direct, l.target.collection, row.collection);
    }
  }

  /** In an accepted package no run of direct deletes and cascades removes a row that a
      ref with no declared policy points at. */
  lemma NoUndecidedRefLosesItsTarget(refs: seq<LocatedRef>, direct: set<string>, links: set<Link>, run: seq<RowKey>, l: Link)
    requires Accepted(refs, direct) && LinksConform(refs, links) && IsRun(refs, direct, links, run)
    requires l in links && l.target in run
    ensures refs[l.declared].reference.onDelete.Some?
  {
    var i :| 0 <= i < |run| && run[i] == l.target;
    RunsStayDeletable(refs, direct, links, run, i);
  }

  /** The analysis never over-approximates: every collection it calls deletable loses a row
      in some run. */
  lemma {:induction false} DeletableRowsCanGo(refs: seq<LocatedRef>, direct: set<string>, p: seq<string>)
      returns (links: set<Link>, run: seq<RowKey>)
    requires IsChain(refs, direct, p)
    ensures LinksConform(refs, links) && IsRun(refs, direct, links, run)
    ensures |run| > 0 && run[|run| - 1].collection == p[|p| - 1]
    decreases |p|
  {
    var last := RowKey(p[|p| - 1], "");
    if |p| == 1 {
      links, run := {}, [last];
    } else {
      var q := p[..|p| - 1];
      forall i | 0 <= i < |q| - 1
        ensures CascadeStep(refs, q[i], q[i + 1])
      {
        assert CascadeStep(refs, p[i], p[i + 1]);
      }
      links, run := DeletableRowsCanGo(refs, direct, q);
      assert CascadeStep(refs, p[|p| - 2], p[|p| - 1]);
      var d :| 0 <= d < |refs| && Propagates(refs[d]) && refs[d].target == p[|p| - 2] && refs[d].owner == Some(p[|p| - 1]);
      var earlier, before, link := links, run, Link(d, Some(last), run[|run| - 1]);
      links, run := links + {link}, run + [last];
      forall i | 0 <= i < |run|
        ensures Deletes(refs, direct, links, set j | 0 <= j < i :: run[j], run[i])
      {
        if i < |before| {
          assert forall j :: 0 <= j < i ==> run[j] == before[j];
          assert Deletes(refs, direct, earlier, set j | 0 <= j < i :: before[j], before[i]);
          assert (set j | 0 <= j < i :: run[j]) == (set j | 0 <= j < i :: before[j]);
        } else {
          assert run[|before| - 1] == link.target;
        }
      }
    }
  }
}
