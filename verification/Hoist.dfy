/** The hoisting pass and its audit (liasse-expr, hoist.rs). */
module Hoist {
  import opened Values
  import opened TypedExprs
  import opened Simulation
  import opened Digits

  /** Which references denote the candidate row. */
  datatype CandidateRefs = CandidateRefs(currentIsCandidate: bool, binds: set<string>)

  datatype Entry = Entry(name: string, subtree: TypedExpr)

  datatype Hoisted = Hoisted(residual: TypedExpr, entries: seq<Entry>)

  function SyntheticName(i: nat): string { "\0h" + DecimalText(i) }

  lemma SyntheticNamesDiffer(i: nat, j: nat)
    requires SyntheticName(i) == SyntheticName(j)
    ensures i == j
  {
    assert SyntheticName(i)[2..] == DecimalText(i) && SyntheticName(j)[2..] == DecimalText(j);
    DecimalReads(i);
    DecimalReads(j);
  }

  // ---- the structural predicates -----------------------------------------

  /** The operands the predicates look at, in their order: a temporal selector's
      instants are skipped, and sort keys come before the quantity. */
  function VisitOrder(e: TypedExpr): (order: seq<nat>)
    requires e.WellFormed()
    ensures forall j :: 0 <= j < |order| ==> order[j] < |e.kids| && Visited(e.op, order[j])
    ensures forall i: nat :: i < |e.kids| && Visited(e.op, i) ==> i in order
  {
    if e.op.Temporal? then [0]
    else if e.op.Project? && e.op.quantity then
      var s := SortStart(e.op);
      Span(0, s - 1) + Span(s, |e.kids|) + [s - 1]
    else Span(0, |e.kids|)
  }

  /** The naturals from `lo` below `hi`, ascending. */
  function Span(lo: nat, hi: nat): (r: seq<nat>)
    requires lo <= hi
    ensures forall i: nat :: i in r <==> lo <= i < hi
    ensures forall j :: 0 <= j < |r| ==> lo <= r[j] < hi
    decreases hi - lo
  {
    if lo == hi then [] else [lo] + Span(lo + 1, hi)
  }

  predicate Visited(op: Op, i: nat) { op.Temporal? ==> i == 0 }

  predicate IsCandidateLeaf(op: Op, refs: CandidateRefs) {
    match op
    case Current | Parent(_) => refs.currentIsCandidate
    case ScopeBinding(name) => name in refs.binds
    case LocalBinding(name) => name in refs.binds
    case _ => false
  }

  predicate References(e: TypedExpr, refs: CandidateRefs)
    requires e.WellFormed()
  {
    IsCandidateLeaf(e.op, refs)
    || exists i: nat :: i < |e.kids| && Visited(e.op, i) && References(e.kids[i], refs)
  }

  datatype External =
    | RootRead | ParamBinding | StructuralBinding | ImportBinding | NowCall | UuidCall
    | HostNamespaceCall | TemporalSelector | KeyringSelection | BlobPlacementMember

  function OwnExternal(op: Op): Option<External> {
    match op
    case Root => Some(RootRead)
    case Param(_) => Some(ParamBinding)
    case Structural(_) => Some(StructuralBinding)
    case Import(_) => Some(ImportBinding)
    case HostCall(_, _) => Some(HostNamespaceCall)
    case Now => Some(NowCall)
    case Uuid(_) => Some(UuidCall)
    case Temporal(_) => Some(TemporalSelector)
    case Keyring(_) => Some(KeyringSelection)
    case BlobMember(member) => if IsPlacement(member) then Some(BlobPlacementMember) else None
    case _ => None
  }

  /** The first external node reachable in visit order. */
  function ExternalKind(e: TypedExpr): Option<External>
    requires e.WellFormed()
    decreases e, 1, 0
  {
    if OwnExternal(e.op).Some? then OwnExternal(e.op) else FirstExternal(e, VisitOrder(e), 0)
  }

  function FirstExternal(e: TypedExpr, order: seq<nat>, j: nat): Option<External>
    requires e.WellFormed() && j <= |order|
    requires forall i :: 0 <= i < |order| ==> order[i] < |e.kids|
    decreases e, 0, |order| - j
  {
    if j == |order| then None
    else if ExternalKind(e.kids[order[j]]).Some? then ExternalKind(e.kids[order[j]])
    else FirstExternal(e, order, j + 1)
  }

  /** `None` accepts the residual; otherwise the kind it cannot be served for. */
  function Audit(residual: TypedExpr): Option<External>
    requires residual.WellFormed()
  {
    ExternalKind(residual)
  }

  ghost predicate HasExternal(e: TypedExpr)
    requires e.WellFormed()
  {
    OwnExternal(e.op).Some?
    || exists i: nat :: i < |e.kids| && Visited(e.op, i) && HasExternal(e.kids[i])
  }

  lemma {:induction false} ExternalKindFinds(e: TypedExpr)
    requires e.WellFormed()
    ensures ExternalKind(e).Some? <==> HasExternal(e)
    decreases e, 1, 0
  {
    var order := VisitOrder(e);
    FirstExternalFinds(e, order, 0);
    if SomeExternal(e, order, 0) {
      var i := ExternalAmong(e, order, 0);
    }
    forall i: nat | i < |e.kids| && Visited(e.op, i) && HasExternal(e.kids[i])
      ensures SomeExternal(e, order, 0)
    {
      var j :| 0 <= j < |order| && order[j] == i;
      ExternalIsAmong(e, order, 0, j);
    }
  }

  /** One of the listed operands, from the `j`-th on, has an external node. */
  ghost predicate SomeExternal(e: TypedExpr, order: seq<nat>, j: nat)
    requires e.WellFormed() && j <= |order|
    requires forall i :: 0 <= i < |order| ==> order[i] < |e.kids|
    decreases |order| - j
  {
    j < |order| && (HasExternal(e.kids[order[j]]) || SomeExternal(e, order, j + 1))
  }

  lemma {:induction false} ExternalAmong(e: TypedExpr, order: seq<nat>, j: nat) returns (i: nat)
    requires e.WellFormed() && j <= |order|
    requires forall i :: 0 <= i < |order| ==> order[i] < |e.kids|
    requires SomeExternal(e, order, j)
    ensures i < |order| && HasExternal(e.kids[order[i]])
    decreases |order| - j
  {
    i := j;
    if !HasExternal(e.kids[order[j]]) {
      i := ExternalAmong(e, order, j + 1);
    }
  }

  lemma {:induction false} ExternalIsAmong(e: TypedExpr, order: seq<nat>, j: nat, i: nat)
    requires e.WellFormed() && j <= i < |order|
    requires forall i :: 0 <= i < |order| ==> order[i] < |e.kids|
    requires HasExternal(e.kids[order[i]])
    ensures SomeExternal(e, order, j)
    decreases i - j
  {
    if j < i {
      ExternalIsAmong(e, order, j + 1, i);
    }
  }

  lemma {:induction false} FirstExternalFinds(e: TypedExpr, order: seq<nat>, j: nat)
    requires e.WellFormed() && j <= |order|
    requires forall i :: 0 <= i < |order| ==> order[i] < |e.kids|
    ensures FirstExternal(e, order, j).Some? <==> SomeExternal(e, order, j)
    decreases e, 0, |order| - j
  {
    if j < |order| {
      ExternalKindFinds(e.kids[order[j]]);
      FirstExternalFinds(e, order, j + 1);
    }
  }

  // ---- hoisting ----------------------------------------------------------

  ghost predicate Hoistable(e: TypedExpr, refs: CandidateRefs)
    requires e.WellFormed()
  {
    !References(e, refs) && HasExternal(e)
  }

  /** What the pass computes, the counter starting at `next`. */
  ghost function HoistNode(e: TypedExpr, refs: CandidateRefs, next: nat): (h: Hoisted)
    requires e.WellFormed()
    ensures h.residual.WellFormed()
    ensures forall i :: 0 <= i < |h.entries| ==> h.entries[i].subtree.WellFormed()
    decreases e, 1, 0
  {
    if Hoistable(e, refs) then
      var name := SyntheticName(next);
      Hoisted(Node(e.ty, ScopeBinding(name), []), [Entry(name, e)])
    else
      var (kids, entries) := HoistKids(e, refs, next, |e.kids|);
      Hoisted(Node(e.ty, e.op, kids), entries)
  }

  /** The first `n` operands, one after the other on the shared counter. */
  ghost function HoistKids(e: TypedExpr, refs: CandidateRefs, next: nat, n: nat): (r: (seq<TypedExpr>, seq<Entry>))
    requires e.WellFormed() && n <= |e.kids|
    ensures |r.0| == n && forall i :: 0 <= i < n ==> r.0[i].WellFormed()
    ensures forall i :: 0 <= i < |r.1| ==> r.1[i].subtree.WellFormed()
    decreases e, 0, n
  {
    if n == 0 then ([], [])
    else
      var (kids, entries) := HoistKids(e, refs, next, n - 1);
      var h := HoistNode(e.kids[n - 1], refs, next + |entries|);
      (kids + [h.residual], entries + h.entries)
  }

  /** The counter when operand `i` is reached. */
  ghost function NextAt(e: TypedExpr, refs: CandidateRefs, next: nat, i: nat): nat
    requires e.WellFormed() && i <= |e.kids|
  {
    next + |HoistKids(e, refs, next, i).1|
  }

  lemma {:induction false} KidResidual(e: TypedExpr, refs: CandidateRefs, next: nat, n: nat, i: nat)
    requires e.WellFormed() && i < n <= |e.kids|
    ensures HoistKids(e, refs, next, n).0[i] == HoistNode(e.kids[i], refs, NextAt(e, refs, next, i)).residual
    decreases n
  {
    if i < n - 1 { KidResidual(e, refs, next, n - 1, i); }
  }

  /** The pass itself: a counter shared by every hoist of one program, and the list of
      subtrees to evaluate once. */
  class HoistCtx {
    const refs: CandidateRefs
    var next: nat
    var entries: seq<Entry>

    constructor (refs: CandidateRefs, next: nat)
      ensures this.refs == refs && this.next == next && entries == []
    {
      this.refs, this.next, entries := refs, next, [];
    }

    method Hoist(e: TypedExpr) returns (residual: TypedExpr)
      requires e.WellFormed()
      modifies this
      ensures residual == HoistNode(e, refs, old(next)).residual
      ensures entries == old(entries) + HoistNode(e, refs, old(next)).entries
      ensures next == old(next) + |HoistNode(e, refs, old(next)).entries|
      decreases e, 1
    {
      ExternalKindFinds(e);
      if !References(e, refs) && ExternalKind(e).Some? {
        var name := SyntheticName(next);
        next := next + 1;
        entries := entries + [Entry(name, e)];
        return Node(e.ty, ScopeBinding(name), []);
      }
      residual := Rebuild(e);
    }

    method Rebuild(e: TypedExpr) returns (residual: TypedExpr)
      requires e.WellFormed()
      modifies this
      ensures var r := HoistKids(e, refs, old(next), |e.kids|);
        residual == Node(e.ty, e.op, r.0) && entries == old(entries) + r.1 && next == old(next) + |r.1|
      decreases e, 0
    {
      var kids := [];
      for i := 0 to |e.kids|
        invariant var r := HoistKids(e, refs, old(next), i);
          kids == r.0 && entries == old(entries) + r.1 && next == old(next) + |r.1|
      {
        var kid := Hoist(e.kids[i]);
        kids := kids + [kid];
      }
      residual := Node(e.ty, e.op, kids);
    }
  }

  // ---- names -------------------------------------------------------------

  /** Entries are named by the counter in order, so every hoist that continues the same
      counter names different entries. */
  lemma {:induction false} EntriesAreNumbered(e: TypedExpr, refs: CandidateRefs, next: nat)
    requires e.WellFormed()
    ensures forall i :: 0 <= i < |HoistNode(e, refs, next).entries| ==>
      HoistNode(e, refs, next).entries[i].name == SyntheticName(next + i)
    decreases e, 1, 0
  {
    if !Hoistable(e, refs) { KidEntriesAreNumbered(e, refs, next, |e.kids|); }
  }

  lemma {:induction false} KidEntriesAreNumbered(e: TypedExpr, refs: CandidateRefs, next: nat, n: nat)
    requires e.WellFormed() && n <= |e.kids|
    ensures forall i :: 0 <= i < |HoistKids(e, refs, next, n).1| ==>
      HoistKids(e, refs, next, n).1[i].name == SyntheticName(next + i)
    decreases e, 0, n
  {
    if n > 0 {
      KidEntriesAreNumbered(e, refs, next, n - 1);
      var entries := HoistKids(e, refs, next, n - 1).1;
      EntriesAreNumbered(e.kids[n - 1], refs, next + |entries|);
    }
  }

  ghost predicate DistinctNames(entries: seq<Entry>) {
    forall i, j :: 0 <= i < j < |entries| ==> entries[i].name != entries[j].name
  }

  /** Two hoists on one counter never share a name, within or across. */
  lemma SharedCounterNamesDiffer(e1: TypedExpr, refs1: CandidateRefs, e2: TypedExpr, refs2: CandidateRefs, next: nat)
    requires e1.WellFormed() && e2.WellFormed()
    ensures var first := HoistNode(e1, refs1, next).entries;
      DistinctNames(first + HoistNode(e2, refs2, next + |first|).entries)
  {
    var first := HoistNode(e1, refs1, next).entries;
    var all := first + HoistNode(e2, refs2, next + |first|).entries;
    EntriesAreNumbered(e1, refs1, next);
    EntriesAreNumbered(e2, refs2, next + |first|);
    forall i, j | 0 <= i < j < |all|
      ensures all[i].name != all[j].name
    {
      assert all[i].name == SyntheticName(next + i) && all[j].name == SyntheticName(next + j);
      if all[i].name == all[j].name { SyntheticNamesDiffer(next + i, next + j); }
    }
  }

  // ---- reversibility -----------------------------------------------------

  /** No scope binding of `e` carries one of `names`. */
  ghost predicate Avoids(e: TypedExpr, names: set<string>) {
    && (e.op.ScopeBinding? ==> e.op.name !in names)
    && forall i :: 0 <= i < |e.kids| ==> Avoids(e.kids[i], names)
  }

  ghost predicate Covers(sub: map<string, TypedExpr>, entries: seq<Entry>) {
    forall i :: 0 <= i < |entries| ==> entries[i].name in sub && sub[entries[i].name] == entries[i].subtree
  }

  lemma {:induction false} KidCovered(e: TypedExpr, refs: CandidateRefs, next: nat, n: nat, i: nat, sub: map<string, TypedExpr>)
    requires e.WellFormed() && i < n <= |e.kids| && Covers(sub, HoistKids(e, refs, next, n).1)
    ensures Covers(sub, HoistNode(e.kids[i], refs, NextAt(e, refs, next, i)).entries)
    decreases n
  {
    var before := HoistKids(e, refs, next, n - 1).1;
    var last := HoistNode(e.kids[n - 1], refs, next + |before|).entries;
    assert HoistKids(e, refs, next, n).1 == before + last;
    CoversParts(sub, before, last);
    if i < n - 1 { KidCovered(e, refs, next, n - 1, i, sub); }
  }

  lemma CoversParts(sub: map<string, TypedExpr>, a: seq<Entry>, b: seq<Entry>)
    requires Covers(sub, a + b)
    ensures Covers(sub, a) && Covers(sub, b)
  {
    assert forall i :: 0 <= i < |a| ==> (a + b)[i] == a[i];
    assert forall i :: 0 <= i < |b| ==> (a + b)[|a| + i] == b[i];
  }

  /** Putting the entries back into the residual gives the original expression. */
  lemma {:induction false} FillUndoesHoist(e: TypedExpr, refs: CandidateRefs, next: nat, sub: map<string, TypedExpr>)
    requires e.WellFormed() && AllWellFormed(sub) && Avoids(e, sub.Keys)
    requires Covers(sub, HoistNode(e, refs, next).entries)
    ensures Fill(HoistNode(e, refs, next).residual, sub) == e
  {
    var h := HoistNode(e, refs, next);
    if Hoistable(e, refs) {
      assert h.entries[0] == Entry(SyntheticName(next), e);
    } else {
      var (kids, entries) := HoistKids(e, refs, next, |e.kids|);
      forall i | 0 <= i < |e.kids|
        ensures Fill(kids[i], sub) == e.kids[i]
      {
        KidResidual(e, refs, next, |e.kids|, i);
        KidCovered(e, refs, next, |e.kids|, i, sub);
        FillUndoesHoist(e.kids[i], refs, NextAt(e, refs, next, i), sub);
      }
      assert h.residual == Node(e.ty, e.op, kids);
      assert Fill(h.residual, sub).kids == e.kids;
    }
  }

  // ---- hoisting again ----------------------------------------------------

  /** Hoisting takes nothing out of `e`. */
  ghost predicate Stays(e: TypedExpr, refs: CandidateRefs, next: nat) {
    e.WellFormed() && HoistNode(e, refs, next) == Hoisted(e, [])
  }

  ghost predicate Extracted(e: TypedExpr, refs: CandidateRefs)
    requires e.WellFormed()
  {
    forall next: nat :: Stays(e, refs, next)
  }

  lemma {:induction false} KidsExtracted(e: TypedExpr, refs: CandidateRefs, next: nat, n: nat)
    requires e.WellFormed() && n <= |e.kids|
    requires forall i :: 0 <= i < n ==> Stays(e.kids[i], refs, next)
    ensures HoistKids(e, refs, next, n).0 == e.kids[..n] && HoistKids(e, refs, next, n).1 == []
    decreases n
  {
    if n > 0 {
      KidsExtracted(e, refs, next, n - 1);
      NextKidExtracted(e, refs, next, n);
    }
  }

  lemma NextKidExtracted(e: TypedExpr, refs: CandidateRefs, next: nat, n: nat)
    requires e.WellFormed() && 0 < n <= |e.kids|
    requires HoistKids(e, refs, next, n - 1).0 == e.kids[..n - 1] && HoistKids(e, refs, next, n - 1).1 == []
    requires Stays(e.kids[n - 1], refs, next)
    ensures HoistKids(e, refs, next, n).0 == e.kids[..n] && HoistKids(e, refs, next, n).1 == []
  {
    assert e.kids[..n - 1] + [e.kids[n - 1]] == e.kids[..n];
  }

  /** A node is its own residual when it may stay and its operands are their own. */
  lemma NodeExtracted(e: TypedExpr, refs: CandidateRefs)
    requires e.WellFormed() && !Hoistable(e, refs)
    requires forall i :: 0 <= i < |e.kids| ==> Extracted(e.kids[i], refs)
    ensures Extracted(e, refs)
  {
    forall next: nat
      ensures Stays(e, refs, next)
    {
      forall i | 0 <= i < |e.kids|
        ensures Stays(e.kids[i], refs, next)
      {
        assert Extracted(e.kids[i], refs);
      }
      KidsExtracted(e, refs, next, |e.kids|);
      assert e.kids[..|e.kids|] == e.kids;
    }
  }

  lemma {:induction false} NothingToHoist(e: TypedExpr, refs: CandidateRefs)
    requires e.WellFormed() && !HasExternal(e)
    ensures Extracted(e, refs)
  {
    forall i | 0 <= i < |e.kids|
      ensures Extracted(e.kids[i], refs)
    {
      assert Visited(e.op, i);
      NothingToHoist(e.kids[i], refs);
    }
    NodeExtracted(e, refs);
  }

  lemma {:induction false} ResidualKeepsReferences(e: TypedExpr, refs: CandidateRefs, next: nat)
    requires e.WellFormed() && References(e, refs)
    ensures References(HoistNode(e, refs, next).residual, refs)
  {
    if !IsCandidateLeaf(e.op, refs) {
      var i: nat :| i < |e.kids| && Visited(e.op, i) && References(e.kids[i], refs);
      KidResidual(e, refs, next, |e.kids|, i);
      ResidualKeepsReferences(e.kids[i], refs, NextAt(e, refs, next, i));
    }
  }

  /** Nothing is left to hoist in a residual, wherever the counter stands. */
  lemma {:induction false} HoistingTwiceExtractsNothing(e: TypedExpr, refs: CandidateRefs, next: nat)
    requires e.WellFormed()
    ensures Extracted(HoistNode(e, refs, next).residual, refs)
  {
    var r := HoistNode(e, refs, next).residual;
    if Hoistable(e, refs) {
      NothingToHoist(r, refs);
    } else if !References(e, refs) {
      NothingToHoist(e, refs);
      assert Stays(e, refs, next);
    } else {
      ResidualKeepsReferences(e, refs, next);
      forall i | 0 <= i < |r.kids|
        ensures Extracted(r.kids[i], refs)
      {
        KidResidual(e, refs, next, |e.kids|, i);
        HoistingTwiceExtractsNothing(e.kids[i], refs, NextAt(e, refs, next, i));
      }
      NodeExtracted(r, refs);
    }
  }

  // ---- the audit is exact ------------------------------------------------

  /** Some node the predicates reach needs the environment per candidate: a host call, a
      temporal, keyring or placement selector that references the candidate. */
  ghost predicate Offends(e: TypedExpr, refs: CandidateRefs)
    requires e.WellFormed()
  {
    || ((e.op.HostCall? || e.op.Temporal? || e.op.Keyring? || (e.op.BlobMember? && IsPlacement(e.op.blob)))
        && References(e, refs))
    || exists i: nat :: i < |e.kids| && Visited(e.op, i) && Offends(e.kids[i], refs)
  }

  lemma {:induction false} CandidateFreeNeverOffends(e: TypedExpr, refs: CandidateRefs)
    requires e.WellFormed() && Offends(e, refs)
    ensures References(e, refs)
  {
    if i: nat :| i < |e.kids| && Visited(e.op, i) && Offends(e.kids[i], refs) {
      CandidateFreeNeverOffends(e.kids[i], refs);
    }
  }

  /** A residual keeps an external node exactly where the expression offends. */
  lemma {:induction false} ResidualExternals(e: TypedExpr, refs: CandidateRefs, next: nat)
    requires e.WellFormed()
    ensures HasExternal(HoistNode(e, refs, next).residual) <==> Offends(e, refs)
  {
    var r := HoistNode(e, refs, next).residual;
    if Hoistable(e, refs) {
      if Offends(e, refs) { CandidateFreeNeverOffends(e, refs); }
    } else if OwnExternal(e.op).Some? {
      assert References(e, refs);
    } else {
      assert r.op == e.op && |r.kids| == |e.kids|;
      forall i: nat | i < |e.kids|
        ensures HasExternal(r.kids[i]) <==> Offends(e.kids[i], refs)
      {
        KidResidual(e, refs, next, |e.kids|, i);
        ResidualExternals(e.kids[i], refs, NextAt(e, refs, next, i));
      }
    }
  }

  /** The audit of a residual refuses exactly the expressions that offend. */
  lemma AuditIsExact(e: TypedExpr, refs: CandidateRefs, next: nat)
    requires e.WellFormed()
    ensures Audit(HoistNode(e, refs, next).residual).Some? <==> Offends(e, refs)
  {
    ResidualExternals(e, refs, next);
    ExternalKindFinds(HoistNode(e, refs, next).residual);
  }
}
