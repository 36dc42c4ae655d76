/** What "references the candidate" means for a value: a subtree that does not is worth the
    same for every candidate, so evaluating it once is enough (liasse-expr, hoist.rs). */
module Candidates {
  import opened Values
  import opened Rows
  import opened TypedExprs
  import opened Evaluator
  import opened Pairing
  import opened Simulation
  import opened Hoist
  import opened HoistMeaning

  // ---- two candidates ----------------------------------------------------

  /** Two evaluations that may differ in the candidate and in nothing else: in the names
      that denote it, and in the values of `.` and `^` when those do. */
  ghost predicate CandidatesDiffer(refs: CandidateRefs, env1: Env, env2: Env, fs1: seq<Frame>, fs2: seq<Frame>) {
    && env1 == env2.(binding := env1.binding)
    && (forall n :: n !in refs.binds ==> env1.binding(n) == env2.binding(n))
    && (forall n :: n !in refs.binds ==> Lookup(fs1, n) == Lookup(fs2, n))
    && (!refs.currentIsCandidate ==> forall j: nat :: CurrentAt(fs1, j) == CurrentAt(fs2, j))
  }

  /** No instant of a temporal selector, which the search for references skips, has any. */
  ghost predicate InstantsFree(e: TypedExpr, refs: CandidateRefs)
    requires e.WellFormed()
  {
    && (e.op.Temporal? ==> forall i :: 0 < i < |e.kids| ==> !References(e.kids[i], refs))
    && forall i :: 0 <= i < |e.kids| ==> InstantsFree(e.kids[i], refs)
  }

  /** Where `.` is the candidate, every `$` name is served and falls back on no row. */
  ghost predicate NamesServed(env: Env, e: TypedExpr, refs: CandidateRefs)
    requires e.WellFormed()
  {
    && (e.op.Structural? && refs.currentIsCandidate ==> env.structural(e.op.name).Some?)
    && forall i :: 0 <= i < |e.kids| ==> NamesServed(env, e.kids[i], refs)
  }

  // ---- which leaves the candidate shows in -------------------------------

  /** The leaf is worth the same for any two candidates. */
  ghost predicate LeafConstant(op: Op, refs: CandidateRefs)
    requires ShapeOf(op).Leaf?
  {
    forall env1, env2, fs1, fs2 :: CandidatesDiffer(refs, env1, env2, fs1, fs2)
      && (op.Structural? && refs.currentIsCandidate ==> env1.structural(op.name).Some?)
      ==> EvalLeaf(env1, fs1, op) == EvalLeaf(env2, fs2, op)
  }

  /** A stack that many frames deep, every one of them on the same row. */
  function Deep(row: Row, depth: nat): seq<Frame> { seq(depth, i => Frame(RowCell(row), map[])) }

  lemma {:induction false} DeepReads(row: Row, depth: nat)
    ensures forall n :: Lookup(Deep(row, depth), n) == None
    ensures forall j: nat :: CurrentAt(Deep(row, depth), j) == if j < depth then Ok(RowCell(row)) else Err(ShapeMismatch(ExpectedCurrent))
  {
    if depth > 0 {
      DeepReads(row, depth - 1);
      assert Deep(row, depth)[..depth - 1] == Deep(row, depth - 1);
    }
  }

  function Occupant(i: nat): Row { Row([Occurrence(i)], NoneValue, map[], []) }

  /** The candidate shows exactly in the leaves the search looks for. */
  lemma LeavesAreExact(env: Env, op: Op, refs: CandidateRefs)
    requires ShapeOf(op).Leaf?
    ensures IsCandidateLeaf(op, refs) <==> !LeafConstant(op, refs)
  {
    if IsCandidateLeaf(op, refs) {
      LeafVaries(env, op, refs);
    } else {
      forall env1, env2, fs1, fs2 | CandidatesDiffer(refs, env1, env2, fs1, fs2)
          && (op.Structural? && refs.currentIsCandidate ==> env1.structural(op.name).Some?)
        ensures EvalLeaf(env1, fs1, op) == EvalLeaf(env2, fs2, op)
      {
        if op.Structural? && !refs.currentIsCandidate { SameCurrents(fs1, fs2, op.name); }
      }
    }
  }

  lemma LeafVaries(env: Env, op: Op, refs: CandidateRefs)
    requires ShapeOf(op).Leaf? && IsCandidateLeaf(op, refs)
    ensures !LeafConstant(op, refs)
  {
    var a, b := Occupant(0), Occupant(1);
    assert a.id[0] != b.id[0];
    if op.ScopeBinding? {
      var env1 := env.(binding := n => if n == op.name then Some(RowCell(a)) else None);
      var env2 := env.(binding := n => if n == op.name then Some(RowCell(b)) else None);
      assert CandidatesDiffer(refs, env1, env2, [], []);
      assert EvalLeaf(env1, [], op) != EvalLeaf(env2, [], op);
    } else if op.LocalBinding? {
      var f1, f2 := Frame(RowCell(a), map[op.name := RowCell(a)]), Frame(RowCell(a), map[op.name := RowCell(b)]);
      PushedReads([], f1);
      PushedReads([], f2);
      assert [] + [f1] == [f1] && [] + [f2] == [f2];
      OneFrame(f1, f2);
      assert CandidatesDiffer(refs, env, env, [f1], [f2]);
      assert EvalLeaf(env, [f1], op) != EvalLeaf(env, [f2], op);
    } else {
      var depth := if op.Parent? then op.depth + 1 else 1;
      DeepReads(a, depth);
      DeepReads(b, depth);
      assert CandidatesDiffer(refs, env, env, Deep(a, depth), Deep(b, depth));
      assert EvalLeaf(env, Deep(a, depth), op) != EvalLeaf(env, Deep(b, depth), op);
    }
  }

  lemma OneFrame(f1: Frame, f2: Frame)
    requires f1.current == f2.current
    ensures forall j: nat :: CurrentAt([f1], j) == CurrentAt([f2], j)
  {
  }

  // ---- candidate-free subtrees -------------------------------------------

  /** What two evaluations share when only the candidate differs, or more. */
  ghost predicate SharesAllElse(refs: CandidateRefs, shared: Shared) {
    && (forall n :: n !in refs.binds ==> shared.names.Has(n))
    && (!refs.currentIsCandidate ==> shared.depths == AllBut({}))
  }

  lemma StillShares(e: TypedExpr, i: nat, refs: CandidateRefs, p: Place)
    requires e.WellFormed() && i < |e.kids| && SharesAllElse(refs, p.between)
    ensures SharesAllElse(refs, PlaceAt(map[], e, i, p).between)
  {
    if Framed(e.op, i) {
      NothingLostAt(e, i, p.pos);
      NothingLost(e.kids[0], PositionAt(e, 0, p.pos).bare);
      assert FlowAt(map[], e, i, p.pos).lost == {};
      assert Deeper(AllBut({}), true) == AllBut({});
    }
  }

  lemma UnreplacedServe(e: TypedExpr, pos: Position)
    requires e.WellFormed()
    ensures StreamsServe(map[], e, pos)
  {
    if e.op.Temporal? { FillNothing(e.kids[0]); } else { UnreplacedStreams(e, pos); }
  }

  lemma {:induction false} CandidateFreeTransfers(c: Ctx, e: TypedExpr, refs: CandidateRefs, p: Place)
    requires e.WellFormed() && !References(e, refs) && InstantsFree(e, refs) && NamesServed(c.env2, e, refs)
    requires c.sub == map[] && c.env1 == c.env2.(binding := c.env1.binding) && SharesAllElse(refs, p.between)
    requires forall n :: n !in refs.binds ==> c.env1.binding(n) == c.env2.binding(n)
    ensures Transfers(c, e, p)
    decreases e
  {
    UnreplacedServe(e, p.pos);
    assert FramesServe(c, e.op, p.between) && EnvsServe(c, e.op);
    forall i | 0 <= i < |e.kids|
      ensures Transfers(c, e.kids[i], PlaceAt(c.sub, e, i, p))
    {
      assert Visited(e.op, i) ==> !References(e.kids[i], refs);
      StillShares(e, i, refs, p);
      CandidateFreeTransfers(c, e.kids[i], refs, PlaceAt(c.sub, e, i, p));
    }
  }

  /** A subtree that does not reference the candidate has one value, or one error, for every
      candidate. */
  lemma CandidateFreeIsConstant(lang: Lang, env1: Env, env2: Env, fs1: seq<Frame>, fs2: seq<Frame>, e: TypedExpr, refs: CandidateRefs)
    requires e.WellFormed() && !References(e, refs) && InstantsFree(e, refs) && NamesServed(env1, e, refs)
    requires CandidatesDiffer(refs, env1, env2, fs1, fs2)
    ensures Eval(lang, env1, fs1, e) == Eval(lang, env2, fs2, e)
  {
    var c, shared := Ctx(env1, env2, map[]), Shared(AllBut(refs.binds), if refs.currentIsCandidate then Only({}) else AllBut({}));
    var p := Place(shared, Nothing, AsValue);
    SameNamesServed(env1, env2, e, refs);
    CandidateFreeTransfers(c, e, refs, p);
    SimEval(lang, c, Stacks(fs1, fs1, fs2), e, p);
    FillNothing(e);
  }

  lemma {:induction false} SameNamesServed(env1: Env, env2: Env, e: TypedExpr, refs: CandidateRefs)
    requires e.WellFormed() && NamesServed(env1, e, refs) && env1.structural == env2.structural
    ensures NamesServed(env2, e, refs)
  {
    forall i | 0 <= i < |e.kids|
      ensures NamesServed(env2, e.kids[i], refs)
    {
      SameNamesServed(env1, env2, e.kids[i], refs);
    }
  }

  // ---- what the pass takes out -------------------------------------------

  /** Free of the candidate, with its instants and `$` names. */
  ghost predicate Preevaluable(env: Env, e: TypedExpr, refs: CandidateRefs)
    requires e.WellFormed()
  {
    InstantsFree(e, refs) && NamesServed(env, e, refs)
  }

  lemma {:induction false} KidPreevaluable(env: Env, e: TypedExpr, refs: CandidateRefs, i: nat)
    requires e.WellFormed() && i < |e.kids| && Preevaluable(env, e, refs)
    ensures Preevaluable(env, e.kids[i], refs)
  {
  }

  /** Every entry is candidate-free and external. */
  ghost predicate EntriesFree(env: Env, entries: seq<Entry>, refs: CandidateRefs) {
    forall i :: 0 <= i < |entries| ==>
      entries[i].subtree.WellFormed() && Hoistable(entries[i].subtree, refs) && Preevaluable(env, entries[i].subtree, refs)
  }

  lemma {:induction false} EntriesAreFree(env: Env, e: TypedExpr, refs: CandidateRefs, next: nat)
    requires e.WellFormed() && Preevaluable(env, e, refs)
    ensures EntriesFree(env, HoistNode(e, refs, next).entries, refs)
    decreases e, 1, 0
  {
    if !Hoistable(e, refs) { KidEntriesAreFree(env, e, refs, next, |e.kids|); }
  }

  lemma {:induction false} KidEntriesAreFree(env: Env, e: TypedExpr, refs: CandidateRefs, next: nat, n: nat)
    requires e.WellFormed() && n <= |e.kids| && Preevaluable(env, e, refs)
    ensures EntriesFree(env, HoistKids(e, refs, next, n).1, refs)
    decreases e, 0, n
  {
    if n > 0 {
      KidEntriesAreFree(env, e, refs, next, n - 1);
      EntriesAreFree(env, e.kids[n - 1], refs, next + |HoistKids(e, refs, next, n - 1).1|);
    }
  }

  /** Every subtree the pass takes out has one value for every candidate. */
  lemma EntriesAreConstant(lang: Lang, env1: Env, env2: Env, fs1: seq<Frame>, fs2: seq<Frame>, e: TypedExpr,
                           refs: CandidateRefs, next: nat, i: nat)
    requires e.WellFormed() && Preevaluable(env1, e, refs) && CandidatesDiffer(refs, env1, env2, fs1, fs2)
    requires i < |HoistNode(e, refs, next).entries|
    ensures var entry := HoistNode(e, refs, next).entries[i].subtree;
      !References(entry, refs) && Eval(lang, env1, fs1, entry) == Eval(lang, env2, fs2, entry)
  {
    EntriesAreFree(env1, e, refs, next);
    CandidateFreeIsConstant(lang, env1, env2, fs1, fs2, HoistNode(e, refs, next).entries[i].subtree, refs);
  }

  lemma {:induction false} EntryMapHolds(entries: seq<Entry>, n: string)
    requires n in EntryMap(entries)
    ensures exists i :: 0 <= i < |entries| && entries[i].name == n && EntryMap(entries)[n] == entries[i].subtree
    decreases |entries|
  {
    var last := |entries| - 1;
    if entries[last].name != n {
      EntryMapHolds(entries[..last], n);
      var i :| 0 <= i < last && entries[..last][i].name == n && EntryMap(entries[..last])[n] == entries[..last][i].subtree;
      assert entries[i].name == n && EntryMap(entries)[n] == entries[i].subtree;
    }
  }

  /** One evaluation up front serves every candidate: seeded at one, seeded at all. */
  lemma SeededForEveryCandidate(lang: Lang, seeded: Env, env1: Env, env2: Env, fs1: seq<Frame>, fs2: seq<Frame>,
                                e: TypedExpr, refs: CandidateRefs, next: nat)
    requires e.WellFormed() && Preevaluable(env1, e, refs) && CandidatesDiffer(refs, env1, env2, fs1, fs2)
    requires var sub := EntryMap(HoistNode(e, refs, next).entries);
      AllWellFormed(sub) && Seeded(lang, seeded, env1, fs1, sub)
    ensures Seeded(lang, seeded, env2, fs2, EntryMap(HoistNode(e, refs, next).entries))
  {
    var entries := HoistNode(e, refs, next).entries;
    var sub := EntryMap(entries);
    forall n
      ensures Holds(lang, env2, fs2, sub, n, seeded.binding(n))
    {
      if n in sub {
        EntryMapHolds(entries, n);
        var i :| 0 <= i < |entries| && entries[i].name == n && sub[n] == entries[i].subtree;
        assert Holds(lang, env1, fs1, sub, n, seeded.binding(n));
        EntriesAreConstant(lang, env1, env2, fs1, fs2, e, refs, next, i);
      }
    }
  }

  // ---- exactly the maximal subtrees --------------------------------------

  /** Operand numbers from the root down. */
  ghost predicate IsPlace(e: TypedExpr, path: seq<nat>)
    decreases |path|
  {
    path == [] || (path[0] < |e.kids| && IsPlace(e.kids[path[0]], path[1..]))
  }

  ghost function SubtreeAt(e: TypedExpr, path: seq<nat>): TypedExpr
    requires IsPlace(e, path)
    decreases |path|
  {
    if path == [] then e else SubtreeAt(e.kids[path[0]], path[1..])
  }

  /** No subtree strictly above `path` is taken out. */
  ghost predicate Exposed(e: TypedExpr, refs: CandidateRefs, path: seq<nat>)
    requires e.WellFormed() && IsPlace(e, path)
    decreases |path|
  {
    path == [] || (!Hoistable(e, refs) && Exposed(e.kids[path[0]], refs, path[1..]))
  }

  lemma {:induction false} SubtreeWellFormed(e: TypedExpr, path: seq<nat>)
    requires e.WellFormed() && IsPlace(e, path)
    ensures SubtreeAt(e, path).WellFormed()
    decreases |path|
  {
    if path != [] { SubtreeWellFormed(e.kids[path[0]], path[1..]); }
  }

  lemma {:induction false} KidEntries(e: TypedExpr, refs: CandidateRefs, next: nat, n: nat, i: nat)
    requires e.WellFormed() && i < n <= |e.kids|
    ensures forall x :: x in HoistNode(e.kids[i], refs, NextAt(e, refs, next, i)).entries ==> x in HoistKids(e, refs, next, n).1
    decreases n
  {
    if i < n - 1 { KidEntries(e, refs, next, n - 1, i); }
  }

  /** A subtree with nothing taken out above it is an entry, replaced where it stood, exactly
      when it is candidate-free and external; any other keeps its node. */
  lemma {:induction false} TakenOutExactly(e: TypedExpr, refs: CandidateRefs, next: nat, path: seq<nat>)
    requires e.WellFormed() && IsPlace(e, path) && Exposed(e, refs, path)
    ensures SubtreeAt(e, path).WellFormed() && IsPlace(HoistNode(e, refs, next).residual, path)
    ensures var at, left := SubtreeAt(e, path), SubtreeAt(HoistNode(e, refs, next).residual, path);
      if Hoistable(at, refs) then
        exists x :: x in HoistNode(e, refs, next).entries && x.subtree == at && left == Node(at.ty, ScopeBinding(x.name), [])
      else left.ty == at.ty && left.op == at.op && |left.kids| == |at.kids|
    decreases |path|
  {
    SubtreeWellFormed(e, path);
    var h := HoistNode(e, refs, next);
    if path == [] {
      if Hoistable(e, refs) { assert Entry(SyntheticName(next), e) in h.entries; }
    } else {
      var i, kid := path[0], e.kids[path[0]];
      KidResidual(e, refs, next, |e.kids|, i);
      KidEntries(e, refs, next, |e.kids|, i);
      TakenOutExactly(kid, refs, NextAt(e, refs, next, i), path[1..]);
      assert h.residual.kids[i] == HoistNode(kid, refs, NextAt(e, refs, next, i)).residual;
    }
  }

  /** And every entry stands at such a place. */
  lemma {:induction false} EntriesStand(e: TypedExpr, refs: CandidateRefs, next: nat, entry: Entry) returns (path: seq<nat>)
    requires e.WellFormed() && entry in HoistNode(e, refs, next).entries
    ensures IsPlace(e, path) && Exposed(e, refs, path) && SubtreeAt(e, path) == entry.subtree
    ensures entry.subtree.WellFormed() && Hoistable(entry.subtree, refs)
    decreases e, 1, 0
  {
    if Hoistable(e, refs) {
      path := [];
    } else {
      path := KidEntriesStand(e, refs, next, |e.kids|, entry);
    }
  }

  lemma {:induction false} KidEntriesStand(e: TypedExpr, refs: CandidateRefs, next: nat, n: nat, entry: Entry) returns (path: seq<nat>)
    requires e.WellFormed() && n <= |e.kids| && !Hoistable(e, refs) && entry in HoistKids(e, refs, next, n).1
    ensures IsPlace(e, path) && Exposed(e, refs, path) && SubtreeAt(e, path) == entry.subtree
    ensures entry.subtree.WellFormed() && Hoistable(entry.subtree, refs)
    decreases e, 0, n
  {
    var before := HoistKids(e, refs, next, n - 1).1;
    if entry in before {
      path := KidEntriesStand(e, refs, next, n - 1, entry);
    } else {
      var rest := EntriesStand(e.kids[n - 1], refs, next + |before|, entry);
      path := [n - 1] + rest;
      assert path[1..] == rest;
    }
  }
}
