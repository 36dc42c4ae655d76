/** What a lowered view evaluates up front: one value for every candidate row, wherever no
    earlier output is read (liasse-expr, lower.rs and hoist.rs; liasse-pred, parity.rs). */
module LoweredEntries {
  import opened Values
  import opened Rows
  import opened TypedExprs
  import opened Evaluator
  import opened Pairing
  import opened Hoist
  import opened Candidates
  import opened Lowering

  ghost predicate AllPreevaluable(env: Env, exprs: seq<TypedExpr>, refs: CandidateRefs) {
    forall i :: 0 <= i < |exprs| ==> exprs[i].WellFormed() && Preevaluable(env, exprs[i], refs)
  }

  lemma EntriesFreeJoin(env: Env, a: seq<Entry>, b: seq<Entry>, refs: CandidateRefs)
    requires EntriesFree(env, a, refs) && EntriesFree(env, b, refs)
    ensures EntriesFree(env, a + b, refs)
  {
  }

  lemma {:induction false} AllEntriesFree(env: Env, exprs: seq<TypedExpr>, refs: CandidateRefs, next: nat)
    requires AllPreevaluable(env, exprs, refs)
    ensures EntriesFree(env, HoistAll(exprs, refs, next).1, refs)
  {
    if exprs != [] {
      var h := HoistNode(exprs[0], refs, next);
      EntriesAreFree(env, exprs[0], refs, next);
      AllEntriesFree(env, exprs[1..], refs, next + |h.entries|);
      EntriesFreeJoin(env, h.entries, HoistAll(exprs[1..], refs, next + |h.entries|).1, refs);
    }
  }

  /** The two frames bind the same outside `names`. */
  ghost predicate SameOutside(names: set<string>, f1: Frame, f2: Frame) {
    forall n :: n !in names ==> SameAt(f1.bindings, f2.bindings, n)
  }

  /** Worth the same in a frame of either row over the receiver. */
  ghost predicate SameUnder(lang: Lang, env: Env, root: Row, f1: Frame, f2: Frame, e: TypedExpr) {
    e.WellFormed() && Eval(lang, env, Receiver(root) + [f1], e) == Eval(lang, env, Receiver(root) + [f2], e)
  }

  ghost predicate AllSameUnder(lang: Lang, env: Env, root: Row, f1: Frame, f2: Frame, entries: seq<Entry>) {
    forall i :: 0 <= i < |entries| ==> SameUnder(lang, env, root, f1, f2, entries[i].subtree)
  }

  lemma RowsDiffer(refs: CandidateRefs, env: Env, root: Row, f1: Frame, f2: Frame)
    requires SameOutside(refs.binds, f1, f2) && (!refs.currentIsCandidate ==> f1.current == f2.current)
    ensures CandidatesDiffer(refs, env, env, Receiver(root) + [f1], Receiver(root) + [f2])
  {
    PushedReads(Receiver(root), f1);
    PushedReads(Receiver(root), f2);
    forall n | n !in refs.binds
      ensures Lookup(Receiver(root) + [f1], n) == Lookup(Receiver(root) + [f2], n)
    {
      assert SameAt(f1.bindings, f2.bindings, n);
    }
    if !refs.currentIsCandidate { SameDepths(root, f1, f2); }
  }

  lemma SameDepths(root: Row, f1: Frame, f2: Frame)
    requires f1.current == f2.current
    ensures forall j: nat :: CurrentAt(Receiver(root) + [f1], j) == CurrentAt(Receiver(root) + [f2], j)
  {
  }

  lemma FreeEntriesAreSame(lang: Lang, env: Env, root: Row, f1: Frame, f2: Frame, entries: seq<Entry>, refs: CandidateRefs)
    requires EntriesFree(env, entries, refs)
    requires SameOutside(refs.binds, f1, f2) && (!refs.currentIsCandidate ==> f1.current == f2.current)
    ensures AllSameUnder(lang, env, root, f1, f2, entries)
  {
    RowsDiffer(refs, env, root, f1, f2);
    forall i | 0 <= i < |entries|
      ensures SameUnder(lang, env, root, f1, f2, entries[i].subtree)
    {
      CandidateFreeIsConstant(lang, env, env, Receiver(root) + [f1], Receiver(root) + [f2], entries[i].subtree, refs);
    }
  }

  /** What is evaluated up front for a filter is the same for every row the filter's name
      stands for. */
  lemma FilterEntriesAreConstant(lang: Lang, env: Env, root: Row, flat: FlatView, f1: Frame, f2: Frame)
    requires FlatWellFormed(flat) && AllPreevaluable(env, FilterExprs(flat), CandidateRefs(false, Names(flat.bind)))
    requires f1.current == f2.current && SameOutside(Names(flat.bind), f1, f2)
    ensures AllSameUnder(lang, env, root, f1, f2, AdmitPart(flat).1)
  {
    var refs := CandidateRefs(false, Names(flat.bind));
    AllEntriesFree(env, FilterExprs(flat), refs, 0);
    FreeEntriesAreSame(lang, env, root, f1, f2, AdmitPart(flat).1, refs);
  }

  /** For an output it is the same for every row, which is `.` as well. */
  lemma OutputEntriesAreConstant(lang: Lang, env: Env, root: Row, flat: FlatView, f1: Frame, f2: Frame)
    requires FlatWellFormed(flat) && AllPreevaluable(env, OutputExprs(flat), CandidateRefs(true, Names(flat.bind)))
    requires SameOutside(Names(flat.bind), f1, f2)
    ensures AllSameUnder(lang, env, root, f1, f2, OutputPart(flat).1)
  {
    var refs := CandidateRefs(true, Names(flat.bind));
    AllEntriesFree(env, OutputExprs(flat), refs, |AdmitPart(flat).1|);
    FreeEntriesAreSame(lang, env, root, f1, f2, OutputPart(flat).1, refs);
  }

  /** For a sort key it is the same for every row and whatever its outputs are worth. */
  lemma SortEntriesAreConstant(lang: Lang, env: Env, root: Row, flat: FlatView, f1: Frame, f2: Frame)
    requires FlatWellFormed(flat) && AllPreevaluable(env, flat.sort, CandidateRefs(true, Names(flat.bind) + OutputNames(flat)))
    requires SameOutside(Names(flat.bind) + OutputNames(flat), f1, f2)
    ensures AllSameUnder(lang, env, root, f1, f2, SortPart(flat).1)
  {
    var refs := CandidateRefs(true, Names(flat.bind) + OutputNames(flat));
    AllEntriesFree(env, flat.sort, refs, |AdmitPart(flat).1| + |OutputPart(flat).1|);
    FreeEntriesAreSame(lang, env, root, f1, f2, SortPart(flat).1, refs);
  }

  // ---- an output that reads an earlier one -------------------------------

  /** `x + /base`. */
  function PlusBase(x: string, base: string, cls: NumClass): TypedExpr {
    Node(ScalarType(false), Op.Arith(Add, cls),
         [Node(ScalarType(false), LocalBinding(x), []),
          Node(ScalarType(false), Op.Field(base), [Node(RowType, Root, [])])])
  }

  lemma PlusBaseIsTaken(x: string, base: string, cls: NumClass, refs: CandidateRefs)
    requires x !in refs.binds
    ensures PlusBase(x, base, cls).WellFormed() && Hoistable(PlusBase(x, base, cls), refs)
  {
    var e := PlusBase(x, base, cls);
    var name, read := e.kids[0], e.kids[1];
    assert name.WellFormed() && read.kids[0].WellFormed() && read.WellFormed();
    assert !References(name, refs) && !References(read.kids[0], refs) && !References(read, refs);
    assert HasExternal(read.kids[0]) && Visited(read.op, 0) && HasExternal(read) && Visited(e.op, 1);
  }

  /** Earlier outputs do not count as the candidate in an output, unlike in a sort key: one
      that adds an earlier output to something external is taken out whole, with the name in
      it. Before any row is projected the name means nothing, so the entry has no value,
      although the output has one wherever the sum has. */
  lemma EarlierOutputIsTakenOut(lang: Lang, env: Env, root: Row, row: Row, x: string, base: string, cls: NumClass,
                                bind: Option<string>, v: Value, w: Value)
    requires bind != Some(x) && base in root.cells && root.cells[base] == Scalar(w) && env.root == root
    ensures var e, frame := PlusBase(x, base, cls), Frame(RowCell(row), map[x := Scalar(v)]);
      && e.WellFormed()
      && HoistNode(e, CandidateRefs(true, Names(bind)), 0).entries == [Entry(SyntheticName(0), e)]
      && Eval(lang, env, Receiver(root), e) == Err(UnboundName(ABinding, x))
      && Eval(lang, env, Receiver(root) + [frame], e)
         == (var sum :- lang.arith(Add, cls, v, w, HalfAwayFromZero); Ok(Scalar(sum)))
  {
    var e, frame := PlusBase(x, base, cls), Frame(RowCell(row), map[x := Scalar(v)]);
    var outer := Receiver(root);
    PlusBaseIsTaken(x, base, cls, CandidateRefs(true, Names(bind)));
    assert outer[..|outer| - 1] == [] && x !in outer[|outer| - 1].bindings;
    assert Lookup(outer, x) == None;
    assert Eval(lang, env, Receiver(root), e.kids[0]) == Err(UnboundName(ABinding, x));
    SumOf(lang, env, Receiver(root) + [frame], e, v, w);
  }

  lemma SumOf(lang: Lang, env: Env, fs: seq<Frame>, e: TypedExpr, v: Value, w: Value)
    requires e.WellFormed() && e.op.Arith? && e.op.op == Add
    requires Eval(lang, env, fs, e.kids[0]) == Ok(Scalar(v)) && Eval(lang, env, fs, e.kids[1]) == Ok(Scalar(w))
    ensures Eval(lang, env, fs, e) == (var sum :- lang.arith(Add, e.op.cls, v, w, HalfAwayFromZero); Ok(Scalar(sum)))
  {
    var need := AScalar(ExpectedScalar);
    assert EvalEach(lang, env, fs, e, 2, 2, need) == Ok([]);
    assert [w] + [] == [w] && [v] + [w] == [v, w];
    assert EvalEach(lang, env, fs, e, 1, 2, need) == Ok([w]);
    assert EvalEach(lang, env, fs, e, 0, 2, need) == Ok([v, w]);
  }
}
