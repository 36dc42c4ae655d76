/** Inputs on which hoisting or lowering changes meaning, one for each side condition of
    the preservation results. */
module HoistLimits {
  import opened Values
  import opened Rows
  import opened TypedExprs
  import opened Evaluator
  import opened Pairing
  import opened Streaming
  import opened Simulation
  import opened Hoist
  import opened HoistMeaning
  import opened Lowering

  function Leafy(op: Op): TypedExpr { Node(ScalarType(false), op, []) }

  function RowWith(name: string, v: Value): Row { Row([], NoneValue, map[name := Scalar(v)], []) }

  function AtRow(row: Row): seq<Frame> { [Frame(RowCell(row), map[])] }

  ghost const CandidateIsCurrent := CandidateRefs(true, {})

  /** `env` with the first synthetic name bound. */
  function Seed(env: Env, cell: Cell): Env {
    env.(binding := (name: string) => if name == SyntheticName(0) then Some(cell) else env.binding(name))
  }

  /** The one entry of `e` has the value `cell` in `fs0`, and with that value bound the
      residual does not have the value of `e` in `fs`. */
  ghost predicate Diverges(lang: Lang, env: Env, fs0: seq<Frame>, fs: seq<Frame>, e: TypedExpr, refs: CandidateRefs, cell: Cell) {
    e.WellFormed() &&
    var h := HoistNode(e, refs, 0);
    && AllWellFormed(EntryMap(h.entries)) && Covers(EntryMap(h.entries), h.entries)
    && Seeded(lang, Seed(env, cell), env, fs0, EntryMap(h.entries))
    && Eval(lang, Seed(env, cell), fs, h.residual) != Eval(lang, env, fs, e)
  }

  lemma SeedServes(lang: Lang, env: Env, fs0: seq<Frame>, entry: Entry, cell: Cell)
    requires entry.name == SyntheticName(0) && entry.subtree.WellFormed()
    requires Eval(lang, env, fs0, entry.subtree) == Ok(cell)
    ensures EntryMap([entry]) == map[entry.name := entry.subtree]
    ensures AllWellFormed(EntryMap([entry])) && Covers(EntryMap([entry]), [entry])
    ensures Seeded(lang, Seed(env, cell), env, fs0, EntryMap([entry]))
  {
    assert [entry][..0] == [];
  }

  /** An expression hoisted whole has, wherever it runs, the value it had where it was
      evaluated; so its meaning is kept in `fs` exactly when it has that value there. */
  lemma HoistedWhole(lang: Lang, env: Env, fs0: seq<Frame>, fs: seq<Frame>, e: TypedExpr, refs: CandidateRefs, cell: Cell)
    requires e.WellFormed() && Hoistable(e, refs) && Eval(lang, env, fs0, e) == Ok(cell)
    ensures Diverges(lang, env, fs0, fs, e, refs, cell) <==> Eval(lang, env, fs, e) != Ok(cell)
  {
    SeedServes(lang, env, fs0, Entry(SyntheticName(0), e), cell);
  }

  function Slot(ty: ExprType): TypedExpr { Node(ty, ScopeBinding(SyntheticName(0)), []) }

  /** Of the first `n` operands only the `j`-th gives anything up, and that is `h`. */
  ghost predicate GivesOnly(e: TypedExpr, refs: CandidateRefs, j: nat, h: Hoisted, n: nat)
    requires e.WellFormed() && j < |e.kids| && n <= |e.kids|
  {
    && HoistKids(e, refs, 0, n).0 == e.kids[j := h.residual][..n]
    && HoistKids(e, refs, 0, n).1 == if j < n then h.entries else []
  }

  ghost predicate OthersStay(e: TypedExpr, refs: CandidateRefs, j: nat)
    requires e.WellFormed()
  {
    forall i :: 0 <= i < |e.kids| && i != j ==> Extracted(e.kids[i], refs)
  }

  lemma {:induction false} HoistsOnly(e: TypedExpr, refs: CandidateRefs, j: nat, h: Hoisted, n: nat)
    requires e.WellFormed() && j < |e.kids| && n <= |e.kids| && HoistNode(e.kids[j], refs, 0) == h && OthersStay(e, refs, j)
    ensures GivesOnly(e, refs, j, h, n)
    decreases n
  {
    if n > 0 {
      HoistsOnly(e, refs, j, h, n - 1);
      HoistsOneMore(e, refs, j, h, n);
    }
  }

  lemma HoistsOneMore(e: TypedExpr, refs: CandidateRefs, j: nat, h: Hoisted, n: nat)
    requires e.WellFormed() && j < |e.kids| && 0 < n <= |e.kids| && HoistNode(e.kids[j], refs, 0) == h && OthersStay(e, refs, j)
    requires GivesOnly(e, refs, j, h, n - 1)
    ensures GivesOnly(e, refs, j, h, n)
  {
    var kids, next := e.kids[j := h.residual], if j < n - 1 then |h.entries| else 0;
    assert kids[..n - 1] + [kids[n - 1]] == kids[..n];
    if n - 1 != j {
      assert Extracted(e.kids[n - 1], refs);
      assert Stays(e.kids[n - 1], refs, next);
    }
    NextKid(e, refs, n, next);
  }

  lemma NextKid(e: TypedExpr, refs: CandidateRefs, n: nat, next: nat)
    requires e.WellFormed() && 0 < n <= |e.kids| && |HoistKids(e, refs, 0, n - 1).1| == next
    ensures var before, kid := HoistKids(e, refs, 0, n - 1), HoistNode(e.kids[n - 1], refs, next);
      HoistKids(e, refs, 0, n) == (before.0 + [kid.residual], before.1 + kid.entries)
  {
  }

  /** A node that stays and loses something in its `j`-th operand only. */
  lemma HoistsAt(e: TypedExpr, refs: CandidateRefs, j: nat, h: Hoisted)
    requires e.WellFormed() && j < |e.kids| && References(e, refs) && HoistNode(e.kids[j], refs, 0) == h
    requires forall i :: 0 <= i < |e.kids| && i != j ==> Extracted(e.kids[i], refs)
    ensures HoistNode(e, refs, 0) == Hoisted(Node(e.ty, e.op, e.kids[j := h.residual]), h.entries)
  {
    HoistsOnly(e, refs, j, h, |e.kids|);
    var kids := e.kids[j := h.residual];
    assert kids[..|e.kids|] == kids;
  }

  /** With one entry, the meaning is lost exactly where the residual has another value. */
  lemma OneEntry(lang: Lang, env: Env, fs0: seq<Frame>, fs: seq<Frame>, e: TypedExpr, refs: CandidateRefs, residual: TypedExpr,
                 subtree: TypedExpr, cell: Cell)
    requires e.WellFormed() && HoistNode(e, refs, 0) == Hoisted(residual, [Entry(SyntheticName(0), subtree)])
    requires subtree.WellFormed() && Eval(lang, env, fs0, subtree) == Ok(cell)
    ensures residual.WellFormed()
    ensures Diverges(lang, env, fs0, fs, e, refs, cell) <==> Eval(lang, Seed(env, cell), fs, residual) != Eval(lang, env, fs, e)
  {
    SeedServes(lang, env, fs0, Entry(SyntheticName(0), subtree), cell);
  }

  /** A node that stays and whose `j`-th operand is an entry. */
  lemma HoistedOperand(lang: Lang, env: Env, fs0: seq<Frame>, fs: seq<Frame>, e: TypedExpr, refs: CandidateRefs, j: nat, cell: Cell)
    requires e.WellFormed() && j < |e.kids| && References(e, refs) && Hoistable(e.kids[j], refs)
    requires forall i :: 0 <= i < |e.kids| && i != j ==> Extracted(e.kids[i], refs)
    requires Eval(lang, env, fs0, e.kids[j]) == Ok(cell)
    ensures var residual := Node(e.ty, e.op, e.kids[j := Slot(e.kids[j].ty)]);
      && residual.WellFormed()
      && HoistNode(e, refs, 0) == Hoisted(residual, [Entry(SyntheticName(0), e.kids[j])])
      && (Diverges(lang, env, fs0, fs, e, refs, cell) <==> Eval(lang, Seed(env, cell), fs, residual) != Eval(lang, env, fs, e))
  {
    HoistsAt(e, refs, j, HoistNode(e.kids[j], refs, 0));
    OneEntry(lang, env, fs0, fs, e, refs, Node(e.ty, e.op, e.kids[j := Slot(e.kids[j].ty)]), e.kids[j], cell);
  }

  /** A `$name` that the environment does not serve is hoisted, yet falls back to a cell of
      the enclosing row: evaluated once at the receiver it has the receiver's value. */
  lemma StructuralFallsBack(lang: Lang, env: Env, name: string, atRoot: Value, atCandidate: Value)
    requires env.structural(name).None?
    ensures Diverges(lang, env, AtRow(RowWith("$" + name, atRoot)), AtRow(RowWith("$" + name, atCandidate)),
                     Leafy(Structural(name)), CandidateIsCurrent, Scalar(atRoot))
        <==> atRoot != atCandidate
  {
    var e := Leafy(Structural(name));
    assert Eval(lang, env, AtRow(RowWith("$" + name, atCandidate)), e) == Ok(Scalar(atCandidate));
    HoistedWhole(lang, env, AtRow(RowWith("$" + name, atRoot)), AtRow(RowWith("$" + name, atCandidate)), e, CandidateIsCurrent,
                 Scalar(atRoot));
  }

  ghost const AtCurrent: TypedExpr := Node(ViewType, Op.Temporal(TemporalForm.At), [Leafy(EmptyView), Leafy(Current)])

  /** The instant of a temporal selector is never looked at: reading the candidate there
      does not keep the selector from being hoisted whole. */
  lemma TemporalInstantEscapes()
    ensures AtCurrent.WellFormed() && Hoistable(AtCurrent, CandidateIsCurrent)
    ensures HoistNode(AtCurrent, CandidateIsCurrent, 0).entries == [Entry(SyntheticName(0), AtCurrent)]
  {
    assert !References(AtCurrent.kids[0], CandidateIsCurrent);
    assert OwnExternal(AtCurrent.op).Some?;
  }

  function Time(t: int): seq<Frame> { [Frame(Scalar(Timestamp(t)), map[])] }

  function RecoveredAt(env: Env, t: int): Result<Cell> {
    var rows :- env.temporal([], None, AtInstant(t));
    Ok(Collection(rows))
  }

  lemma InstantOf(lang: Lang, env: Env, t: int)
    ensures AtCurrent.WellFormed() && EvalEach(lang, env, Time(t), AtCurrent, 1, 2, AnInstant) == Ok([Timestamp(t)])
  {
    var e, fs := AtCurrent, Time(t);
    assert EvalEach(lang, env, fs, e, 2, 2, AnInstant) == Ok([]);
    assert [Timestamp(t)] + [] == [Timestamp(t)];
    EachStep(lang, env, fs, e, 1, 2, AnInstant);
  }

  lemma EmptyBase(lang: Lang, env: Env, fs: seq<Frame>)
    ensures AtCurrent.WellFormed() && EvalView(lang, env, fs, AtCurrent.kids[0]) == Ok([])
  {
    assert BareAll([]) == [];
    assert Eval(lang, env, fs, AtCurrent.kids[0]) == Ok(Collection([]));
  }

  /** ... and its value is the index at the candidate's own instant. */
  lemma TemporalInstantIsRead(lang: Lang, env: Env, t: int)
    ensures AtCurrent.WellFormed() && Eval(lang, env, Time(t), AtCurrent) == RecoveredAt(env, t)
  {
    InstantOf(lang, env, t);
    EmptyBase(lang, env, Time(t));
    assert RowsOf([]) == [];
    assert Eval(lang, env, Time(t), AtCurrent) == EvalTemporal(lang, env, Time(t), AtCurrent);
  }

  /** Evaluated once at the instant `t0`, it is wrong exactly at the instants with another
      recovery. */
  lemma TemporalInstantDiverges(lang: Lang, env: Env, t0: int, t: int)
    requires RecoveredAt(env, t0).Ok?
    ensures Diverges(lang, env, Time(t0), Time(t), AtCurrent, CandidateIsCurrent, RecoveredAt(env, t0).value)
        <==> RecoveredAt(env, t) != RecoveredAt(env, t0)
  {
    TemporalInstantEscapes();
    TemporalInstantIsRead(lang, env, t0);
    TemporalInstantIsRead(lang, env, t);
    HoistedWhole(lang, env, Time(t0), Time(t), AtCurrent, CandidateIsCurrent, RecoveredAt(env, t0).value);
  }

  // ---- rebound references ------------------------------------------------

  /** `namespace.f(arg)`. */
  function Call(arg: Op): TypedExpr { Node(ScalarType(false), HostCall("h", "f"), [Leafy(arg)]) }

  function CallOn(env: Env, row: Row): Result<Cell> {
    var v :- env.host("h", "f", [row.key]);
    Ok(Scalar(v))
  }

  lemma CallReads(lang: Lang, env: Env, fs: seq<Frame>, arg: Op, row: Row)
    requires Arity(arg) == Some(0) && Leafy(arg).WellFormed() && Eval(lang, env, fs, Leafy(arg)) == Ok(RowCell(row))
    ensures Call(arg).WellFormed() && Eval(lang, env, fs, Call(arg)) == CallOn(env, row)
  {
    var e := Call(arg);
    var need := AScalarOrKey(ExpectedHostArgument);
    assert EvalEach(lang, env, fs, e, 1, 1, need) == Ok([]);
    EachStep(lang, env, fs, e, 0, 1, need);
    assert [row.key] + [] == [row.key];
  }

  /** `p { k: h.f(.) }`, in a filter where only `p` is the candidate. */
  ghost const CallInRow: TypedExpr :=
    Node(RowType, Project([], ["k"], false, [], None, None), [Leafy(LocalBinding("p")), Call(Current)])

  ghost const CandidateIsP := CandidateRefs(false, {"p"})

  lemma CallInRowHoists()
    ensures CallInRow.WellFormed() && References(CallInRow, CandidateIsP) && Hoistable(CallInRow.kids[1], CandidateIsP)
    ensures Extracted(CallInRow.kids[0], CandidateIsP)
  {
    assert References(CallInRow.kids[0], CandidateIsP);
    assert !References(Leafy(Current), CandidateIsP);
    NothingToHoist(CallInRow.kids[0], CandidateIsP);
  }

  /** A one-output projection of a row runs its output with that row as `.`. */
  lemma ProjectsOne(lang: Lang, env: Env, fs: seq<Frame>, e: TypedExpr, row: Row)
    requires e.WellFormed() && e.ty.RowType? && e.op == Project([], ["k"], false, [], None, None)
    requires Eval(lang, env, fs, e.kids[0]) == Ok(RowCell(row))
    ensures var cell := Eval(lang, env, fs + [Frame(RowCell(row), map[])], e.kids[1]);
      Eval(lang, env, fs, e) == if cell.Err? then Err(cell.error) else Ok(RowCell(Row(row.id, row.key, map["k" := cell.value], [])))
  {
    var frame := Frame(RowCell(row), map[]);
    assert BindAll(map[], Bare(row).binds) == map[];
    assert ProjectFrame(Bare(row), None) == frame;
    var cell := Eval(lang, env, fs + [frame], e.kids[1]);
    var loop := LoopBinds(Bare(row), None);
    if cell.Ok? {
      var cells := map["k" := cell.value];
      assert Outputs(lang, env, fs, BindOutput(frame, loop, "k", cell.value), loop, e, 1, false, cells) == Ok(cells);
      assert Outputs(lang, env, fs, frame, loop, e, 0, false, map[]) == Ok(cells);
    } else {
      assert Outputs(lang, env, fs, frame, loop, e, 0, false, map[]) == Err(cell.error);
    }
    assert ProjectRow(lang, env, fs, e, Bare(row), None)
        == if cell.Err? then Err(cell.error) else Ok(Row(row.id, row.key, map["k" := cell.value], []));
    assert Eval(lang, env, fs, e) == EvalStream(lang, env, fs, e);
  }

  lemma CallInRowReads(lang: Lang, env: Env, root: Row, row: Row)
    ensures CallInRow.WellFormed()
    ensures Eval(lang, env, InFilter(root, row), CallInRow)
         == if CallOn(env, row).Err? then Err(CallOn(env, row).error)
            else Ok(RowCell(Row(row.id, row.key, map["k" := CallOn(env, row).value], [])))
  {
    var fs := InFilter(root, row);
    CallInRowHoists();
    assert CurrentAt(fs + [Frame(RowCell(row), map[])], 0) == Ok(RowCell(row));
    CallReads(lang, env, fs + [Frame(RowCell(row), map[])], Current, row);
    assert Eval(lang, env, fs, CallInRow.kids[0]) == Ok(RowCell(row));
    ProjectsOne(lang, env, fs, CallInRow, row);
  }

  /** The frames a filter `[:p | ...]` runs in. */
  function InFilter(root: Row, row: Row): seq<Frame> { [Frame(RowCell(root), map["p" := RowCell(row)])] }

  ghost const CallInRowResidual: TypedExpr := Node(RowType, CallInRow.op, [CallInRow.kids[0], Slot(ScalarType(false))])

  lemma CallInRowIsFixed(lang: Lang, env1: Env, root: Row, row: Row, cell: Cell)
    requires env1.binding(SyntheticName(0)) == Some(cell)
    ensures CallInRowResidual.WellFormed()
    ensures Eval(lang, env1, InFilter(root, row), CallInRowResidual) == Ok(RowCell(Row(row.id, row.key, map["k" := cell], [])))
  {
    var fs := InFilter(root, row);
    assert CallInRowResidual.WellFormed();
    assert Eval(lang, env1, fs, CallInRowResidual.kids[0]) == Ok(RowCell(row));
    assert Eval(lang, env1, fs + [Frame(RowCell(row), map[])], CallInRowResidual.kids[1]) == Ok(cell);
    ProjectsOne(lang, env1, fs, CallInRowResidual, row);
  }

  /** `h.f(.)` reads the row that the projection around it makes `.`; hoisted, it reads the
      receiver instead. */
  lemma CurrentIsRebound(lang: Lang, env: Env, root: Row, row: Row)
    requires CallOn(env, root).Ok?
    ensures Diverges(lang, env, AtRow(root), InFilter(root, row), CallInRow, CandidateIsP, CallOn(env, root).value)
        <==> CallOn(env, row) != CallOn(env, root)
  {
    var cell := CallOn(env, root).value;
    CallInRowHoists();
    CallReads(lang, env, AtRow(root), Current, root);
    HoistedOperand(lang, env, AtRow(root), InFilter(root, row), CallInRow, CandidateIsP, 1, cell);
    assert CallInRow.kids[1 := Slot(CallInRow.kids[1].ty)] == CallInRowResidual.kids;
    CallInRowReads(lang, env, root, row);
    CallInRowIsFixed(lang, Seed(env, cell), root, row, cell);
    assert map["k" := cell]["k"] == cell;
    assert CallOn(env, row).Ok? ==> map["k" := CallOn(env, row).value]["k"] == CallOn(env, row).value;
  }

  /** `.[:x | h.f(x)]`, where an enclosing row is called `x` as well. */
  ghost const CallInFilter: TypedExpr := Node(ViewType, SelectBind("x", true), [Leafy(Current), Call(LocalBinding("x"))])

  lemma CallInFilterHoists()
    ensures CallInFilter.WellFormed() && References(CallInFilter, CandidateIsCurrent)
    ensures Hoistable(CallInFilter.kids[1], CandidateIsCurrent) && Extracted(CallInFilter.kids[0], CandidateIsCurrent)
  {
    assert References(CallInFilter.kids[0], CandidateIsCurrent);
    assert !References(Leafy(LocalBinding("x")), CandidateIsCurrent);
    NothingToHoist(CallInFilter.kids[0], CandidateIsCurrent);
  }

  /** A filter over one row keeps it exactly when the verdict is true. */
  lemma FiltersOne(lang: Lang, env: Env, fs: seq<Frame>, e: TypedExpr, row: Row)
    requires e.WellFormed() && e.ty.ViewType? && e.op == SelectBind("x", true)
    requires Eval(lang, env, fs, e.kids[0]) == Ok(RowCell(row))
    ensures var verdict := Eval(lang, env, fs + [Frame(RowCell(row), map["x" := RowCell(row)])], e.kids[1]);
      Eval(lang, env, fs, e) == if verdict.Err? then Err(verdict.error)
                                else Ok(Collection(if IsTrue(verdict.value) then [row] else []))
  {
    FiltersRow(lang, env, fs, e, row);
    assert SelectRows(lang, env, fs, e) == FilterRows(lang, env, fs, e, [row]);
    assert Eval(lang, env, fs, e) == EvalStream(lang, env, fs, e);
  }

  lemma FiltersRow(lang: Lang, env: Env, fs: seq<Frame>, e: TypedExpr, row: Row)
    requires e.WellFormed() && e.op == SelectBind("x", true)
    ensures var verdict := Eval(lang, env, fs + [Frame(RowCell(row), map["x" := RowCell(row)])], e.kids[1]);
      FilterRows(lang, env, fs, e, [row])
      == if verdict.Err? then Err(verdict.error) else Ok(if IsTrue(verdict.value) then [row] else [])
  {
    var rows, frame := [row], Frame(RowCell(row), map["x" := RowCell(row)]);
    assert rows[0] == row && rows[1..] == [];
    assert FilterRows(lang, env, fs, e, rows[1..]) == Ok([]);
    var verdict := Eval(lang, env, fs + [frame], e.kids[1]);
    if verdict.Ok? {
      var kept := if IsTrue(verdict.value) then [row] else [];
      assert kept + [] == kept;
      assert FilterRows(lang, env, fs, e, rows) == Ok(kept + []);
    } else {
      assert FilterRows(lang, env, fs, e, rows) == Err(verdict.error);
    }
  }

  ghost const CallInFilterResidual: TypedExpr := Node(ViewType, CallInFilter.op, [CallInFilter.kids[0], Slot(ScalarType(false))])

  function InRow(row: Row, x: Row): seq<Frame> { [Frame(RowCell(row), map["x" := RowCell(x)])] }

  function Kept(verdict: Result<Cell>, row: Row): Result<Cell> {
    var v :- verdict;
    Ok(Collection(if IsTrue(v) then [row] else []))
  }

  lemma CallInFilterReads(lang: Lang, env: Env, outer: Row, row: Row)
    ensures CallInFilter.WellFormed() && Eval(lang, env, InRow(row, outer), CallInFilter) == Kept(CallOn(env, row), row)
  {
    var fs := InRow(row, outer);
    var inner := fs + [Frame(RowCell(row), map["x" := RowCell(row)])];
    CallInFilterHoists();
    assert Lookup(inner, "x") == Some(RowCell(row));
    CallReads(lang, env, inner, LocalBinding("x"), row);
    assert Eval(lang, env, fs, CallInFilter.kids[0]) == Ok(RowCell(row));
    FiltersOne(lang, env, fs, CallInFilter, row);
  }

  lemma CallInFilterIsFixed(lang: Lang, env1: Env, fs: seq<Frame>, row: Row, cell: Cell)
    requires env1.binding(SyntheticName(0)) == Some(cell) && CurrentAt(fs, 0) == Ok(RowCell(row))
    ensures CallInFilterResidual.WellFormed() && Eval(lang, env1, fs, CallInFilterResidual) == Kept(Ok(cell), row)
  {
    assert CallInFilterResidual.WellFormed();
    assert Eval(lang, env1, fs, CallInFilterResidual.kids[0]) == Ok(RowCell(row));
    assert Eval(lang, env1, fs + [Frame(RowCell(row), map["x" := RowCell(row)])], CallInFilterResidual.kids[1]) == Ok(cell);
    FiltersOne(lang, env1, fs, CallInFilterResidual, row);
  }

  /** `h.f(x)` reads the row that the filter around it calls `x`; hoisted, it reads the
      enclosing `x`. */
  lemma NameIsRebound(lang: Lang, env: Env, outer: Row, row: Row)
    requires CallOn(env, outer).Ok?
    ensures Diverges(lang, env, InRow(row, outer), InRow(row, outer), CallInFilter, CandidateIsCurrent, CallOn(env, outer).value)
        <==> Kept(CallOn(env, row), row) != Kept(CallOn(env, outer), row)
  {
    var cell := CallOn(env, outer).value;
    CallInFilterHoists();
    assert Lookup(InRow(row, outer), "x") == Some(RowCell(outer));
    CallReads(lang, env, InRow(row, outer), LocalBinding("x"), outer);
    HoistedOperand(lang, env, InRow(row, outer), InRow(row, outer), CallInFilter, CandidateIsCurrent, 1, cell);
    assert CallInFilter.kids[1 := Slot(CallInFilter.kids[1].ty)] == CallInFilterResidual.kids;
    CallInFilterReads(lang, env, outer, row);
    CallInFilterIsFixed(lang, Seed(env, cell), InRow(row, outer), row, cell);
  }

  // ---- guarded operands --------------------------------------------------

  function Guarded(p: string): TypedExpr { Node(ScalarType(false), Logic(And), [Leafy(Current), Leafy(Param(p))]) }

  /** A guarded operand is hoisted like any other ... */
  lemma GuardedIsHoisted(p: string)
    ensures Guarded(p).WellFormed()
    ensures HoistNode(Guarded(p), CandidateIsCurrent, 0).entries == [Entry(SyntheticName(0), Leafy(Param(p)))]
  {
    var e := Guarded(p);
    assert References(e.kids[0], CandidateIsCurrent);
    assert HoistKids(e, CandidateIsCurrent, 0, 0) == ([], []);
    assert HoistNode(e.kids[0], CandidateIsCurrent, 0).entries == [];
    assert HoistKids(e, CandidateIsCurrent, 0, 1).1 == [];
    assert HoistNode(e.kids[1], CandidateIsCurrent, 0).entries == [Entry(SyntheticName(0), Leafy(Param(p)))];
    assert HoistKids(e, CandidateIsCurrent, 0, 2).1 == [Entry(SyntheticName(0), Leafy(Param(p)))];
  }

  /** ... so what the guard would have skipped is evaluated up front, and may fail. */
  lemma PreevaluationMayFail(lang: Lang, env: Env, p: string)
    requires env.param(p).None?
    ensures var fs := [Frame(Scalar(Bool(false)), map[])];
      Guarded(p).WellFormed() && Eval(lang, env, fs, Guarded(p)) == Ok(Scalar(Bool(false))) && Eval(lang, env, fs, Leafy(Param(p))).Err?
  {
    var e, fs := Guarded(p), [Frame(Scalar(Bool(false)), map[])];
    assert EvalEach(lang, env, fs, e, 1, 1, AScalar(ExpectedScalar)) == Ok([]);
    assert EvalEach(lang, env, fs, e, 0, 1, AScalar(ExpectedScalar)) == Ok([Bool(false)] + []);
    assert Eval(lang, env, fs, e) == EvalControl(lang, env, fs, e);
  }

  // ---- the conditions are not necessary ----------------------------------

  /** `(false && .) && <temporal selector at .>`. */
  ghost const DeadEntry: TypedExpr :=
    Node(ScalarType(false), Logic(And), [Node(ScalarType(false), Logic(And), [Leafy(Literal(Bool(false))), Leafy(Current)]), AtCurrent])

  lemma AndOfFalse(lang: Lang, env: Env, fs: seq<Frame>, e: TypedExpr)
    requires e.WellFormed() && e.op == Logic(And) && Eval(lang, env, fs, e.kids[0]) == Ok(Scalar(Bool(false)))
    ensures Eval(lang, env, fs, e) == Ok(Scalar(Bool(false)))
  {
    var need := AScalar(ExpectedScalar);
    assert EvalEach(lang, env, fs, e, 1, 1, need) == Ok([]);
    EachStep(lang, env, fs, e, 0, 1, need);
    assert [Bool(false)] + [] == [Bool(false)];
    assert Eval(lang, env, fs, e) == EvalControl(lang, env, fs, e);
  }

  lemma DeadEntryIsFalse(lang: Lang, env: Env, fs: seq<Frame>, e: TypedExpr)
    requires e.WellFormed() && e.op == Logic(And) && e.kids[0] == DeadEntry.kids[0]
    ensures Eval(lang, env, fs, e) == Ok(Scalar(Bool(false)))
  {
    assert Eval(lang, env, fs, e.kids[0].kids[0]) == Ok(Scalar(Bool(false)));
    AndOfFalse(lang, env, fs, e.kids[0]);
    AndOfFalse(lang, env, fs, e);
  }

  /** The hoisted selector depends on the candidate, so the static condition fails, yet the
      value is the same everywhere: what is never evaluated may be hoisted wrongly. No
      condition on the shape of an expression can be exact while its operators' meanings
      are not looked at. */
  lemma DeadEntryIsHarmless(lang: Lang, env: Env, t0: int, fs: seq<Frame>, at: Shared)
    requires RecoveredAt(env, t0).Ok? && !at.depths.Has(0)
    ensures var cell := RecoveredAt(env, t0).value;
      var h := HoistNode(DeadEntry, CandidateIsCurrent, 0);
      && h.entries == [Entry(SyntheticName(0), AtCurrent)] && AllWellFormed(EntryMap(h.entries))
      && !Transfers(Ctx(Seed(env, cell), env, EntryMap(h.entries)), h.residual, Place(Everything, at, AsValue))
      && !Diverges(lang, env, Time(t0), fs, DeadEntry, CandidateIsCurrent, cell)
  {
    var e, cell := DeadEntry, RecoveredAt(env, t0).value;
    DeadEntryHoists();
    TemporalInstantIsRead(lang, env, t0);
    HoistedOperand(lang, env, Time(t0), fs, e, CandidateIsCurrent, 1, cell);
    SeedServes(lang, env, Time(t0), Entry(SyntheticName(0), AtCurrent), cell);
    var residual := Node(e.ty, e.op, e.kids[1 := Slot(ViewType)]);
    DeadEntryIsFalse(lang, env, fs, e);
    DeadEntryIsFalse(lang, Seed(env, cell), fs, residual);
    SlotFails(Ctx(Seed(env, cell), env, map[SyntheticName(0) := AtCurrent]), residual, at);
  }

  lemma DeadEntryHoists()
    ensures DeadEntry.WellFormed() && References(DeadEntry, CandidateIsCurrent)
    ensures Hoistable(DeadEntry.kids[1], CandidateIsCurrent) && Extracted(DeadEntry.kids[0], CandidateIsCurrent)
  {
    var left := DeadEntry.kids[0];
    TemporalInstantEscapes();
    assert References(left.kids[1], CandidateIsCurrent);
    assert References(left, CandidateIsCurrent);
    assert !HasExternal(left.kids[0]) && !HasExternal(left.kids[1]);
    NothingToHoist(left, CandidateIsCurrent);
  }

  /** The selector reads `.`, which its place does not share with where it was evaluated. */
  lemma SlotFails(c: Ctx, e: TypedExpr, at: Shared)
    requires e.WellFormed() && e.op == Logic(And) && e.kids[1] == Slot(ViewType) && !at.depths.Has(0)
    requires AtCurrent.WellFormed() && c.sub == map[SyntheticName(0) := AtCurrent]
    ensures AllWellFormed(c.sub) && !Transfers(c, e, Place(Everything, at, AsValue))
  {
    var inner := Place(at, Nothing, AsValue);
    assert PlaceAt(map[], AtCurrent, 1, inner) == inner;
    assert !FramesServe(Alone(c.env2), Current, at);
    assert !Transfers(Alone(c.env2), AtCurrent.kids[1], inner);
    assert !Transfers(Alone(c.env2), AtCurrent, inner);
    assert Replaced(c, e.kids[1]);
    assert PlaceAt(c.sub, e, 1, Place(Everything, at, AsValue)).entries == at;
    assert !Transfers(c, e.kids[1], PlaceAt(c.sub, e, 1, Place(Everything, at, AsValue)));
  }

  // ---- the rounding mode -------------------------------------------------

  function Quotient(a: Value, b: Value): TypedExpr {
    Node(ScalarType(true), Op.Arith(Div, DecimalClass), [Leafy(Literal(a)), Leafy(Literal(b))])
  }

  lemma QuotientReads(lang: Lang, env: Env, fs: seq<Frame>, a: Value, b: Value)
    ensures Quotient(a, b).WellFormed()
    ensures Eval(lang, env, fs, Quotient(a, b))
         == (var v :- lang.arith(Div, DecimalClass, a, b, env.rounding); Ok(Scalar(v)))
  {
    var e, need := Quotient(a, b), AScalar(ExpectedScalar);
    assert EvalEach(lang, env, fs, e, 2, 2, need) == Ok([]);
    EachStep(lang, env, fs, e, 1, 2, need);
    EachStep(lang, env, fs, e, 0, 2, need);
    assert [a] + ([b] + []) == [a, b];
  }

  /** The audit lets decimal division pass, and it is the same in two environments exactly
      when their rounding modes give the same quotient. */
  lemma RoundingEscapesTheAudit(lang: Lang, env1: Env, env2: Env, fs: seq<Frame>, a: Value, b: Value)
    ensures Quotient(a, b).WellFormed() && Audit(Quotient(a, b)).None? && Rounds(Quotient(a, b))
    ensures Eval(lang, env1, fs, Quotient(a, b)) == Eval(lang, env2, fs, Quotient(a, b))
       <==> lang.arith(Div, DecimalClass, a, b, env1.rounding) == lang.arith(Div, DecimalClass, a, b, env2.rounding)
  {
    var e := Quotient(a, b);
    QuotientReads(lang, env1, fs, a, b);
    QuotientReads(lang, env2, fs, a, b);
    assert !HasExternal(e.kids[0]) && !HasExternal(e.kids[1]);
    ExternalKindFinds(e);
  }

  function CurrentFilter(): TypedExpr { Node(ViewType, Current, []) }

  /** `.items[:c | .]`. */
  function FilteredItems(c: string): FlatView { FlatView("items", Some(c), Some(CurrentFilter()), [], [], [], None, None) }

  lemma FilteredFaces(c: string)
    ensures FlatWellFormed(FilteredItems(c)) && LowerEntries(FilteredItems(c)) == []
    ensures LowerFaces(FilteredItems(c)) == Faces(Some(CurrentFilter()), [], [])
  {
    var flat, filter := FilteredItems(c), CurrentFilter();
    var refs := CandidateRefs(false, Names(flat.bind));
    NothingToHoist(filter, refs);
    assert Stays(filter, refs, 0);
    assert FilterExprs(flat) == [filter] && FilterExprs(flat)[1..] == [];
    assert HoistAll([], refs, 0) == ([], []);
    assert AdmitPart(flat).0 == [filter] + [] && AdmitPart(flat).1 == [] + [];
    assert OutputExprs(flat) == [] && OutputPart(flat) == ([], []) && SortPart(flat) == ([], []);
  }

  /** A filter's own `.` is the enclosing receiver and is not external, so it stays in the
      residual; the program that runs the residual has the candidate as `.`. */
  lemma FilterReceiverBecomesCandidate(lang: Lang, env: Env, root: Row, row: Row, hoisted: map<string, Cell>, c: string)
    ensures var flat := FilteredItems(c);
      var p := ProgramOf(flat, LowerFaces(flat), hoisted);
      && FlatWellFormed(flat) && p.WellFormed() && LowerEntries(flat) == []
      && Eval(lang, p.EnvFor(row), [p.BaseFrame(row)], p.faces.admit.value) == Ok(RowCell(row))
      && Lowering.Verdict(lang, env, root, flat, row) == Ok(RowCell(root))
  {
    FilteredFaces(c);
  }
}
