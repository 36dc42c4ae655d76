/** What hoisting does to the value of an expression. */
module HoistMeaning {
  import opened Values
  import opened Rows
  import opened TypedExprs
  import opened Evaluator
  import opened Pairing
  import opened Streaming
  import opened Simulation
  import opened Hoist

  function EntryMap(entries: seq<Entry>): map<string, TypedExpr> {
    if entries == [] then map[]
    else EntryMap(entries[..|entries| - 1])[entries[|entries| - 1].name := entries[|entries| - 1].subtree]
  }

  lemma {:induction false} EntryMapCovers(entries: seq<Entry>)
    requires DistinctNames(entries)
    requires forall i :: 0 <= i < |entries| ==> entries[i].subtree.WellFormed()
    ensures Covers(EntryMap(entries), entries) && AllWellFormed(EntryMap(entries))
    ensures forall n :: n in EntryMap(entries) <==> exists i :: 0 <= i < |entries| && entries[i].name == n
  {
    if entries != [] {
      var front := entries[..|entries| - 1];
      EntryMapCovers(front);
      forall i | 0 <= i < |front|
        ensures EntryMap(entries)[entries[i].name] == entries[i].subtree
      {
        assert front[i] == entries[i];
      }
      forall n | n in EntryMap(entries)
        ensures exists i :: 0 <= i < |entries| && entries[i].name == n
      {
        if n in EntryMap(front) {
          var i :| 0 <= i < |front| && front[i].name == n;
          assert entries[i].name == n;
        }
      }
    }
  }

  ghost predicate Holds(lang: Lang, env: Env, fs0: seq<Frame>, sub: map<string, TypedExpr>, n: string, bound: Option<Cell>)
    requires AllWellFormed(sub)
  {
    n in sub ==> bound.Some? && Eval(lang, env, fs0, sub[n]) == Ok(bound.value)
  }

  /** Every entry pre-evaluated without error, and `env1` binds it to that value. */
  ghost predicate Seeded(lang: Lang, env1: Env, env: Env, fs0: seq<Frame>, sub: map<string, TypedExpr>)
    requires AllWellFormed(sub)
  {
    forall n :: Holds(lang, env, fs0, sub, n, env1.binding(n))
  }

  lemma {:induction false} FillNothing(e: TypedExpr)
    requires e.WellFormed()
    ensures Fill(e, map[]) == e
  {
    forall i | 0 <= i < |e.kids|
      ensures Fill(e.kids[i], map[]) == e.kids[i]
    {
      FillNothing(e.kids[i]);
    }
    assert Fill(e, map[]).kids == e.kids;
  }

  lemma NoFrames(p: Place, flow: Flow, top: bool, stays: bool)
    requires p.entries == Nothing
    ensures Under(p, flow, top, stays).entries == Nothing
  {
    assert {} - flow.upto == {};
  }

  /** An expression has one value in two stacks that share what it reads. */
  lemma Coincide(lang: Lang, env: Env, shared: Shared, fs: seq<Frame>, fs': seq<Frame>, e: TypedExpr)
    requires e.WellFormed() && AgreeOn(shared, fs, fs') && Transfers(Alone(env), e, Place(shared, Nothing, AsValue))
    ensures Eval(lang, env, fs, e) == Eval(lang, env, fs', e)
  {
    SimEval(lang, Alone(env), Stacks(fs, fs, fs'), e, Place(shared, Nothing, AsValue));
    FillNothing(e);
  }

  // ---- values and streams ------------------------------------------------

  /** The rows of a stream bind no names but its own. */
  lemma {:induction false} Within(lang: Lang, env: Env, fs: seq<Frame>, e: TypedExpr)
    requires e.WellFormed()
    ensures ResultsPair(Flow({}, {}, StreamNames(e), false), EvalView(lang, env, fs, e), EvalView(lang, env, fs, e))
  {
    if e.op.Traverse? {
      Within(lang, env, fs, e.kids[0]);
      WithinTraverse(lang, env, fs, e);
    } else if e.op.SelectBind? {
      Within(lang, env, fs, e.kids[0]);
      WithinFilter(lang, env, fs, e);
    } else {
      WithinCells(lang, env, fs, e);
    }
  }

  lemma WithinTraverse(lang: Lang, env: Env, fs: seq<Frame>, e: TypedExpr)
    requires e.WellFormed() && e.op.Traverse?
    requires var a := EvalView(lang, env, fs, e.kids[0]); ResultsPair(Flow({}, {}, StreamNames(e.kids[0]), false), a, a)
    ensures ResultsPair(Flow({}, {}, StreamNames(e), false), EvalView(lang, env, fs, e), EvalView(lang, env, fs, e))
  {
    var a, name := EvalView(lang, env, fs, e.kids[0]), BindNameOf(e.kids[0]);
    var flow, all := Flow({}, {}, StreamNames(e.kids[0]), false), EvalView(lang, env, fs, e);
    if a.Ok? {
      FlattenPair(flow, a.value, a.value, name, name, e.op.member);
      assert EvalTraverse(lang, env, fs, e) == Flatten(a.value, name, e.op.member);
      assert all == EvalTraverse(lang, env, fs, e);
      CoversResults(TraverseFlow(flow, name, name, e.op.member), Flow({}, {}, StreamNames(e), false), all, all);
    }
  }

  lemma WithinFilter(lang: Lang, env: Env, fs: seq<Frame>, e: TypedExpr)
    requires e.WellFormed() && e.op.SelectBind?
    requires var a := EvalView(lang, env, fs, e.kids[0]); ResultsPair(Flow({}, {}, StreamNames(e.kids[0]), false), a, a)
    ensures ResultsPair(Flow({}, {}, StreamNames(e), false), EvalView(lang, env, fs, e), EvalView(lang, env, fs, e))
  {
    var a, flow, side := EvalView(lang, env, fs, e.kids[0]), Flow({}, {}, StreamNames(e.kids[0]), false), Side(env, fs, e);
    if a.Ok? {
      forall x, y
        ensures KeepsAlike(lang, side, side, flow, x, y)
      {
        if ScopesPair(flow, x, y) { SameFilterFrame(fs, x, y, e.op.name, flow); }
      }
      SameBindScopes(lang, side, side, flow, a.value, a.value);
    }
    CoversResults(flow.Bind({e.op.name}), Flow({}, {}, StreamNames(e), false), EvalView(lang, env, fs, e), EvalView(lang, env, fs, e));
  }

  lemma SameFilterFrame(fs: seq<Frame>, x: RowScope, y: RowScope, name: string, flow: Flow)
    requires ScopesPair(flow, x, y) && flow.lost == {}
    ensures FilterFrame(fs, x, name) == FilterFrame(fs, y, name)
  {
    forall n
      ensures SameAt(Bindings(x), Bindings(y), n)
    {
    }
    assert forall n :: n in Bindings(x) <==> SameAt(Bindings(x), Bindings(y), n) && n in Bindings(y);
    assert Bindings(x) == Bindings(y);
  }

  lemma WithinCells(lang: Lang, env: Env, fs: seq<Frame>, e: TypedExpr)
    requires e.WellFormed() && !e.op.Traverse? && !e.op.SelectBind?
    ensures ResultsPair(Flow({}, {}, {}, false), EvalView(lang, env, fs, e), EvalView(lang, env, fs, e))
  {
  }

  /** A stream next to its rows alone: every binding is lost. */
  lemma BareRows(flow: Flow, scopes: seq<RowScope>, names: set<string>, ids: bool)
    requires StreamsPair(flow, scopes, scopes) && flow.upto <= names
    requires ids ==> forall i :: 0 <= i < |scopes| ==> scopes[i].identity == scopes[i].row.id
    ensures StreamsPair(Flow(names, {}, names, ids), BareAll(RowsOf(scopes)), scopes)
  {
    var bare := BareAll(RowsOf(scopes));
    forall i | 0 <= i < |bare|
      ensures ScopesPair(Flow(names, {}, names, ids), bare[i], scopes[i])
    {
      assert ScopesPair(flow, scopes[i], scopes[i]);
      forall n | n !in names
        ensures SameAt(Bindings(bare[i]), Bindings(scopes[i]), n)
      {
      }
    }
  }

  /** When the value of `e` has the rows its stream has, a cell holding the value streams
      them, without their bindings and with identities of their own. */
  lemma {:induction false} ValueStreams(lang: Lang, env: Env, fs: seq<Frame>, e: TypedExpr)
    requires e.WellFormed() && Streamable(env, e) && Eval(lang, env, fs, e).Ok?
    ensures ResultsPair(EntryFlow(e), AsView(Eval(lang, env, fs, e).value), EvalView(lang, env, fs, e))
  {
    if e.op.Traverse? {
      Within(lang, env, fs, e);
      BareRows(Flow({}, {}, StreamNames(e), false), EvalView(lang, env, fs, e).value, StreamNames(e), false);
    } else if e.op.SelectBind? {
      assert Eval(lang, env, fs, e) == EvalStream(lang, env, fs, e);
      assert SelectRows(lang, env, fs, e).Ok?;
      ValueStreams(lang, env, fs, e.kids[0]);
      FilterStreams(lang, env, fs, e);
    } else if e.op.Project? && e.ty.RowType? {
      ValueStreams(lang, env, fs, e.kids[0]);
      RowStreams(lang, env, fs, e);
    } else {
      CellStreams(lang, env, fs, e);
    }
  }

  lemma CellStreams(lang: Lang, env: Env, fs: seq<Frame>, e: TypedExpr)
    requires e.WellFormed() && Eval(lang, env, fs, e).Ok? && !e.op.Traverse? && !e.op.SelectBind? && !(e.op.Project? && e.ty.RowType?)
    ensures ResultsPair(NoBinds, AsView(Eval(lang, env, fs, e).value), EvalView(lang, env, fs, e))
  {
    AsViewPair(Eval(lang, env, fs, e).value);
    if e.op.SelectKeys? {
      var rows := SelectRows(lang, env, fs, e);
      assert EvalStream(lang, env, fs, e) == Eval(lang, env, fs, e);
      assert |rows.value| == 1 ==> BareAll(rows.value) == [Bare(rows.value[0])];
    } else if e.op.Project? {
      assert EvalStream(lang, env, fs, e) == Eval(lang, env, fs, e);
    }
  }

  /** The condition has one value whether the row under test is `.` or not. */
  lemma ConditionStreams(lang: Lang, env: Env, fs: seq<Frame>, e: TypedExpr, row: Row, scope: RowScope)
    requires e.WellFormed() && e.op.SelectBind? && e.op.filtered && Streamable(env, e)
    requires ScopesPair(EntryFlow(e.kids[0]), Bare(row), scope)
    ensures Eval(lang, env, fs + [Frame(RowCell(row), map[e.op.name := RowCell(row)])], e.kids[1])
         == Eval(lang, env, fs + [FilterFrame(fs, scope, e.op.name)], e.kids[1])
  {
    var f1, f2 := Frame(RowCell(row), map[e.op.name := RowCell(row)]), FilterFrame(fs, scope, e.op.name);
    BindMaps(EntryFlow(e.kids[0]), Bindings(Bare(row)), Bindings(scope), e.op.name, RowCell(row));
    assert Bindings(Bare(row))[e.op.name := RowCell(row)] == f1.bindings;
    InPairedFrames(lang, env, fs, e.kids[1], EntryFlow(e.kids[0]).Bind({e.op.name}), false, f1, f2);
  }

  /** One value in two paired frames on one stack. */
  lemma InPairedFrames(lang: Lang, env: Env, fs: seq<Frame>, e: TypedExpr, flow: Flow, top: bool, f1: Frame, f2: Frame)
    requires e.WellFormed() && Transfers(Alone(env), e, Under(Place(Everything, Nothing, AsValue), flow, top, false))
    requires MapsPair(flow, f1.bindings, f2.bindings) && (top ==> f1.current == f2.current)
    ensures Eval(lang, env, fs + [f1], e) == Eval(lang, env, fs + [f2], e)
  {
    var here := Place(Everything, Nothing, AsValue);
    PushAgrees(Everything, flow, fs, fs, f1, f2, top);
    NoFrames(here, flow, top, false);
    SimEval(lang, Alone(env), Stacks(fs, fs + [f1], fs + [f2]), e, Under(here, flow, top, false));
    FillNothing(e);
  }

  lemma {:induction false} FilterAsBinds(lang: Lang, env: Env, fs: seq<Frame>, e: TypedExpr, rows: seq<Row>, scopes: seq<RowScope>)
    requires e.WellFormed() && e.op.SelectBind? && Streamable(env, e)
    requires StreamsPair(EntryFlow(e.kids[0]), BareAll(rows), scopes) && FilterRows(lang, env, fs, e, rows).Ok?
    ensures ResultsPair(EntryFlow(e), Ok(BareAll(FilterRows(lang, env, fs, e, rows).value)), BindScopes(lang, env, fs, e, scopes))
    decreases |rows|
  {
    if rows == [] {
      assert scopes == [];
    } else {
      assert ScopesPair(EntryFlow(e.kids[0]), BareAll(rows)[0], scopes[0]);
      assert BareAll(rows)[1..] == BareAll(rows[1..]);
      assert StreamsPair(EntryFlow(e.kids[0]), BareAll(rows[1..]), scopes[1..]);
      if e.op.filtered { ConditionStreams(lang, env, fs, e, rows[0], scopes[0]); }
      FilterStep(lang, env, fs, e, rows);
      FilterAsBinds(lang, env, fs, e, rows[1..], scopes[1..]);
      ScopesStep(lang, env, fs, e, scopes);
      KeptEntry(e, rows[0], scopes[0]);
      KeptRows(EntryFlow(e), VerdictOn(lang, env, fs, e, scopes[0]), rows[0], KeptScope(e.op.name, scopes[0]),
               FilterRows(lang, env, fs, e, rows[1..]).value, BindScopes(lang, env, fs, e, scopes[1..]));
    }
  }

  /** The verdict of the filter on one row, the row being `.`. */
  function RowVerdict(lang: Lang, env: Env, fs: seq<Frame>, e: TypedExpr, row: Row): Result<Cell>
    requires e.WellFormed() && e.op.SelectBind?
  {
    if e.op.filtered then Eval(lang, env, fs + [Frame(RowCell(row), map[e.op.name := RowCell(row)])], e.kids[1])
    else Ok(Scalar(Bool(true)))
  }

  lemma {:induction false} FilterStep(lang: Lang, env: Env, fs: seq<Frame>, e: TypedExpr, rows: seq<Row>)
    requires e.WellFormed() && e.op.SelectBind? && rows != [] && FilterRows(lang, env, fs, e, rows).Ok?
    ensures var verdict, rest := RowVerdict(lang, env, fs, e, rows[0]), FilterRows(lang, env, fs, e, rows[1..]);
      verdict.Ok? && rest.Ok? &&
      FilterRows(lang, env, fs, e, rows).value == (if IsTrue(verdict.value) then [rows[0]] else []) + rest.value
  {
    if !e.op.filtered { assert [rows[0]] + rows[1..] == rows; }
  }

  lemma KeptEntry(e: TypedExpr, row: Row, scope: RowScope)
    requires e.WellFormed() && e.op.SelectBind? && ScopesPair(EntryFlow(e.kids[0]), Bare(row), scope)
    ensures ScopesPair(EntryFlow(e), Bare(row), KeptScope(e.op.name, scope))
  {
    BindLast(map[], scope.binds, e.op.name, RowCell(scope.row));
    forall n | n !in StreamNames(e)
      ensures SameAt(Bindings(Bare(row)), Bindings(KeptScope(e.op.name, scope)), n)
    {
      assert SameAt(Bindings(Bare(row)), Bindings(scope), n);
    }
  }

  lemma KeptRows(flow: Flow, verdict: Result<Cell>, row: Row, scope: RowScope, rows: seq<Row>, rest: Result<seq<RowScope>>)
    requires verdict.Ok? && ScopesPair(flow, Bare(row), scope) && ResultsPair(flow, Ok(BareAll(rows)), rest)
    ensures ResultsPair(flow, Ok(BareAll((if IsTrue(verdict.value) then [row] else []) + rows)), Kept(verdict, scope, rest))
  {
    var kept := if IsTrue(verdict.value) then [row] else [];
    assert BareAll(kept + rows) == (if IsTrue(verdict.value) then [Bare(row)] else []) + BareAll(rows);
    KeptResults(flow, verdict, Bare(row), scope, Ok(BareAll(rows)), rest);
  }

  lemma FilterStreams(lang: Lang, env: Env, fs: seq<Frame>, e: TypedExpr)
    requires e.WellFormed() && e.op.SelectBind? && Streamable(env, e)
    requires Eval(lang, env, fs, e).Ok? && SelectRows(lang, env, fs, e).Ok?
    requires Eval(lang, env, fs, e.kids[0]).Ok? && !Eval(lang, env, fs, e.kids[0]).value.Scalar? &&
      ResultsPair(EntryFlow(e.kids[0]), AsView(Eval(lang, env, fs, e.kids[0]).value), EvalView(lang, env, fs, e.kids[0]))
    ensures ResultsPair(EntryFlow(e), AsView(Eval(lang, env, fs, e).value), EvalView(lang, env, fs, e))
  {
    var source := Eval(lang, env, fs, e.kids[0]).value;
    assert Eval(lang, env, fs, e) == EvalStream(lang, env, fs, e);
    var rows := if source.Collection? then source.rows else [source.row];
    assert SelectRows(lang, env, fs, e) == FilterRows(lang, env, fs, e, rows);
    assert source.RowCell? ==> BareAll(rows) == [Bare(source.row)];
    assert AsView(source) == Ok(BareAll(rows));
    FilterAsBinds(lang, env, fs, e, rows, EvalView(lang, env, fs, e.kids[0]).value);
    var kept := FilterRows(lang, env, fs, e, rows).value;
    assert |kept| == 1 ==> BareAll(kept) == [Bare(kept[0])];
  }

  lemma RowOperandsServe(lang: Lang, env: Env, fs: seq<Frame>, e: TypedExpr)
    requires e.WellFormed() && e.op.Project? && e.ty.RowType? && Streamable(env, e)
    ensures RowsServe(lang, Side(env, fs, e), Side(env, fs, e), EntryFlow(e.kids[0]))
  {
    var side, source := Side(env, fs, e), EntryFlow(e.kids[0]);
    forall i | 0 < i < |e.kids|
      ensures Serves(lang, side, side, i, RowFlow(e.op, e.ty, source, i))
    {
      forall f1, f2
        ensures ServesIn(lang, side, side, i, RowFlow(e.op, e.ty, source, i), f1, f2)
      {
        RowOperandServes(lang, env, fs, e, i, f1, f2);
      }
    }
  }

  lemma RowOperandServes(lang: Lang, env: Env, fs: seq<Frame>, e: TypedExpr, i: nat, f1: Frame, f2: Frame)
    requires e.WellFormed() && e.op.Project? && e.ty.RowType? && Streamable(env, e) && 0 < i < |e.kids|
    ensures ServesIn(lang, Side(env, fs, e), Side(env, fs, e), i, RowFlow(e.op, e.ty, EntryFlow(e.kids[0]), i), f1, f2)
  {
    var flow := RowFlow(e.op, e.ty, EntryFlow(e.kids[0]), i);
    if MapsPair(flow, f1.bindings, f2.bindings) && f1.current == f2.current {
      InPairedFrames(lang, env, fs, e.kids[i], flow, true, f1, f2);
    }
  }

  lemma RowStreams(lang: Lang, env: Env, fs: seq<Frame>, e: TypedExpr)
    requires e.WellFormed() && e.op.Project? && e.ty.RowType? && Streamable(env, e) && Eval(lang, env, fs, e).Ok?
    requires Eval(lang, env, fs, e.kids[0]).Ok? &&
      ResultsPair(EntryFlow(e.kids[0]), AsView(Eval(lang, env, fs, e.kids[0]).value), EvalView(lang, env, fs, e.kids[0]))
    ensures ResultsPair(NoBinds, AsView(Eval(lang, env, fs, e).value), EvalView(lang, env, fs, e))
  {
    var row := Eval(lang, env, fs, e.kids[0]).value.row;
    var scope := EvalView(lang, env, fs, e.kids[0]).value[0];
    assert ScopesPair(EntryFlow(e.kids[0]), Bare(row), scope) && EvalView(lang, env, fs, e.kids[0]).value == [scope];
    RowOperandsServe(lang, env, fs, e);
    SameProjectRow(lang, Side(env, fs, e), Side(env, fs, e), EntryFlow(e.kids[0]), Bare(row), scope, None, None);
    OneProjected(lang, env, fs, e, scope);
    var projected := ProjectRow(lang, env, fs, e, scope, None).value;
    assert Eval(lang, env, fs, e) == Ok(RowCell(projected));
    assert EvalView(lang, env, fs, e) == Ok(BareAll([projected]));
    assert BareAll([projected]) == [Bare(projected)];
    AsViewPair(RowCell(projected));
  }

  // ---- hoisting ----------------------------------------------------------

  lemma PreevaluationServes(lang: Lang, c: Ctx, fs0: seq<Frame>)
    requires AllWellFormed(c.sub) && Seeded(lang, c.env1, c.env2, fs0, c.sub)
    ensures Served(lang, c, fs0)
  {
    forall n, fs, at | n in c.sub
      ensures ServedIn(lang, c, fs0, n, fs, at)
    {
      assert Holds(lang, c.env2, fs0, c.sub, n, c.env1.binding(n));
      if AgreeOn(at, fs0, fs) && Transfers(Alone(c.env2), c.sub[n], Place(at, Nothing, AsValue)) {
        Coincide(lang, c.env2, at, fs0, fs, c.sub[n]);
        if Streamable(c.env2, c.sub[n]) { ValueStreams(lang, c.env2, fs, c.sub[n]); }
      }
    }
  }

  /** What the program relies on: every entry has been evaluated in `fs0` without error and
      is bound in `env1`, the stack `fs` that runs shares `at` with `fs0`, and the residual
      meets the static condition for it. */
  ghost predicate Hoists(lang: Lang, env1: Env, env: Env, fs0: seq<Frame>, fs: seq<Frame>, residual: TypedExpr,
                         sub: map<string, TypedExpr>, at: Shared, pos: Position) {
    && residual.WellFormed() && AllWellFormed(sub) && Seeded(lang, env1, env, fs0, sub)
    && AgreeOn(at, fs0, fs) && (at.depths.Has(0) ==> fs != [])
    && Transfers(Ctx(env1, env, sub), residual, Place(Everything, at, pos))
  }

  /** Hoisting preserves meaning: the residual has the value, or the error, of the original.
      By `Transfers` no entry reads a name or a `.`, `^` or `$` rebound between its place and
      where it was evaluated, and no binding, joined identity or base name of a stream that
      an entry replaces is used. */
  lemma HoistingPreservesMeaning(lang: Lang, env1: Env, env: Env, fs0: seq<Frame>, fs: seq<Frame>, e: TypedExpr,
                                 refs: CandidateRefs, next: nat, sub: map<string, TypedExpr>, at: Shared)
    requires e.WellFormed() && AllWellFormed(sub) && Avoids(e, sub.Keys)
    requires Covers(sub, HoistNode(e, refs, next).entries)
    requires Hoists(lang, env1, env, fs0, fs, HoistNode(e, refs, next).residual, sub, at, AsValue)
    ensures Eval(lang, env1, fs, HoistNode(e, refs, next).residual) == Eval(lang, env, fs, e)
  {
    var c := Ctx(env1, env, sub);
    PreevaluationServes(lang, c, fs0);
    SimEval(lang, c, Stacks(fs0, fs, fs), HoistNode(e, refs, next).residual, Place(Everything, at, AsValue));
    FillUndoesHoist(e, refs, next, sub);
  }

  /** As a view, the residual delivers the rows of the original. */
  lemma HoistingPreservesRows(lang: Lang, env1: Env, env: Env, fs0: seq<Frame>, fs: seq<Frame>, e: TypedExpr,
                              refs: CandidateRefs, next: nat, sub: map<string, TypedExpr>, at: Shared)
    requires e.WellFormed() && AllWellFormed(sub) && Avoids(e, sub.Keys)
    requires Covers(sub, HoistNode(e, refs, next).entries)
    requires Hoists(lang, env1, env, fs0, fs, HoistNode(e, refs, next).residual, sub, at, AsStream)
    ensures var a, b := EvalView(lang, env1, fs, HoistNode(e, refs, next).residual), EvalView(lang, env, fs, e);
      if a.Ok? then b.Ok? && RowsOf(a.value) == RowsOf(b.value) else b.Err? && a.error == b.error
  {
    var c, residual := Ctx(env1, env, sub), HoistNode(e, refs, next).residual;
    PreevaluationServes(lang, c, fs0);
    SimView(lang, c, Stacks(fs0, fs, fs), residual, Place(Everything, at, AsStream));
    FillUndoesHoist(e, refs, next, sub);
    var a, b := EvalView(lang, env1, fs, residual), EvalView(lang, env, fs, e);
    if a.Ok? { PairedRows(FlowOf(sub, residual, false), a.value, b.value); }
  }

  // ---- closed entries ----------------------------------------------------

  /** Reads off the frames only what it pushed on them itself: every name is bound and
      every `.` is set inside `e`, and `$` names come from the environment. */
  ghost predicate Closed(env: Env, e: TypedExpr) {
    e.WellFormed() && Transfers(Alone(env), e, Place(Nothing, Nothing, AsValue))
  }

  /** A closed expression has one value in all frames. */
  lemma ClosedIsConstant(lang: Lang, env: Env, fs: seq<Frame>, fs': seq<Frame>, e: TypedExpr)
    requires Closed(env, e)
    ensures Eval(lang, env, fs, e) == Eval(lang, env, fs', e)
  {
    Coincide(lang, env, Nothing, fs, fs', e);
  }

  /** The names that differ in operand `i`, when those in `lost` do at the node. */
  ghost function LostAt(sub: map<string, TypedExpr>, e: TypedExpr, i: nat, lost: set<string>, pos: Position): set<string>
    requires e.WellFormed() && AllWellFormed(sub)
  {
    if !Framed(e.op, i) then lost
    else
      var flow := FlowAt(sub, e, i, pos);
      (lost + flow.lost) - (flow.always - flow.lost)
  }

  /** No name in `lost`, nor one that a replaced stream lost, is read; no set combinator or
      ungrouped projection takes a joined identity and no temporal selector a base name from
      such a stream, unless an
      aggregate folds the projection; and its rows are those of its value. */
  ghost predicate StreamsKept(env: Env, sub: map<string, TypedExpr>, e: TypedExpr, lost: set<string>, pos: Position)
    requires e.WellFormed() && AllWellFormed(sub)
    decreases e
  {
    if StandsIn(sub, e) then pos.view ==> Streamable(env, sub[e.op.name])
    else
      && (e.op.LocalBinding? ==> e.op.name !in lost) && StreamsServe(sub, e, pos)
      && forall i :: 0 <= i < |e.kids| ==> StreamsKept(env, sub, e.kids[i], LostAt(sub, e, i, lost, pos), PositionAt(e, i, pos))
  }

  function Losing(lost: set<string>, pos: Position): Place { Place(Shared(AllBut(lost), AllBut({})), Nothing, pos) }

  lemma LosingAt(sub: map<string, TypedExpr>, e: TypedExpr, i: nat, lost: set<string>, pos: Position)
    requires e.WellFormed() && AllWellFormed(sub) && i < |e.kids|
    ensures PlaceAt(sub, e, i, Losing(lost, pos)) == Losing(LostAt(sub, e, i, lost, pos), PositionAt(e, i, pos))
  {
    if Framed(e.op, i) {
      var flow := FlowAt(sub, e, i, pos);
      NoFrames(Losing(lost, pos), flow, true, e.op.SelectBind? && pos.view);
      assert Deeper(AllBut({}), true) == AllBut({});
    }
  }

  lemma {:induction false} ClosedEntriesTransfer(c: Ctx, e: TypedExpr, lost: set<string>, pos: Position)
    requires e.WellFormed() && AllWellFormed(c.sub) && StreamsKept(c.env2, c.sub, e, lost, pos)
    requires c.env1 == c.env2.(binding := c.env1.binding)
    requires forall n :: n !in c.sub ==> c.env1.binding(n) == c.env2.binding(n)
    requires forall n :: n in c.sub ==> Closed(c.env2, c.sub[n])
    ensures Transfers(c, e, Losing(lost, pos))
    decreases e
  {
    if Replaced(c, e) {
      assert Closed(c.env2, c.sub[e.op.name]);
    } else {
      forall i | 0 <= i < |e.kids|
        ensures Transfers(c, e.kids[i], PlaceAt(c.sub, e, i, Losing(lost, pos)))
      {
        LosingAt(c.sub, e, i, lost, pos);
        ClosedEntriesTransfer(c, e.kids[i], LostAt(c.sub, e, i, lost, pos), PositionAt(e, i, pos));
      }
    }
  }

  /** When the hoisted subtrees are closed and what their streams lose is not used,
      evaluating them once, in any frames `fs0`, and binding them to their synthetic names
      preserves the value in every frames `fs`. */
  lemma ClosedHoistingPreservesMeaning(lang: Lang, env1: Env, env: Env, fs0: seq<Frame>, fs: seq<Frame>, e: TypedExpr,
                                       refs: CandidateRefs, next: nat, sub: map<string, TypedExpr>)
    requires e.WellFormed() && AllWellFormed(sub) && Avoids(e, sub.Keys)
    requires Covers(sub, HoistNode(e, refs, next).entries)
    requires Seeded(lang, env1, env, fs0, sub)
    requires env1 == env.(binding := env1.binding) && forall n :: n !in sub ==> env1.binding(n) == env.binding(n)
    requires forall n :: n in sub ==> Closed(env, sub[n])
    requires StreamsKept(env, sub, HoistNode(e, refs, next).residual, {}, AsValue)
    ensures Eval(lang, env1, fs, HoistNode(e, refs, next).residual) == Eval(lang, env, fs, e)
  {
    ClosedEntriesTransfer(Ctx(env1, env, sub), HoistNode(e, refs, next).residual, {}, AsValue);
    HoistingPreservesMeaning(lang, env1, env, fs0, fs, e, refs, next, sub, Nothing);
  }

  // ---- an audited residual is self-contained -----------------------------

  /** Some node divides under the declared rounding mode. */
  predicate Rounds(e: TypedExpr) {
    ReadsRounding(e.op) || exists i :: 0 <= i < |e.kids| && Rounds(e.kids[i])
  }

  /** Where nothing is replaced nothing is lost. */
  lemma {:induction false} NothingLost(e: TypedExpr, bare: bool)
    requires e.WellFormed()
    ensures FlowOf(map[], e, bare).lost == {} && FlowOf(map[], e, bare).ids
  {
    if e.op.SelectBind? {
      NothingLost(e.kids[0], bare);
    } else if e.op.Traverse? {
      NothingLost(e.kids[0], false);
      FillNothing(e.kids[0]);
    }
  }

  lemma NothingLostAt(e: TypedExpr, i: nat, pos: Position)
    requires e.WellFormed() && i < |e.kids|
    ensures LostAt(map[], e, i, {}, pos) == {}
    ensures e.op.Project? ==> SourceFlow(map[], e, pos).ids
  {
    if e.op.SelectBind? || e.op.Project? { NothingLost(e.kids[0], PositionAt(e, 0, pos).bare); }
  }

  lemma UnreplacedStreams(e: TypedExpr, pos: Position)
    requires e.WellFormed() && !e.op.Temporal?
    ensures StreamsServe(map[], e, pos)
  {
    if e.op.Combine? {
      NothingLost(e.kids[0], false);
      NothingLost(e.kids[1], false);
    } else if e.op.Project? {
      NothingLostAt(e, 0, pos);
    }
  }

  lemma {:induction false} AuditedTransfers(c: Ctx, e: TypedExpr, pos: Position)
    requires e.WellFormed() && !HasExternal(e) && c.sub == map[]
    requires c.env1.binding == c.env2.binding && (Rounds(e) ==> c.env1.rounding == c.env2.rounding)
    ensures Transfers(c, e, Losing({}, pos))
    decreases e
  {
    UnreplacedStreams(e, pos);
    forall i | 0 <= i < |e.kids|
      ensures Transfers(c, e.kids[i], PlaceAt(c.sub, e, i, Losing({}, pos)))
    {
      assert Visited(e.op, i);
      LosingAt(c.sub, e, i, {}, pos);
      NothingLostAt(e, i, pos);
      AuditedTransfers(c, e.kids[i], PositionAt(e, i, pos));
    }
  }

  /** A residual that passes the audit has one value in any two environments with the same
      scope bindings, whatever their root, parameters, imports, clock, hosts and indices.
      Only one that divides decimals or averages needs their rounding modes equal too. */
  lemma AuditedIsSelfContained(lang: Lang, env1: Env, env2: Env, fs: seq<Frame>, e: TypedExpr)
    requires e.WellFormed() && Audit(e).None?
    requires env1.binding == env2.binding && (Rounds(e) ==> env1.rounding == env2.rounding)
    ensures Eval(lang, env1, fs, e) == Eval(lang, env2, fs, e)
  {
    var c := Ctx(env1, env2, map[]);
    ExternalKindFinds(e);
    AuditedTransfers(c, e, AsValue);
    SimEval(lang, c, Stacks(fs, fs, fs), e, Losing({}, AsValue));
    FillNothing(e);
  }
}
