/** Filters and projections on two sides: when the operands agree in paired frames, paired
    streams come out paired (eval/views.rs). */
module Streaming {
  import opened Values
  import opened Rows
  import opened TypedExprs
  import opened Order
  import opened Evaluator
  import opened Pairing

  /** One side of a comparison. */
  datatype Side = Side(env: Env, fs: seq<Frame>, e: TypedExpr)

  ghost predicate Alike(l: Side, r: Side) {
    l.e.WellFormed() && r.e.WellFormed() && l.e.op == r.e.op && l.e.ty == r.e.ty && |l.e.kids| == |r.e.kids|
  }

  // ---- operands as values ------------------------------------------------

  /** One value in front of the others, or the first failure. */
  function Consed(cell: Result<Cell>, need: Need, rest: Result<seq<Value>>): Result<seq<Value>> {
    var c :- cell;
    var v :- ToValue(c, need);
    var vs :- rest;
    Ok([v] + vs)
  }

  lemma EachStep(lang: Lang, env: Env, fs: seq<Frame>, e: TypedExpr, i: nat, to: nat, need: Need)
    requires e.WellFormed() && i < to <= |e.kids|
    ensures EvalEach(lang, env, fs, e, i, to, need)
         == Consed(Eval(lang, env, fs, e.kids[i]), need, EvalEach(lang, env, fs, e, i + 1, to, need))
  {
  }

  ghost predicate SameOperand(lang: Lang, l: Side, r: Side, i: nat)
    requires l.e.WellFormed() && r.e.WellFormed() && i < |l.e.kids| && i < |r.e.kids|
  {
    Eval(lang, l.env, l.fs, l.e.kids[i]) == Eval(lang, r.env, r.fs, r.e.kids[i])
  }

  /** Equal operands make equal tuples. */
  lemma {:induction false} SameEach(lang: Lang, l: Side, r: Side, from: nat, to: nat, need: Need)
    requires Alike(l, r) && from <= to <= |l.e.kids|
    requires forall i :: from <= i < to ==> SameOperand(lang, l, r, i)
    ensures EvalEach(lang, l.env, l.fs, l.e, from, to, need) == EvalEach(lang, r.env, r.fs, r.e, from, to, need)
    decreases |l.e.kids| - from
  {
    if from < to {
      SameEach(lang, l, r, from + 1, to, need);
      SameStep(lang, l, r, from, to, need);
    }
  }

  lemma SameStep(lang: Lang, l: Side, r: Side, i: nat, to: nat, need: Need)
    requires Alike(l, r) && i < to <= |l.e.kids| && SameOperand(lang, l, r, i)
    requires EvalEach(lang, l.env, l.fs, l.e, i + 1, to, need) == EvalEach(lang, r.env, r.fs, r.e, i + 1, to, need)
    ensures EvalEach(lang, l.env, l.fs, l.e, i, to, need) == EvalEach(lang, r.env, r.fs, r.e, i, to, need)
  {
    EachStep(lang, l.env, l.fs, l.e, i, to, need);
    EachStep(lang, r.env, r.fs, r.e, i, to, need);
  }

  // ---- operands in a frame of their own ----------------------------------

  /** Operand `i` has one value in these two frames, if they are paired. */
  ghost predicate ServesIn(lang: Lang, l: Side, r: Side, i: nat, flow: Flow, f1: Frame, f2: Frame)
    requires Alike(l, r) && i < |l.e.kids|
  {
    MapsPair(flow, f1.bindings, f2.bindings) && f1.current == f2.current ==>
      Eval(lang, l.env, l.fs + [f1], l.e.kids[i]) == Eval(lang, r.env, r.fs + [f2], r.e.kids[i])
  }

  ghost predicate Serves(lang: Lang, l: Side, r: Side, i: nat, flow: Flow)
    requires Alike(l, r) && i < |l.e.kids|
  {
    forall f1, f2 :: ServesIn(lang, l, r, i, flow, f1, f2)
  }

  /** Every operand of a projection has one value in the paired frames of its source's rows. */
  ghost predicate RowsServe(lang: Lang, l: Side, r: Side, source: Flow)
    requires Alike(l, r) && l.e.op.Project?
  {
    forall i :: 0 < i < |l.e.kids| ==> Serves(lang, l, r, i, RowFlow(l.e.op, l.e.ty, source, i))
  }

  lemma ServedOperand(lang: Lang, l: Side, r: Side, source: Flow, i: nat, flow: Flow, f1: Frame, f2: Frame)
    requires Alike(l, r) && l.e.op.Project? && RowsServe(lang, l, r, source) && 0 < i < |l.e.kids|
    requires flow.Covers(RowFlow(l.e.op, l.e.ty, source, i)) && MapsPair(flow, f1.bindings, f2.bindings) && f1.current == f2.current
    ensures Eval(lang, l.env, l.fs + [f1], l.e.kids[i]) == Eval(lang, r.env, r.fs + [f2], r.e.kids[i])
  {
    CoversMaps(flow, RowFlow(l.e.op, l.e.ty, source, i), f1.bindings, f2.bindings);
    assert Serves(lang, l, r, i, RowFlow(l.e.op, l.e.ty, source, i));
    assert ServesIn(lang, l, r, i, RowFlow(l.e.op, l.e.ty, source, i), f1, f2);
  }

  // ---- the outputs of one row --------------------------------------------

  ghost predicate OutputsAgree(lang: Lang, l: Side, r: Side, f1: Frame, f2: Frame, loop1: set<string>, loop2: set<string>, i: nat,
                               keyOnly: bool, cells: map<string, Cell>)
    requires Alike(l, r) && l.e.op.Project? && i <= |l.e.op.outputs|
  {
    var o := Outputs(lang, l.env, l.fs, f1, loop1, l.e, i, keyOnly, cells);
    && o == Outputs(lang, r.env, r.fs, f2, loop2, r.e, i, keyOnly, cells)
    && (o.Ok? ==> CellsCarry(l.e.op, |l.e.op.outputs|, keyOnly, o.value))
  }

  /** With `cell` as the value of output `i`, the outputs after it agree. */
  ghost predicate NextAgrees(lang: Lang, l: Side, r: Side, f1: Frame, f2: Frame, loop1: set<string>, loop2: set<string>, i: nat,
                             keyOnly: bool, cells: map<string, Cell>, cell: Cell)
    requires Alike(l, r) && l.e.op.Project? && i < |l.e.op.outputs|
  {
    var name := l.e.op.outputs[i];
    OutputsAgree(lang, l, r, BindOutput(f1, loop1, name, cell), BindOutput(f2, loop2, name, cell), loop1, loop2, i + 1, keyOnly,
                 cells[name := cell])
  }

  lemma NextOutput(lang: Lang, l: Side, r: Side, f1: Frame, f2: Frame, loop1: set<string>, loop2: set<string>, i: nat,
                   keyOnly: bool, cells: map<string, Cell>)
    requires Alike(l, r) && l.e.op.Project? && i < |l.e.op.outputs| && (keyOnly ==> IsGroupKey(l.e.op, i))
    requires Eval(lang, l.env, l.fs + [f1], l.e.kids[1 + i]) == Eval(lang, r.env, r.fs + [f2], r.e.kids[1 + i])
    requires forall cell: Cell :: NextAgrees(lang, l, r, f1, f2, loop1, loop2, i, keyOnly, cells, cell)
    ensures OutputsAgree(lang, l, r, f1, f2, loop1, loop2, i, keyOnly, cells)
  {
    var cell := Eval(lang, l.env, l.fs + [f1], l.e.kids[1 + i]);
    if cell.Ok? { assert NextAgrees(lang, l, r, f1, f2, loop1, loop2, i, keyOnly, cells, cell.value); }
  }

  lemma SkipOutput(lang: Lang, l: Side, r: Side, f1: Frame, f2: Frame, loop1: set<string>, loop2: set<string>, i: nat,
                   cells: map<string, Cell>)
    requires Alike(l, r) && l.e.op.Project? && i < |l.e.op.outputs| && !IsGroupKey(l.e.op, i)
    requires OutputsAgree(lang, l, r, f1, f2, loop1, loop2, i + 1, true, cells)
    ensures OutputsAgree(lang, l, r, f1, f2, loop1, loop2, i, true, cells)
  {
  }

  lemma LastOutputs(lang: Lang, l: Side, r: Side, f1: Frame, f2: Frame, loop1: set<string>, loop2: set<string>, keyOnly: bool,
                    cells: map<string, Cell>)
    requires Alike(l, r) && l.e.op.Project? && CellsCarry(l.e.op, |l.e.op.outputs|, keyOnly, cells)
    requires l.e.op.quantity && !keyOnly ==>
      Eval(lang, l.env, l.fs + [f1], l.e.kids[1 + |l.e.op.outputs|]) == Eval(lang, r.env, r.fs + [f2], r.e.kids[1 + |l.e.op.outputs|])
    ensures OutputsAgree(lang, l, r, f1, f2, loop1, loop2, |l.e.op.outputs|, keyOnly, cells)
  {
  }

  lemma {:induction false} SameOutputs(lang: Lang, l: Side, r: Side, source: Flow, base: Flow, f1: Frame, f2: Frame,
                                       loop1: set<string>, loop2: set<string>, i: nat, keyOnly: bool, cells: map<string, Cell>)
    requires Alike(l, r) && l.e.op.Project? && RowsServe(lang, l, r, source) && i <= |l.e.op.outputs|
    requires if keyOnly then base == source else RowBase(l.e.op, l.e.ty, source, base)
    requires Carries(l.e.op, base, f1, f2, loop1, loop2, i, keyOnly, cells)
    ensures OutputsAgree(lang, l, r, f1, f2, loop1, loop2, i, keyOnly, cells)
    decreases |l.e.op.outputs| - i
  {
    var op := l.e.op;
    if i == |op.outputs| {
      if op.quantity && !keyOnly {
        OutputServed(lang, l, r, source, base, f1, f2, loop1, loop2, i, false, cells);
      }
      LastOutputs(lang, l, r, f1, f2, loop1, loop2, keyOnly, cells);
    } else if keyOnly && !IsGroupKey(op, i) {
      SkipCarries(op, base, f1, f2, loop1, loop2, i, cells);
      SameOutputs(lang, l, r, source, base, f1, f2, loop1, loop2, i + 1, keyOnly, cells);
      SkipOutput(lang, l, r, f1, f2, loop1, loop2, i, cells);
    } else {
      OutputServed(lang, l, r, source, base, f1, f2, loop1, loop2, i, keyOnly, cells);
      forall cell: Cell
        ensures NextAgrees(lang, l, r, f1, f2, loop1, loop2, i, keyOnly, cells, cell)
      {
        BindCarries(op, base, f1, f2, loop1, loop2, i, keyOnly, cells, cell);
        SameOutputs(lang, l, r, source, base, BindOutput(f1, loop1, op.outputs[i], cell), BindOutput(f2, loop2, op.outputs[i], cell),
                    loop1, loop2, i + 1, keyOnly, cells[op.outputs[i] := cell]);
      }
      NextOutput(lang, l, r, f1, f2, loop1, loop2, i, keyOnly, cells);
    }
  }

  lemma OutputServed(lang: Lang, l: Side, r: Side, source: Flow, base: Flow, f1: Frame, f2: Frame,
                     loop1: set<string>, loop2: set<string>, i: nat, keyOnly: bool, cells: map<string, Cell>)
    requires Alike(l, r) && l.e.op.Project? && RowsServe(lang, l, r, source) && i + 1 < |l.e.kids| && i <= |l.e.op.outputs|
    requires if keyOnly then base == source && IsGroupKey(l.e.op, i) else RowBase(l.e.op, l.e.ty, source, base)
    requires Carries(l.e.op, base, f1, f2, loop1, loop2, i, keyOnly, cells)
    ensures Eval(lang, l.env, l.fs + [f1], l.e.kids[1 + i]) == Eval(lang, r.env, r.fs + [f2], r.e.kids[1 + i])
  {
    if keyOnly { KeyPassCovers(l.e.op, l.e.ty, source, i); } else { RowPassCovers(l.e.op, l.e.ty, source, base, i); }
    ServedOperand(lang, l, r, source, 1 + i, WithOutputs(base, l.e.op, i, keyOnly), f1, f2);
  }

  // ---- projected rows ----------------------------------------------------

  function CellOf(group: Option<Group>): Option<Cell> { if group.Some? then Some(GroupCell(group.value)) else None }

  /** The groups two rows are projected for, if any. */
  ghost predicate GroupsServe(l: Side, source: Flow, g1: Option<Group>, g2: Option<Group>)
    requires l.e.op.Project?
  {
    if g1.Some? then l.e.op.key != [] && g2.Some? && GroupPair(source, g1.value, g2.value)
    else g2.None? && (l.e.op.key == [] || l.e.ty.RowType?) && source.ids
  }

  lemma SameGroupCells(l: Side, source: Flow, g1: Option<Group>, g2: Option<Group>)
    requires l.e.op.Project? && GroupsServe(l, source, g1, g2)
    ensures CellOf(g1) == CellOf(g2)
  {
    if g1.Some? { PairedRows(source, g1.value.members, g2.value.members); }
  }

  lemma SameProjectRow(lang: Lang, l: Side, r: Side, source: Flow, a: RowScope, b: RowScope, g1: Option<Group>, g2: Option<Group>)
    requires Alike(l, r) && l.e.op.Project? && RowsServe(lang, l, r, source)
    requires ScopesPair(source, a, b) && GroupsServe(l, source, g1, g2)
    ensures ProjectRow(lang, l.env, l.fs, l.e, a, g1) == ProjectRow(lang, r.env, r.fs, r.e, b, g2)
    ensures var row := ProjectRow(lang, l.env, l.fs, l.e, a, g1);
      row.Ok? ==> CellsCarry(l.e.op, |l.e.op.outputs|, false, row.value.cells)
  {
    var group := CellOf(g1);
    SameGroupCells(l, source, g1, g2);
    StartCarries(l.e.op, source, a, b, group, false);
    var base := if group.Some? then source.Bind({"group"}) else source;
    SameOutputs(lang, l, r, source, base, ProjectFrame(a, group), ProjectFrame(b, group), LoopBinds(a, group), LoopBinds(b, group),
                0, false, map[]);
  }

  lemma SameSortKeys(lang: Lang, l: Side, r: Side, source: Flow, a: RowScope, b: RowScope, g1: Option<Group>, g2: Option<Group>, row: Row)
    requires Alike(l, r) && l.e.op.Project? && RowsServe(lang, l, r, source)
    requires ScopesPair(source, a, b) && GroupsServe(l, source, g1, g2)
    requires CellsCarry(l.e.op, |l.e.op.outputs|, false, row.cells)
    ensures SortKeys(lang, l.env, l.fs, l.e, a, CellOf(g1), row) == SortKeys(lang, r.env, r.fs, r.e, b, CellOf(g2), row)
  {
    var op, group := l.e.op, CellOf(g1);
    SameGroupCells(l, source, g1, g2);
    SortFrames(op, source, a, b, group, row);
    var base := if group.Some? then source.Bind({"group"}) else source;
    var outputs := WithOutputs(base, op, |op.outputs|, false);
    var f1, f2 := SortFrame(a, group, row), SortFrame(b, group, row);
    forall i | SortStart(op) <= i < |l.e.kids|
      ensures SameOperand(lang, l.(fs := l.fs + [f1]), r.(fs := r.fs + [f2]), i)
    {
      SortPassCovers(op, l.e.ty, source, base, i);
      ServedOperand(lang, l, r, source, i, outputs.(upto := outputs.upto + {"$quantity"}), f1, f2);
    }
    SameEach(lang, l.(fs := l.fs + [f1]), r.(fs := r.fs + [f2]), SortStart(op), |l.e.kids|, AScalar(ExpectedSortKey));
  }

  /** One row projected and ranked. */
  function RankOne(lang: Lang, env: Env, fs: seq<Frame>, e: TypedExpr, scope: RowScope, group: Option<Group>): Result<Ranked>
    requires e.WellFormed() && e.op.Project?
  {
    var row :- ProjectRow(lang, env, fs, e, scope, group);
    var keys :- SortKeys(lang, env, fs, e, scope, CellOf(group), row);
    Ok(Ranked(row, keys))
  }

  ghost predicate RanksAgree(lang: Lang, l: Side, r: Side, a: RowScope, b: RowScope, g1: Option<Group>, g2: Option<Group>)
    requires Alike(l, r) && l.e.op.Project?
  {
    RankOne(lang, l.env, l.fs, l.e, a, g1) == RankOne(lang, r.env, r.fs, r.e, b, g2)
  }

  lemma SameRank(lang: Lang, l: Side, r: Side, source: Flow, a: RowScope, b: RowScope, g1: Option<Group>, g2: Option<Group>)
    requires Alike(l, r) && l.e.op.Project? && RowsServe(lang, l, r, source)
    requires ScopesPair(source, a, b) && GroupsServe(l, source, g1, g2)
    ensures RanksAgree(lang, l, r, a, b, g1, g2)
  {
    SameProjectRow(lang, l, r, source, a, b, g1, g2);
    var row := ProjectRow(lang, l.env, l.fs, l.e, a, g1);
    if row.Ok? { SameSortKeys(lang, l, r, source, a, b, g1, g2, row.value); }
  }

  function Ahead(first: Result<Ranked>, rest: Result<seq<Ranked>>): Result<seq<Ranked>> {
    var x :- first;
    var xs :- rest;
    Ok([x] + xs)
  }

  lemma RowsStep(lang: Lang, env: Env, fs: seq<Frame>, e: TypedExpr, scopes: seq<RowScope>)
    requires e.WellFormed() && e.op.Project? && scopes != []
    ensures RankRows(lang, env, fs, e, scopes)
         == Ahead(RankOne(lang, env, fs, e, scopes[0], None), RankRows(lang, env, fs, e, scopes[1..]))
  {
  }

  lemma {:induction false} SameRankRows(lang: Lang, l: Side, r: Side, source: Flow, a: seq<RowScope>, b: seq<RowScope>)
    requires Alike(l, r) && l.e.op.Project? && RowsServe(lang, l, r, source)
    requires l.e.op.key == [] && source.ids && StreamsPair(source, a, b)
    ensures RankRows(lang, l.env, l.fs, l.e, a) == RankRows(lang, r.env, r.fs, r.e, b)
    decreases |a|
  {
    if a != [] {
      assert ScopesPair(source, a[0], b[0]) && StreamsPair(source, a[1..], b[1..]);
      SameRank(lang, l, r, source, a[0], b[0], None, None);
      SameRankRows(lang, l, r, source, a[1..], b[1..]);
      RowsStep(lang, l.env, l.fs, l.e, a);
      RowsStep(lang, r.env, r.fs, r.e, b);
    }
  }

  lemma GroupsStep(lang: Lang, env: Env, fs: seq<Frame>, e: TypedExpr, groups: seq<Group>)
    requires e.WellFormed() && e.op.Project? && groups != [] && groups[0].members != []
    ensures RankGroups(lang, env, fs, e, groups)
         == Ahead(RankOne(lang, env, fs, e, groups[0].members[0], Some(groups[0])), RankGroups(lang, env, fs, e, groups[1..]))
  {
  }

  lemma {:induction false} SameRankGroups(lang: Lang, l: Side, r: Side, source: Flow, gs: seq<Group>, hs: seq<Group>)
    requires Alike(l, r) && l.e.op.Project? && RowsServe(lang, l, r, source)
    requires l.e.op.key != [] && GroupsPair(source, gs, hs)
    ensures RankGroups(lang, l.env, l.fs, l.e, gs) == RankGroups(lang, r.env, r.fs, r.e, hs)
    decreases |gs|
  {
    if gs != [] {
      assert GroupPair(source, gs[0], hs[0]) && GroupsPair(source, gs[1..], hs[1..]);
      SameRankGroups(lang, l, r, source, gs[1..], hs[1..]);
      if gs[0].members != [] {
        assert ScopesPair(source, gs[0].members[0], hs[0].members[0]);
        SameRank(lang, l, r, source, gs[0].members[0], hs[0].members[0], Some(gs[0]), Some(hs[0]));
        GroupsStep(lang, l.env, l.fs, l.e, gs);
        GroupsStep(lang, r.env, r.fs, r.e, hs);
      }
    }
  }

  lemma {:induction false} SameGroupKeys(lang: Lang, l: Side, r: Side, source: Flow, a: seq<RowScope>, b: seq<RowScope>)
    requires Alike(l, r) && l.e.op.Project? && RowsServe(lang, l, r, source) && StreamsPair(source, a, b)
    ensures GroupKeys(lang, l.env, l.fs, l.e, a) == GroupKeys(lang, r.env, r.fs, r.e, b)
    decreases |a|
  {
    if a != [] {
      assert ScopesPair(source, a[0], b[0]) && StreamsPair(source, a[1..], b[1..]);
      StartCarries(l.e.op, source, a[0], b[0], None, true);
      SameOutputs(lang, l, r, source, source, ProjectFrame(a[0], None), ProjectFrame(b[0], None), LoopBinds(a[0], None),
                  LoopBinds(b[0], None), 0, true, map[]);
      SameGroupKeys(lang, l, r, source, a[1..], b[1..]);
    }
  }

  /** Paired rows project to the same rows; ungrouped ones pass their identity on. */
  lemma SameProjectScopes(lang: Lang, l: Side, r: Side, source: Flow, a: seq<RowScope>, b: seq<RowScope>)
    requires Alike(l, r) && l.e.op.Project? && RowsServe(lang, l, r, source) && StreamsPair(source, a, b)
    requires l.e.op.key == [] ==> source.ids
    ensures ProjectScopes(lang, l.env, l.fs, l.e, a) == ProjectScopes(lang, r.env, r.fs, r.e, b)
  {
    if l.e.op.key == [] {
      SameRankRows(lang, l, r, source, a, b);
    } else {
      SameGroupKeys(lang, l, r, source, a, b);
      var keys := GroupKeys(lang, l.env, l.fs, l.e, a);
      if keys.Ok? {
        GroupedPair(source, a, b, keys.value);
        SameRankGroups(lang, l, r, source, Grouped(a, keys.value), Grouped(b, keys.value));
      }
    }
  }

  /** Neither grouped, sorted nor bounded away. */
  predicate PlainRow(op: Op)
    requires op.Project?
  {
    op.key == [] && op.descending == [] && (op.skip.None? || op.skip == Some(0)) && (op.limit.None? || op.limit.value > 0)
  }

  /** A plain projection of one row is that row, projected. */
  lemma OneProjected(lang: Lang, env: Env, fs: seq<Frame>, e: TypedExpr, scope: RowScope)
    requires e.WellFormed() && e.op.Project? && PlainRow(e.op)
    ensures var row := ProjectRow(lang, env, fs, e, scope, None);
      ProjectScopes(lang, env, fs, e, [scope]) == if row.Err? then Err(row.error) else Ok([row.value])
  {
    var row := ProjectRow(lang, env, fs, e, scope, None);
    assert [scope][1..] == [];
    assert RankRows(lang, env, fs, e, []) == Ok([]);
    RowsStep(lang, env, fs, e, [scope]);
    if row.Ok? {
      assert SortStart(e.op) == |e.kids|;
      assert SortKeys(lang, env, fs, e, scope, None, row.value) == Ok([]);
      assert [Ranked(row.value, [])] + [] == [Ranked(row.value, [])];
      assert RankRows(lang, env, fs, e, [scope]) == Ok([Ranked(row.value, [])]);
      assert Ordered([], [Ranked(row.value, [])]) == [row.value];
      assert Bound([row.value], e.op.skip, e.op.limit) == [row.value];
    }
  }

  /** Identities do not enter the frames. */
  lemma AloneServes(lang: Lang, l: Side, r: Side, source: Flow)
    requires Alike(l, r) && l.e.op.Project? && RowsServe(lang, l, r, source)
    ensures RowsServe(lang, l, r, source.(ids := true))
  {
    forall i | 0 < i < |l.e.kids|
      ensures Serves(lang, l, r, i, RowFlow(l.e.op, l.e.ty, source.(ids := true), i))
    {
      assert Serves(lang, l, r, i, RowFlow(l.e.op, l.e.ty, source, i));
      forall f1, f2
        ensures ServesIn(lang, l, r, i, RowFlow(l.e.op, l.e.ty, source.(ids := true), i), f1, f2)
      {
        assert ServesIn(lang, l, r, i, RowFlow(l.e.op, l.e.ty, source, i), f1, f2);
      }
    }
  }

  // ---- cells without identities ------------------------------------------

  function Anonymous(scope: RowScope): RowScope { scope.(identity := []) }

  function AllAnonymous(scopes: seq<RowScope>): seq<RowScope> {
    seq(|scopes|, i requires 0 <= i < |scopes| => Anonymous(scopes[i]))
  }

  lemma AnonymousPair(flow: Flow, a: seq<RowScope>, b: seq<RowScope>)
    requires StreamsPair(flow, a, b)
    ensures StreamsPair(flow.(ids := true), AllAnonymous(a), AllAnonymous(b))
  {
    forall i | 0 <= i < |a|
      ensures ScopesPair(flow.(ids := true), AllAnonymous(a)[i], AllAnonymous(b)[i])
    {
      assert ScopesPair(flow, a[i], b[i]);
    }
  }

  function NoId(row: Row): Row { row.(id := []) }

  function AllNoIds(rows: seq<Row>): seq<Row> { seq(|rows|, i requires 0 <= i < |rows| => NoId(rows[i])) }

  lemma AnonymousRow(lang: Lang, env: Env, fs: seq<Frame>, e: TypedExpr, scope: RowScope)
    requires e.WellFormed() && e.op.Project? && e.op.descending == []
    ensures var x, y := RankOne(lang, env, fs, e, scope, None), RankOne(lang, env, fs, e, Anonymous(scope), None);
      if x.Ok? then y == Ok(Ranked(NoId(x.value.row), x.value.keys)) else y == x
  {
    var row, other := ProjectRow(lang, env, fs, e, scope, None), ProjectRow(lang, env, fs, e, Anonymous(scope), None);
    assert if row.Ok? then other == Ok(NoId(row.value)) else other == row;
    assert SortStart(e.op) == |e.kids|;
  }

  function NoIdRanks(ranked: seq<Ranked>): seq<Ranked> {
    seq(|ranked|, i requires 0 <= i < |ranked| => Ranked(NoId(ranked[i].row), ranked[i].keys))
  }

  ghost predicate SameButIds(x: Result<seq<Ranked>>, y: Result<seq<Ranked>>) {
    if x.Ok? then y == Ok(NoIdRanks(x.value)) else y == x
  }

  lemma AheadButIds(x: Result<Ranked>, y: Result<Ranked>, xs: Result<seq<Ranked>>, ys: Result<seq<Ranked>>)
    requires if x.Ok? then y == Ok(Ranked(NoId(x.value.row), x.value.keys)) else y == x
    requires SameButIds(xs, ys)
    ensures SameButIds(Ahead(x, xs), Ahead(y, ys))
  {
    if x.Ok? && xs.Ok? {
      assert NoIdRanks([x.value] + xs.value) == [Ranked(NoId(x.value.row), x.value.keys)] + NoIdRanks(xs.value);
    }
  }

  lemma {:induction false} AnonymousRanks(lang: Lang, env: Env, fs: seq<Frame>, e: TypedExpr, scopes: seq<RowScope>)
    requires e.WellFormed() && e.op.Project? && e.op.descending == []
    ensures SameButIds(RankRows(lang, env, fs, e, scopes), RankRows(lang, env, fs, e, AllAnonymous(scopes)))
    decreases |scopes|
  {
    if scopes == [] {
      assert AllAnonymous(scopes) == [] && NoIdRanks([]) == [];
    } else {
      AnonymousRanks(lang, env, fs, e, scopes[1..]);
      AnonymousRow(lang, env, fs, e, scopes[0]);
      assert AllAnonymous(scopes)[1..] == AllAnonymous(scopes[1..]);
      RowsStep(lang, env, fs, e, scopes);
      RowsStep(lang, env, fs, e, AllAnonymous(scopes));
      AheadButIds(RankOne(lang, env, fs, e, scopes[0], None), RankOne(lang, env, fs, e, Anonymous(scopes[0]), None),
                  RankRows(lang, env, fs, e, scopes[1..]), RankRows(lang, env, fs, e, AllAnonymous(scopes[1..])));
    }
  }

  /** The rows of two results, identities aside. */
  ghost predicate RowsAlike(a: Result<seq<Row>>, b: Result<seq<Row>>) {
    if a.Ok? then b.Ok? && AllNoIds(a.value) == AllNoIds(b.value) else b.Err? && a.error == b.error
  }

  lemma BoundNoIds(rows: seq<Row>, skip: Option<nat>, limit: Option<nat>)
    ensures AllNoIds(Bound(rows, skip, limit)) == Bound(AllNoIds(rows), skip, limit)
  {
  }

  /** An unsorted, ungrouped projection makes the same cells of rows paired up to identity. */
  lemma ProjectsAlike(lang: Lang, l: Side, r: Side, source: Flow, a: seq<RowScope>, b: seq<RowScope>)
    requires Alike(l, r) && l.e.op.Project? && l.e.op.key == [] && l.e.op.descending == []
    requires RowsServe(lang, l, r, source) && StreamsPair(source, a, b)
    ensures RowsAlike(ProjectScopes(lang, l.env, l.fs, l.e, a), ProjectScopes(lang, r.env, r.fs, r.e, b))
  {
    AnonymousPair(source, a, b);
    AloneServes(lang, l, r, source);
    SameRankRows(lang, l, r, source.(ids := true), AllAnonymous(a), AllAnonymous(b));
    AnonymousRanks(lang, l.env, l.fs, l.e, a);
    AnonymousRanks(lang, r.env, r.fs, r.e, b);
    var x, y := RankRows(lang, l.env, l.fs, l.e, a), RankRows(lang, r.env, r.fs, r.e, b);
    if x.Ok? {
      RanksAlike(x.value, y.value);
      BoundNoIds(Ordered([], x.value), l.e.op.skip, l.e.op.limit);
      BoundNoIds(Ordered([], y.value), l.e.op.skip, l.e.op.limit);
    }
  }

  lemma RanksAlike(x: seq<Ranked>, y: seq<Ranked>)
    requires NoIdRanks(x) == NoIdRanks(y)
    ensures AllNoIds(Ordered([], x)) == AllNoIds(Ordered([], y))
  {
    assert |x| == |NoIdRanks(x)| == |NoIdRanks(y)| == |y|;
    forall i | 0 <= i < |x|
      ensures NoId(x[i].row) == NoId(y[i].row)
    {
      assert NoIdRanks(x)[i] == NoIdRanks(y)[i];
    }
  }

  ghost predicate CellsAlike(a: Result<seq<RowScope>>, b: Result<seq<RowScope>>) {
    if a.Ok? then b.Ok? && AllNoIds(RowsOf(a.value)) == AllNoIds(RowsOf(b.value)) else b.Err? && a.error == b.error
  }

  lemma SameCells(lang: Lang, l: Side, r: Side, source: Flow)
    requires Alike(l, r) && l.e.op.Project? && l.e.op.key == [] && l.e.op.descending == [] && RowsServe(lang, l, r, source)
    requires ResultsPair(source, EvalView(lang, l.env, l.fs, l.e.kids[0]), EvalView(lang, r.env, r.fs, r.e.kids[0]))
    ensures CellsAlike(EvalView(lang, l.env, l.fs, l.e), EvalView(lang, r.env, r.fs, r.e))
  {
    var a, b := EvalView(lang, l.env, l.fs, l.e.kids[0]), EvalView(lang, r.env, r.fs, r.e.kids[0]);
    if a.Ok? {
      ProjectsAlike(lang, l, r, source, a.value, b.value);
      var x, y := ProjectScopes(lang, l.env, l.fs, l.e, a.value), ProjectScopes(lang, r.env, r.fs, r.e, b.value);
      if x.Ok? { assert RowsOf(BareAll(x.value)) == x.value && RowsOf(BareAll(y.value)) == y.value; }
    }
  }

  lemma {:induction false} SameFieldValues(a: seq<RowScope>, b: seq<RowScope>, field: string)
    requires AllNoIds(RowsOf(a)) == AllNoIds(RowsOf(b))
    ensures |a| == |b| && FieldValues(a, field) == FieldValues(b, field)
    decreases |a|
  {
    assert |a| == |AllNoIds(RowsOf(a))| == |AllNoIds(RowsOf(b))| == |b|;
    if a != [] {
      assert NoId(a[0].row) == AllNoIds(RowsOf(a))[0] == AllNoIds(RowsOf(b))[0] == NoId(b[0].row);
      assert AllNoIds(RowsOf(a[1..])) == AllNoIds(RowsOf(a))[1..] == AllNoIds(RowsOf(b))[1..] == AllNoIds(RowsOf(b[1..]));
      SameFieldValues(a[1..], b[1..], field);
    }
  }

  // ---- filters -----------------------------------------------------------

  /** The condition has one value for two paired rows, `.` staying that of the stacks. */
  ghost predicate KeepsAlike(lang: Lang, l: Side, r: Side, flow: Flow, a: RowScope, b: RowScope)
    requires Alike(l, r) && l.e.op.SelectBind?
  {
    ScopesPair(flow, a, b) && l.e.op.filtered ==>
      Eval(lang, l.env, l.fs + [FilterFrame(l.fs, a, l.e.op.name)], l.e.kids[1])
      == Eval(lang, r.env, r.fs + [FilterFrame(r.fs, b, l.e.op.name)], r.e.kids[1])
  }

  function Kept(verdict: Result<Cell>, scope: RowScope, rest: Result<seq<RowScope>>): Result<seq<RowScope>> {
    var v :- verdict;
    var scopes :- rest;
    Ok((if IsTrue(v) then [scope] else []) + scopes)
  }

  function VerdictOn(lang: Lang, env: Env, fs: seq<Frame>, e: TypedExpr, scope: RowScope): Result<Cell>
    requires e.WellFormed() && e.op.SelectBind?
  {
    if e.op.filtered then Eval(lang, env, fs + [FilterFrame(fs, scope, e.op.name)], e.kids[1]) else Ok(Scalar(Bool(true)))
  }

  lemma ScopesStep(lang: Lang, env: Env, fs: seq<Frame>, e: TypedExpr, scopes: seq<RowScope>)
    requires e.WellFormed() && e.op.SelectBind? && scopes != []
    ensures BindScopes(lang, env, fs, e, scopes)
         == Kept(VerdictOn(lang, env, fs, e, scopes[0]), KeptScope(e.op.name, scopes[0]), BindScopes(lang, env, fs, e, scopes[1..]))
  {
  }

  lemma KeptResults(flow: Flow, verdict: Result<Cell>, a: RowScope, b: RowScope, rest1: Result<seq<RowScope>>, rest2: Result<seq<RowScope>>)
    requires ScopesPair(flow, a, b) && ResultsPair(flow, rest1, rest2)
    ensures ResultsPair(flow, Kept(verdict, a, rest1), Kept(verdict, b, rest2))
  {
  }

  lemma {:induction false} SameBindScopes(lang: Lang, l: Side, r: Side, flow: Flow, a: seq<RowScope>, b: seq<RowScope>)
    requires Alike(l, r) && l.e.op.SelectBind? && StreamsPair(flow, a, b)
    requires forall x, y :: KeepsAlike(lang, l, r, flow, x, y)
    ensures ResultsPair(flow.Bind({l.e.op.name}), BindScopes(lang, l.env, l.fs, l.e, a), BindScopes(lang, r.env, r.fs, r.e, b))
    decreases |a|
  {
    if a != [] {
      assert ScopesPair(flow, a[0], b[0]) && StreamsPair(flow, a[1..], b[1..]);
      assert KeepsAlike(lang, l, r, flow, a[0], b[0]);
      SameBindScopes(lang, l, r, flow, a[1..], b[1..]);
      KeptPair(flow, l.e.op.name, a[0], b[0]);
      ScopesStep(lang, l.env, l.fs, l.e, a);
      ScopesStep(lang, r.env, r.fs, r.e, b);
      KeptResults(flow.Bind({l.e.op.name}), VerdictOn(lang, l.env, l.fs, l.e, a[0]), KeptScope(l.e.op.name, a[0]),
                  KeptScope(l.e.op.name, b[0]), BindScopes(lang, l.env, l.fs, l.e, a[1..]), BindScopes(lang, r.env, r.fs, r.e, b[1..]));
    }
  }

  /** The frames of the condition on two paired rows. */
  lemma FilterFrames(flow: Flow, a: RowScope, b: RowScope, fs1: seq<Frame>, fs2: seq<Frame>, name: string)
    requires ScopesPair(flow, a, b)
    ensures MapsPair(flow.Bind({name}), FilterFrame(fs1, a, name).bindings, FilterFrame(fs2, b, name).bindings)
  {
    BindMaps(flow, Bindings(a), Bindings(b), name, RowCell(a.row));
  }
}
