/** What a stream loses when an entry replaces it, and when the loss is seen: its rows'
    bindings, their joined identities, the name of the base, and the `.` of its filters. */
module StreamLimits {
  import opened Values
  import opened Rows
  import opened TypedExprs
  import opened Evaluator
  import opened Pairing
  import opened Streaming
  import opened Simulation
  import opened Hoist
  import opened HoistMeaning
  import opened Lowering
  import opened HoistLimits

  // ---- one projected row -------------------------------------------------

  const TwoOutputs: Op := Project([], ["v", "c"], false, [], None, None)

  /** `source { v: x, c: . }`. */
  function Reading(source: TypedExpr, x: string): TypedExpr {
    Node(ViewType, TwoOutputs, [source, Leafy(LocalBinding(x)), Leafy(Current)])
  }

  /** What the name `x` means in a row of a stream. */
  function NameIn(fs: seq<Frame>, scope: RowScope, x: string): Option<Cell> {
    if x in Bindings(scope) then Some(Bindings(scope)[x]) else Lookup(fs, x)
  }

  function ReadRow(scope: RowScope, v: Cell): Row {
    Row(scope.identity, scope.row.key, map["v" := v, "c" := RowCell(scope.row)], [])
  }

  lemma ReadsOutputs(lang: Lang, env: Env, fs: seq<Frame>, e: TypedExpr, scope: RowScope, x: string)
    requires e.WellFormed() && e.op == TwoOutputs && e.kids[1] == Leafy(LocalBinding(x)) && e.kids[2] == Leafy(Current)
    ensures ProjectRow(lang, env, fs, e, scope, None)
         == (var v :- Required(NameIn(fs, scope, x), ABinding, x); Ok(ReadRow(scope, v)))
  {
    var frame, loop := ProjectFrame(scope, None), LoopBinds(scope, None);
    PushedReads(fs, frame);
    var v := Eval(lang, env, fs + [frame], e.kids[1]);
    assert v == Required(NameIn(fs, scope, x), ABinding, x);
    if v.Ok? {
      var next := BindOutput(frame, loop, "v", v.value);
      PushedReads(fs, next);
      LastOutput(lang, env, fs, next, loop, e, map["v" := v.value], RowCell(scope.row));
    }
  }

  lemma LastOutput(lang: Lang, env: Env, fs: seq<Frame>, frame: Frame, loop: set<string>, e: TypedExpr, cells: map<string, Cell>, cell: Cell)
    requires e.WellFormed() && e.op == TwoOutputs && Eval(lang, env, fs + [frame], e.kids[2]) == Ok(cell)
    ensures Outputs(lang, env, fs, frame, loop, e, 1, false, cells) == Ok(cells["c" := cell])
  {
    assert Outputs(lang, env, fs, BindOutput(frame, loop, "c", cell), loop, e, 2, false, cells["c" := cell]) == Ok(cells["c" := cell]);
  }

  lemma ViewOfRows(lang: Lang, env: Env, fs: seq<Frame>, e: TypedExpr, scopes: seq<RowScope>)
    requires e.WellFormed() && e.ty.ViewType? && e.op == TwoOutputs && EvalView(lang, env, fs, e.kids[0]) == Ok(scopes)
    ensures Eval(lang, env, fs, e) == (var rows :- ProjectScopes(lang, env, fs, e, scopes); Ok(Collection(rows)))
  {
    assert Eval(lang, env, fs, e) == EvalStream(lang, env, fs, e);
  }

  /** Over a single row, the projection holds what `x` means there. */
  lemma ReadsOne(lang: Lang, env: Env, fs: seq<Frame>, e: TypedExpr, scope: RowScope, x: string)
    requires e.WellFormed() && e.ty.ViewType? && e.op == TwoOutputs && e.kids[1] == Leafy(LocalBinding(x)) && e.kids[2] == Leafy(Current)
    requires EvalView(lang, env, fs, e.kids[0]) == Ok([scope])
    ensures Eval(lang, env, fs, e)
         == (var v :- Required(NameIn(fs, scope, x), ABinding, x); Ok(Collection([ReadRow(scope, v)])))
  {
    ViewOfRows(lang, env, fs, e, [scope]);
    OneProjected(lang, env, fs, e, scope);
    ReadsOutputs(lang, env, fs, e, scope, x);
  }

  lemma ReadsNone(lang: Lang, env: Env, fs: seq<Frame>, e: TypedExpr)
    requires e.WellFormed() && e.ty.ViewType? && e.op == TwoOutputs && EvalView(lang, env, fs, e.kids[0]) == Ok([])
    ensures Eval(lang, env, fs, e) == Ok(Collection([]))
  {
    ViewOfRows(lang, env, fs, e, []);
    assert RankRows(lang, env, fs, e, []) == Ok([]);
    assert Ordered([], []) == [] && Bound([], None, None) == [];
  }

  lemma ReadRowsDiffer(a: RowScope, v: Cell, b: RowScope, w: Cell)
    requires a.row == b.row
    ensures Collection([ReadRow(a, v)]) == Collection([ReadRow(b, w)]) <==> v == w && a.identity == b.identity
  {
    assert ReadRow(a, v).cells["v"] == v && ReadRow(b, w).cells["v"] == w;
    assert [ReadRow(a, v)][0] == ReadRow(a, v) && [ReadRow(b, w)][0] == ReadRow(b, w);
  }

  /** Two sides with a row each differ exactly in what they read and in its identity. */
  lemma ReadingsDiffer(lang: Lang, env1: Env, env2: Env, fs: seq<Frame>, e1: TypedExpr, e2: TypedExpr, a: RowScope, b: RowScope, x: string)
    requires e1.WellFormed() && e1.ty.ViewType? && e1.op == TwoOutputs && e1.kids[1] == Leafy(LocalBinding(x)) && e1.kids[2] == Leafy(Current)
    requires e2.WellFormed() && e2.ty.ViewType? && e2.op == TwoOutputs && e2.kids[1] == Leafy(LocalBinding(x)) && e2.kids[2] == Leafy(Current)
    requires EvalView(lang, env1, fs, e1.kids[0]) == Ok([a]) && EvalView(lang, env2, fs, e2.kids[0]) == Ok([b]) && a.row == b.row
    ensures Eval(lang, env1, fs, e1) == Eval(lang, env2, fs, e2)
       <==> NameIn(fs, a, x) == NameIn(fs, b, x) && (NameIn(fs, a, x).Some? ==> a.identity == b.identity)
  {
    ReadsOne(lang, env1, fs, e1, a, x);
    ReadsOne(lang, env2, fs, e2, b, x);
    var v, w := NameIn(fs, a, x), NameIn(fs, b, x);
    if v.Some? && w.Some? { ReadRowsDiffer(a, v.value, b, w.value); }
  }

  lemma SlotStreams(lang: Lang, env1: Env, fs: seq<Frame>, rows: seq<Row>)
    requires env1.binding(SyntheticName(0)) == Some(Collection(rows))
    ensures EvalView(lang, env1, fs, Slot(ViewType)) == Ok(BareAll(rows))
  {
    assert Eval(lang, env1, fs, Slot(ViewType)) == Ok(Collection(rows));
  }

  // ---- lost bindings -----------------------------------------------------

  /** `@p[:i]`. */
  function BoundParam(p: string): TypedExpr { Node(ViewType, SelectBind("i", false), [Leafy(Param(p))]) }

  /** A `[:i]` source streams its rows with `i` bound in them. */
  lemma BoundParamStreams(lang: Lang, env: Env, fs: seq<Frame>, row: Row, p: string)
    requires env.param(p) == Some(Collection([row]))
    ensures BoundParam(p).WellFormed() && EvalView(lang, env, fs, BoundParam(p)) == Ok([KeptScope("i", Bare(row))])
    ensures Eval(lang, env, fs, BoundParam(p)) == Ok(Collection([row]))
  {
    var source := BoundParam(p);
    assert Eval(lang, env, fs, source.kids[0]) == Ok(Collection([row]));
    assert BareAll([row]) == [Bare(row)] && [Bare(row)][1..] == [];
    assert EvalView(lang, env, fs, source.kids[0]) == Ok([Bare(row)]);
    assert BindScopes(lang, env, fs, source, []) == Ok([]);
    assert [KeptScope("i", Bare(row))] + [] == [KeptScope("i", Bare(row))];
    assert SelectRows(lang, env, fs, source) == FilterRows(lang, env, fs, source, [row]) == Ok([row]);
    assert Eval(lang, env, fs, source) == EvalStream(lang, env, fs, source);
  }

  lemma ReadingHoists(source: TypedExpr, x: string, refs: CandidateRefs)
    requires source.WellFormed() && refs.currentIsCandidate && x !in refs.binds
    ensures var e := Reading(source, x);
      && e.WellFormed() && References(e, refs) && Extracted(e.kids[1], refs) && Extracted(e.kids[2], refs)
  {
    var e := Reading(source, x);
    assert e.WellFormed() && References(e.kids[2], refs);
    NothingToHoist(e.kids[1], refs);
    NothingToHoist(e.kids[2], refs);
  }

  lemma BoundParamHoists(p: string)
    ensures BoundParam(p).WellFormed() && Hoistable(BoundParam(p), CandidateIsCurrent)
  {
    assert HasExternal(BoundParam(p).kids[0]) && Visited(BoundParam(p).op, 0);
    assert !References(BoundParam(p).kids[0], CandidateIsCurrent);
  }

  /** `@p[:i]{ v: x, c: . }`: the hoisted source still yields its row, but no longer binds
      `i` in it. The value changes exactly when `i` is read and is not that row outside. */
  lemma RowBindingIsLost(lang: Lang, env: Env, fs0: seq<Frame>, fs: seq<Frame>, row: Row, p: string, x: string)
    requires env.param(p) == Some(Collection([row]))
    ensures Diverges(lang, env, fs0, fs, Reading(BoundParam(p), x), CandidateIsCurrent, Collection([row]))
       <==> x == "i" && Lookup(fs, "i") != Some(RowCell(row))
  {
    var e, cell := Reading(BoundParam(p), x), Collection([row]);
    BoundParamHoists(p);
    ReadingHoists(BoundParam(p), x, CandidateIsCurrent);
    BoundParamStreams(lang, env, fs0, row, p);
    HoistedOperand(lang, env, fs0, fs, e, CandidateIsCurrent, 0, cell);
    BoundParamStreams(lang, env, fs, row, p);
    var residual := Node(e.ty, e.op, e.kids[0 := Slot(ViewType)]);
    SlotStreams(lang, Seed(env, cell), fs, [row]);
    assert BareAll([row]) == [Bare(row)];
    ReadingsDiffer(lang, Seed(env, cell), env, fs, residual, e, Bare(row), KeptScope("i", Bare(row)), x);
    BindLast(map[], [], "i", RowCell(row));
  }

  /** A binding that is not read is no side condition: the closed source may be hoisted. */
  lemma UnreadBindingIsKept(env: Env, p: string, x: string)
    requires x != "i"
    ensures var h := HoistNode(Reading(BoundParam(p), x), CandidateIsCurrent, 0);
      && Reading(BoundParam(p), x).WellFormed() && h.entries == [Entry(SyntheticName(0), BoundParam(p))]
      && Closed(env, BoundParam(p)) && AllWellFormed(EntryMap(h.entries))
      && StreamsKept(env, EntryMap(h.entries), h.residual, {}, AsValue)
  {
    UnreadHoists(p, x);
    BoundParamIsClosed(env, p);
    var entry := Entry(SyntheticName(0), BoundParam(p));
    assert [entry][..0] == [];
    assert EntryMap([entry]) == map[entry.name := entry.subtree];
    SlotIsKept(env, map[entry.name := entry.subtree], Reading(Slot(ViewType), x), x);
  }

  lemma UnreadHoists(p: string, x: string)
    ensures Reading(BoundParam(p), x).WellFormed() && Reading(Slot(ViewType), x).WellFormed()
    ensures HoistNode(Reading(BoundParam(p), x), CandidateIsCurrent, 0)
         == Hoisted(Reading(Slot(ViewType), x), [Entry(SyntheticName(0), BoundParam(p))])
  {
    var e := Reading(BoundParam(p), x);
    BoundParamHoists(p);
    ReadingHoists(BoundParam(p), x, CandidateIsCurrent);
    HoistsAt(e, CandidateIsCurrent, 0, HoistNode(BoundParam(p), CandidateIsCurrent, 0));
    assert e.kids[0 := Slot(ViewType)] == Reading(Slot(ViewType), x).kids;
  }

  lemma BoundParamIsClosed(env: Env, p: string)
    ensures Closed(env, BoundParam(p))
  {
    var e, here := BoundParam(p), Place(Nothing, Nothing, AsValue);
    assert Transfers(Alone(env), e.kids[0], PlaceAt(map[], e, 0, here));
  }

  lemma SlotIsKept(env: Env, sub: map<string, TypedExpr>, e: TypedExpr, x: string)
    requires e.WellFormed() && AllWellFormed(sub) && e.ty.ViewType? && e.op == TwoOutputs && e.kids[0] == Slot(ViewType)
    requires e.kids[1] == Leafy(LocalBinding(x)) && e.kids[2] == Leafy(Current)
    requires SyntheticName(0) in sub && StreamNames(sub[SyntheticName(0)]) == {"i"} && OwnIds(sub[SyntheticName(0)]) && x != "i"
    requires Streamable(env, sub[SyntheticName(0)])
    ensures StreamsKept(env, sub, e, {}, AsValue)
  {
    assert FlowOf(sub, e.kids[0], false) == EntryFlow(sub[SyntheticName(0)]);
    forall i | 0 <= i < |e.kids|
      ensures StreamsKept(env, sub, e.kids[i], LostAt(sub, e, i, {}, AsValue), PositionAt(e, i, AsValue))
    {
      if i > 0 {
        assert FlowAt(sub, e, i, AsValue).lost == {"i"};
      }
    }
  }

  // ---- the name of the base ----------------------------------------------

  ghost const Orders: TypedExpr := Node(ViewType, Op.Field("orders"), [Leafy(Root)])

  /** `base[:o | .ok]`, the condition reading the enclosing `.`. */
  function OkOf(base: TypedExpr): TypedExpr {
    Node(ViewType, SelectBind("o", true), [base, Node(ScalarType(false), Op.Field("ok"), [Leafy(Current)])])
  }

  function LinesOf(base: TypedExpr): TypedExpr { Node(ViewType, Op.Traverse("lines"), [OkOf(base)]) }

  predicate IsOk(cell: Result<Cell>, ok: bool) {
    cell.Ok? && cell.value.RowCell? && "ok" in cell.value.row.cells && cell.value.row.cells["ok"] == Scalar(Bool(ok))
  }

  lemma OkReads(lang: Lang, env: Env, fs: seq<Frame>, base: TypedExpr, ok: bool)
    requires base.WellFormed() && IsOk(CurrentAt(fs, 0), ok)
    ensures OkOf(base).WellFormed() && Eval(lang, env, fs, OkOf(base).kids[1]) == Ok(Scalar(Bool(ok)))
  {
    assert Eval(lang, env, fs, OkOf(base).kids[1].kids[0]) == CurrentAt(fs, 0);
  }

  function KeptAll(name: string, scopes: seq<RowScope>): seq<RowScope> {
    if scopes == [] then [] else [KeptScope(name, scopes[0])] + KeptAll(name, scopes[1..])
  }

  lemma {:induction false} KeptAllRows(name: string, rows: seq<Row>)
    ensures RowsOf(KeptAll(name, BareAll(rows))) == rows
  {
    if rows != [] {
      KeptAllRows(name, rows[1..]);
      assert BareAll(rows)[1..] == BareAll(rows[1..]);
      var rest := KeptAll(name, BareAll(rows[1..]));
      assert RowsOf([KeptScope(name, Bare(rows[0]))] + rest) == [rows[0]] + RowsOf(rest);
    }
  }

  /** Under a `.` that is ok, every row is kept. */
  lemma {:induction false} AllKept(lang: Lang, env: Env, fs: seq<Frame>, base: TypedExpr, scopes: seq<RowScope>)
    requires base.WellFormed() && IsOk(CurrentAt(fs, 0), true)
    ensures OkOf(base).WellFormed() && BindScopes(lang, env, fs, OkOf(base), scopes) == Ok(KeptAll("o", scopes))
    decreases |scopes|
  {
    if scopes != [] {
      AllKept(lang, env, fs, base, scopes[1..]);
      ScopesStep(lang, env, fs, OkOf(base), scopes);
      var frame := FilterFrame(fs, scopes[0], "o");
      PushedReads(fs, frame);
      OkReads(lang, env, fs + [frame], base, true);
    }
  }

  lemma OkStreams(lang: Lang, env: Env, fs: seq<Frame>, base: TypedExpr, order: Row)
    requires base.WellFormed() && IsOk(CurrentAt(fs, 0), true) && EvalView(lang, env, fs, base) == Ok([Bare(order)])
    ensures OkOf(base).WellFormed() && EvalView(lang, env, fs, OkOf(base)) == Ok([KeptScope("o", Bare(order))])
  {
    AllKept(lang, env, fs, base, [Bare(order)]);
    assert [Bare(order)][1..] == [] && [KeptScope("o", Bare(order))] + [] == [KeptScope("o", Bare(order))];
    assert KeptAll("o", [Bare(order)]) == [KeptScope("o", Bare(order))];
  }

  lemma OneInner(outer: RowScope, name: Option<string>, line: Row)
    requires "lines" in outer.row.cells && outer.row.cells["lines"] == Collection([line])
    ensures Flatten([outer], name, "lines") == Ok([InnerScope(outer, name, "lines", line)])
  {
    assert [outer][1..] == [] && Flatten([], name, "lines") == Ok([]);
    assert Inner(outer, name, "lines", [line]) == [InnerScope(outer, name, "lines", line)];
    assert [InnerScope(outer, name, "lines", line)] + [] == [InnerScope(outer, name, "lines", line)];
  }

  lemma LinesStream(lang: Lang, env: Env, fs: seq<Frame>, base: TypedExpr, order: Row, line: Row)
    requires base.WellFormed() && IsOk(CurrentAt(fs, 0), true) && EvalView(lang, env, fs, base) == Ok([Bare(order)])
    requires "lines" in order.cells && order.cells["lines"] == Collection([line])
    ensures LinesOf(base).WellFormed()
    ensures EvalView(lang, env, fs, LinesOf(base))
         == Ok([InnerScope(KeptScope("o", Bare(order)), BindNameOf(base), "lines", line)])
  {
    OkStreams(lang, env, fs, base, order);
    OneInner(KeptScope("o", Bare(order)), BindNameOf(base), line);
  }

  lemma OkStays(e: TypedExpr)
    requires e == Node(ScalarType(false), Op.Field("ok"), [Leafy(Current)])
    ensures e.WellFormed() && References(e, CandidateIsCurrent) && Extracted(e, CandidateIsCurrent)
  {
    assert References(e.kids[0], CandidateIsCurrent) && !HasExternal(e.kids[0]);
    NothingToHoist(e, CandidateIsCurrent);
  }

  /** Of `base[:o | .ok]` only the base is hoisted. */
  lemma OkHoists(base: TypedExpr)
    requires base.WellFormed() && Hoistable(base, CandidateIsCurrent)
    ensures OkOf(base).WellFormed() && References(OkOf(base), CandidateIsCurrent)
    ensures HoistNode(OkOf(base), CandidateIsCurrent, 0) == Hoisted(OkOf(Slot(base.ty)), [Entry(SyntheticName(0), base)])
  {
    var e := OkOf(base);
    OkStays(e.kids[1]);
    HoistsAt(e, CandidateIsCurrent, 0, HoistNode(base, CandidateIsCurrent, 0));
    assert e.kids[0 := Slot(base.ty)] == OkOf(Slot(base.ty)).kids;
  }

  lemma OrdersHoist()
    ensures OkOf(Orders).WellFormed() && References(OkOf(Orders), CandidateIsCurrent)
    ensures HoistNode(OkOf(Orders), CandidateIsCurrent, 0) == Hoisted(OkOf(Slot(ViewType)), [Entry(SyntheticName(0), Orders)])
  {
    assert HasExternal(Orders.kids[0]) && !References(Orders.kids[0], CandidateIsCurrent);
    OkHoists(Orders);
  }

  /** A node whose first operand is hoisted from, and nothing else. */
  lemma FirstHoists(e: TypedExpr, refs: CandidateRefs, h: Hoisted)
    requires e.WellFormed() && e.kids != [] && References(e.kids[0], refs) && HoistNode(e.kids[0], refs, 0) == h
    requires forall i :: 0 < i < |e.kids| ==> Extracted(e.kids[i], refs)
    ensures References(e, refs) && HoistNode(e, refs, 0) == Hoisted(Node(e.ty, e.op, e.kids[0 := h.residual]), h.entries)
  {
    assert Visited(e.op, 0);
    HoistsAt(e, refs, 0, h);
  }

  lemma LinesHoist(inner: TypedExpr, h: Hoisted)
    requires inner.WellFormed() && References(inner, CandidateIsCurrent) && HoistNode(inner, CandidateIsCurrent, 0) == h
    ensures var e := Node(ViewType, Op.Traverse("lines"), [inner]);
      && e.WellFormed() && References(e, CandidateIsCurrent)
      && HoistNode(e, CandidateIsCurrent, 0) == Hoisted(Node(ViewType, Op.Traverse("lines"), [h.residual]), h.entries)
  {
    var e := Node(ViewType, Op.Traverse("lines"), [inner]);
    FirstHoists(e, CandidateIsCurrent, h);
    assert e.kids[0 := h.residual] == [h.residual];
  }

  lemma ReadHoists(source: TypedExpr, x: string, h: Hoisted)
    requires source.WellFormed() && References(source, CandidateIsCurrent) && HoistNode(source, CandidateIsCurrent, 0) == h
    ensures Reading(source, x).WellFormed()
    ensures HoistNode(Reading(source, x), CandidateIsCurrent, 0) == Hoisted(Reading(h.residual, x), h.entries)
  {
    var e := Reading(source, x);
    ReadingHoists(source, x, CandidateIsCurrent);
    FirstHoists(e, CandidateIsCurrent, h);
    assert e.kids[0 := h.residual] == Reading(h.residual, x).kids;
  }

  lemma LiteralStays(e: TypedExpr)
    requires e.op.Literal? && e.kids == []
    ensures e.WellFormed() && Extracted(e, CandidateIsCurrent)
  {
    NothingToHoist(e, CandidateIsCurrent);
  }

  lemma InstantHoists(inner: TypedExpr, t: int, h: Hoisted)
    requires inner.WellFormed() && References(inner, CandidateIsCurrent) && HoistNode(inner, CandidateIsCurrent, 0) == h
    ensures var e := Node(ViewType, Op.Temporal(TemporalForm.At), [inner, Leafy(Literal(Timestamp(t)))]);
      && e.WellFormed()
      && HoistNode(e, CandidateIsCurrent, 0)
         == Hoisted(Node(ViewType, Op.Temporal(TemporalForm.At), [h.residual, Leafy(Literal(Timestamp(t)))]), h.entries)
  {
    var e := Node(ViewType, Op.Temporal(TemporalForm.At), [inner, Leafy(Literal(Timestamp(t)))]);
    LiteralStays(e.kids[1]);
    FirstHoists(e, CandidateIsCurrent, h);
    assert e.kids[0 := h.residual] == [h.residual, Leafy(Literal(Timestamp(t)))];
  }

  lemma ReadLinesHoist(x: string)
    ensures Reading(LinesOf(Orders), x).WellFormed()
    ensures HoistNode(Reading(LinesOf(Orders), x), CandidateIsCurrent, 0)
         == Hoisted(Reading(LinesOf(Slot(ViewType)), x), [Entry(SyntheticName(0), Orders)])
  {
    OrdersHoist();
    LinesHoist(OkOf(Orders), HoistNode(OkOf(Orders), CandidateIsCurrent, 0));
    ReadHoists(LinesOf(Orders), x, HoistNode(LinesOf(Orders), CandidateIsCurrent, 0));
  }

  lemma OrdersStream(lang: Lang, env: Env, fs: seq<Frame>, orders: seq<Row>)
    requires "orders" in env.root.cells && env.root.cells["orders"] == Collection(orders)
    ensures Orders.WellFormed() && Eval(lang, env, fs, Orders) == Ok(Collection(orders))
    ensures EvalView(lang, env, fs, Orders) == Ok(BareAll(orders))
  {
    assert Eval(lang, env, fs, Orders.kids[0]) == Ok(RowCell(env.root));
  }

  lemma LineBindings(order: Row, name: Option<string>, line: Row)
    ensures Bindings(InnerScope(KeptScope("o", Bare(order)), name, "lines", line))
         == WithName(map["o" := RowCell(order)], name, RowCell(order))["lines" := RowCell(line)]
  {
    InnerBindings(KeptScope("o", Bare(order)), name, "lines", line);
    BindLast(map[], [], "o", RowCell(order));
  }

  /** `/orders[:o | .ok]::lines { v: x, c: . }`: the traversal binds the field name of its
      base, which the synthetic name hides. The value changes exactly when that name is
      read and is not the order outside. */
  lemma BaseNameIsLost(lang: Lang, env: Env, fs0: seq<Frame>, fs: seq<Frame>, order: Row, line: Row, x: string)
    requires IsOk(CurrentAt(fs, 0), true) && "orders" in env.root.cells && env.root.cells["orders"] == Collection([order])
    requires "lines" in order.cells && order.cells["lines"] == Collection([line])
    ensures Diverges(lang, env, fs0, fs, Reading(LinesOf(Orders), x), CandidateIsCurrent, Collection([order]))
       <==> x == "orders" && Lookup(fs, "orders") != Some(RowCell(order))
  {
    var cell, slot := Collection([order]), Slot(ViewType);
    ReadLinesHoist(x);
    OrdersStream(lang, env, fs0, [order]);
    OneEntry(lang, env, fs0, fs, Reading(LinesOf(Orders), x), CandidateIsCurrent, Reading(LinesOf(slot), x), Orders, cell);
    OrdersStream(lang, env, fs, [order]);
    SlotStreams(lang, Seed(env, cell), fs, [order]);
    assert BareAll([order]) == [Bare(order)];
    LinesDiffer(lang, Seed(env, cell), env, fs, slot, order, line, x);
  }

  lemma LinesDiffer(lang: Lang, env1: Env, env2: Env, fs: seq<Frame>, slot: TypedExpr, order: Row, line: Row, x: string)
    requires slot == Slot(ViewType) && Orders.WellFormed() && IsOk(CurrentAt(fs, 0), true)
    requires EvalView(lang, env1, fs, slot) == Ok([Bare(order)]) && EvalView(lang, env2, fs, Orders) == Ok([Bare(order)])
    requires "lines" in order.cells && order.cells["lines"] == Collection([line])
    ensures Reading(LinesOf(slot), x).WellFormed() && Reading(LinesOf(Orders), x).WellFormed()
    ensures Eval(lang, env1, fs, Reading(LinesOf(slot), x)) != Eval(lang, env2, fs, Reading(LinesOf(Orders), x))
       <==> x == "orders" && Lookup(fs, "orders") != Some(RowCell(order))
  {
    var a := InnerScope(KeptScope("o", Bare(order)), None, "lines", line);
    var b := InnerScope(KeptScope("o", Bare(order)), Some("orders"), "lines", line);
    LinesStream(lang, env1, fs, slot, order, line);
    LinesStream(lang, env2, fs, Orders, order, line);
    SourcesDiffer(lang, env1, env2, fs, LinesOf(slot), LinesOf(Orders), a, b, x);
    LineNames(fs, order, line, x);
  }

  lemma SourcesDiffer(lang: Lang, env1: Env, env2: Env, fs: seq<Frame>, source1: TypedExpr, source2: TypedExpr, a: RowScope, b: RowScope,
                      x: string)
    requires source1.WellFormed() && source2.WellFormed() && a.row == b.row
    requires EvalView(lang, env1, fs, source1) == Ok([a]) && EvalView(lang, env2, fs, source2) == Ok([b])
    ensures Reading(source1, x).WellFormed() && Reading(source2, x).WellFormed()
    ensures Eval(lang, env1, fs, Reading(source1, x)) == Eval(lang, env2, fs, Reading(source2, x))
       <==> NameIn(fs, a, x) == NameIn(fs, b, x) && (NameIn(fs, a, x).Some? ==> a.identity == b.identity)
  {
    ReadingsDiffer(lang, env1, env2, fs, Reading(source1, x), Reading(source2, x), a, b, x);
  }

  lemma LineNames(fs: seq<Frame>, order: Row, line: Row, x: string)
    ensures NameIn(fs, InnerScope(KeptScope("o", Bare(order)), None, "lines", line), x)
         == NameIn(fs, InnerScope(KeptScope("o", Bare(order)), Some("orders"), "lines", line), x)
       <==> !(x == "orders" && Lookup(fs, "orders") != Some(RowCell(order)))
  {
    LineBindings(order, None, line);
    LineBindings(order, Some("orders"), line);
  }

  /** `/orders[:o | .ok]` at a fixed instant. */
  function OkAt(base: TypedExpr, t: int): TypedExpr {
    Node(ViewType, Op.Temporal(TemporalForm.At), [OkOf(base), Leafy(Literal(Timestamp(t)))])
  }

  /** What the index answers for a named base whose filter keeps every row. */
  function ByName(env: Env, name: Option<string>, rows: seq<Row>, t: int): Result<seq<Row>> {
    if Indexed(env, name, AtInstant(t)) then Ok(env.temporalByName(name.value, AtInstant(t)).value)
    else env.temporal(rows, name, AtInstant(t))
  }

  lemma OkAtInstant(lang: Lang, env: Env, fs: seq<Frame>, base: TypedExpr, t: int)
    requires base.WellFormed()
    ensures OkAt(base, t).WellFormed()
    ensures EvalEach(lang, env, fs, OkAt(base, t), 1, 2, AnInstant) == Ok([Timestamp(t)])
  {
    var e := OkAt(base, t);
    assert EvalEach(lang, env, fs, e, 2, 2, AnInstant) == Ok([]);
    EachStep(lang, env, fs, e, 1, 2, AnInstant);
    assert [Timestamp(t)] + [] == [Timestamp(t)];
  }

  lemma OkRebased(lang: Lang, env: Env, fs: seq<Frame>, base: TypedExpr, rows: seq<Row>)
    requires base.WellFormed() && IsOk(CurrentAt(fs, 0), true) && base.op.Field?
    ensures OkOf(base).WellFormed() && Rebase(lang, env, fs, OkOf(base), rows) == Ok(KeptAll("o", BareAll(rows)))
  {
    AllKept(lang, env, fs, base, BareAll(rows));
    assert Rebase(lang, env, fs, base, rows) == Ok(BareAll(rows));
  }

  lemma OkRecovered(lang: Lang, env: Env, fs: seq<Frame>, base: TypedExpr, order: Row, t: int)
    requires base.WellFormed() && IsOk(CurrentAt(fs, 0), true) && EvalView(lang, env, fs, base) == Ok([Bare(order)])
    requires base.op.Field? || BindNameOf(base).None?
    ensures OkAt(base, t).WellFormed()
    ensures Recovered(lang, env, fs, OkAt(base, t), AtInstant(t))
         == (var rows :- ByName(env, BindNameOf(base), [order], t); Ok(Collection(rows)))
  {
    if Indexed(env, BindNameOf(base), AtInstant(t)) {
      OkNamed(lang, env, fs, base, order, t);
    } else {
      OkUnnamed(lang, env, fs, base, order, t);
    }
  }

  lemma OkUnnamed(lang: Lang, env: Env, fs: seq<Frame>, base: TypedExpr, order: Row, t: int)
    requires base.WellFormed() && IsOk(CurrentAt(fs, 0), true) && EvalView(lang, env, fs, base) == Ok([Bare(order)])
    requires !Indexed(env, BindNameOf(base), AtInstant(t))
    ensures OkAt(base, t).WellFormed()
    ensures Recovered(lang, env, fs, OkAt(base, t), AtInstant(t))
         == (var rows :- ByName(env, BindNameOf(base), [order], t); Ok(Collection(rows)))
  {
    OkStreams(lang, env, fs, base, order);
    assert RowsOf([KeptScope("o", Bare(order))]) == [order];
    assert BindNameOf(OkOf(base)) == BindNameOf(base);
  }

  lemma OkNamed(lang: Lang, env: Env, fs: seq<Frame>, base: TypedExpr, order: Row, t: int)
    requires base.WellFormed() && IsOk(CurrentAt(fs, 0), true) && base.op.Field? && Indexed(env, BindNameOf(base), AtInstant(t))
    ensures OkAt(base, t).WellFormed()
    ensures Recovered(lang, env, fs, OkAt(base, t), AtInstant(t))
         == (var rows :- ByName(env, BindNameOf(base), [order], t); Ok(Collection(rows)))
  {
    var rows := env.temporalByName(BindNameOf(base).value, AtInstant(t)).value;
    OkRebased(lang, env, fs, base, rows);
    KeptAllRows("o", rows);
  }

  lemma OkAtReads(lang: Lang, env: Env, fs: seq<Frame>, base: TypedExpr, order: Row, t: int)
    requires base.WellFormed() && IsOk(CurrentAt(fs, 0), true) && EvalView(lang, env, fs, base) == Ok([Bare(order)])
    requires base.op.Field? || BindNameOf(base).None?
    ensures OkAt(base, t).WellFormed()
    ensures Eval(lang, env, fs, OkAt(base, t)) == (var rows :- ByName(env, BindNameOf(base), [order], t); Ok(Collection(rows)))
  {
    OkAtInstant(lang, env, fs, base, t);
    OkRecovered(lang, env, fs, base, order, t);
    assert Eval(lang, env, fs, OkAt(base, t)) == EvalTemporal(lang, env, fs, OkAt(base, t));
  }

  lemma OkAtHoists(t: int)
    ensures OkAt(Orders, t).WellFormed()
    ensures HoistNode(OkAt(Orders, t), CandidateIsCurrent, 0) == Hoisted(OkAt(Slot(ViewType), t), [Entry(SyntheticName(0), Orders)])
  {
    OrdersHoist();
    InstantHoists(OkOf(Orders), t, HoistNode(OkOf(Orders), CandidateIsCurrent, 0));
  }

  /** A temporal selector over `/orders[:o | .ok]` asks the index by name; over the synthetic
      name it asks by identity. The value changes exactly when the two answers differ. */
  lemma TemporalNameIsLost(lang: Lang, env: Env, fs0: seq<Frame>, fs: seq<Frame>, order: Row, t: int)
    requires IsOk(CurrentAt(fs, 0), true) && "orders" in env.root.cells && env.root.cells["orders"] == Collection([order])
    ensures Diverges(lang, env, fs0, fs, OkAt(Orders, t), CandidateIsCurrent, Collection([order]))
       <==> ByName(env, Some("orders"), [order], t) != ByName(env, None, [order], t)
  {
    var cell, slot := Collection([order]), Slot(ViewType);
    OkAtHoists(t);
    OrdersStream(lang, env, fs0, [order]);
    OneEntry(lang, env, fs0, fs, OkAt(Orders, t), CandidateIsCurrent, OkAt(slot, t), Orders, cell);
    OrdersStream(lang, env, fs, [order]);
    SlotStreams(lang, Seed(env, cell), fs, [order]);
    assert BareAll([order]) == [Bare(order)];
    OkAtReads(lang, env, fs, Orders, order, t);
    OkAtReads(lang, Seed(env, cell), fs, slot, order, t);
  }

  // ---- joined identities -------------------------------------------------

  /** `@p::lines`. */
  function ParamLines(p: string): TypedExpr { Node(ViewType, Op.Traverse("lines"), [Leafy(Param(p))]) }

  lemma ParamLinesHoists(p: string)
    ensures ParamLines(p).WellFormed() && Hoistable(ParamLines(p), CandidateIsCurrent)
  {
    assert HasExternal(ParamLines(p).kids[0]) && Visited(ParamLines(p).op, 0);
    assert !References(ParamLines(p).kids[0], CandidateIsCurrent);
  }

  lemma ParamLinesStream(lang: Lang, env: Env, fs: seq<Frame>, outer: Row, line: Row, p: string)
    requires env.param(p) == Some(Collection([outer])) && "lines" in outer.cells && outer.cells["lines"] == Collection([line])
    ensures ParamLines(p).WellFormed()
    ensures EvalView(lang, env, fs, ParamLines(p)) == Ok([InnerScope(Bare(outer), None, "lines", line)])
    ensures Eval(lang, env, fs, ParamLines(p)) == Ok(Collection([line]))
  {
    var e := ParamLines(p);
    assert Eval(lang, env, fs, e.kids[0]) == Ok(Collection([outer]));
    assert BareAll([outer]) == [Bare(outer)];
    assert EvalView(lang, env, fs, e.kids[0]) == Ok([Bare(outer)]);
    OneInner(Bare(outer), None, line);
    assert RowsOf([InnerScope(Bare(outer), None, "lines", line)]) == [line];
    assert Eval(lang, env, fs, e) == EvalStream(lang, env, fs, e);
  }

  /** `@p::lines { v: x, c: . }`: projected rows carry the joined identity, which the value
      of the source has not; the binding of the level is lost as well. */
  lemma ProjectedIdentityIsLost(lang: Lang, env: Env, fs0: seq<Frame>, fs: seq<Frame>, outer: Row, line: Row, p: string, x: string)
    requires env.param(p) == Some(Collection([outer])) && "lines" in outer.cells && outer.cells["lines"] == Collection([line])
    ensures Diverges(lang, env, fs0, fs, Reading(ParamLines(p), x), CandidateIsCurrent, Collection([line]))
       <==> || (x == "lines" && Lookup(fs, x) != Some(RowCell(line)))
            || (Lookup(fs, x).Some? && outer.id != [])
  {
    var e, cell := Reading(ParamLines(p), x), Collection([line]);
    var joined := InnerScope(Bare(outer), None, "lines", line);
    ParamLinesHoists(p);
    ReadingHoists(ParamLines(p), x, CandidateIsCurrent);
    ParamLinesStream(lang, env, fs0, outer, line, p);
    HoistedOperand(lang, env, fs0, fs, e, CandidateIsCurrent, 0, cell);
    ParamLinesStream(lang, env, fs, outer, line, p);
    var residual := Node(e.ty, e.op, e.kids[0 := Slot(ViewType)]);
    SlotStreams(lang, Seed(env, cell), fs, [line]);
    assert BareAll([line]) == [Bare(line)];
    ReadingsDiffer(lang, Seed(env, cell), env, fs, residual, e, Bare(line), joined, x);
    InnerBindings(Bare(outer), None, "lines", line);
    assert |joined.identity| == |outer.id| + |line.id|;
    assert outer.id == [] ==> joined.identity == line.id;
  }

  /** `@p::lines - .own`. */
  function Without(p: string): TypedExpr {
    Node(ViewType, Combine(Difference), [ParamLines(p), Node(ViewType, Op.Field("own"), [Leafy(Current)])])
  }

  lemma WithoutHoists(p: string)
    ensures var e := Without(p); e.WellFormed() && References(e, CandidateIsCurrent) && Extracted(e.kids[1], CandidateIsCurrent)
  {
    var e := Without(p);
    assert References(e.kids[1].kids[0], CandidateIsCurrent);
    assert References(e.kids[1], CandidateIsCurrent);
    assert !HasExternal(e.kids[1].kids[0]);
    NothingToHoist(e.kids[1], CandidateIsCurrent);
  }

  lemma OwnStreams(lang: Lang, env: Env, fs: seq<Frame>, e: TypedExpr, own: Row)
    requires e == Node(ViewType, Op.Field("own"), [Leafy(Current)])
    requires CurrentAt(fs, 0).Ok? && CurrentAt(fs, 0).value.RowCell?
    requires var cells := CurrentAt(fs, 0).value.row.cells; "own" in cells && cells["own"] == Collection([own])
    ensures e.WellFormed() && EvalView(lang, env, fs, e) == Ok([Bare(own)])
  {
    assert Eval(lang, env, fs, e.kids[0]) == CurrentAt(fs, 0);
    assert BareAll([own]) == [Bare(own)];
  }

  lemma KeepOne(a: RowScope, b: RowScope)
    ensures Keep([a], Ids([b]), false) == if a.identity == b.identity then [] else [a.row]
  {
    assert Ids([b]) == {b.identity} by { assert [b][0].identity == b.identity; }
    assert [a][1..] == [] && Keep([], Ids([b]), false) == [];
  }

  lemma DifferenceOfOne(lang: Lang, env: Env, fs: seq<Frame>, e: TypedExpr, a: RowScope, b: RowScope)
    requires e.WellFormed() && e.op == Combine(Difference)
    requires EvalView(lang, env, fs, e.kids[0]) == Ok([a]) && EvalView(lang, env, fs, e.kids[1]) == Ok([b])
    ensures Eval(lang, env, fs, e) == Ok(Collection(if a.identity == b.identity then [] else [a.row]))
  {
    KeepOne(a, b);
    assert CombineRows(Difference, [a], [b]) == Keep([a], Ids([b]), false);
    assert EvalStream(lang, env, fs, e) == Ok(Collection(CombineRows(Difference, [a], [b])));
    assert Eval(lang, env, fs, e) == EvalStream(lang, env, fs, e);
  }

  /** A set combinator compares identities, and the value of `@p::lines` has not the joined
      ones: the result changes exactly when the joined identity is that of the other row or
      the line's own is, but not both. */
  lemma CombinedIdentityIsLost(lang: Lang, env: Env, fs0: seq<Frame>, fs: seq<Frame>, outer: Row, line: Row, own: Row, p: string)
    requires env.param(p) == Some(Collection([outer])) && "lines" in outer.cells && outer.cells["lines"] == Collection([line])
    requires CurrentAt(fs, 0).Ok? && CurrentAt(fs, 0).value.RowCell?
    requires var cells := CurrentAt(fs, 0).value.row.cells; "own" in cells && cells["own"] == Collection([own])
    ensures Diverges(lang, env, fs0, fs, Without(p), CandidateIsCurrent, Collection([line]))
       <==> (outer.id + line.id == own.id) != (line.id == own.id)
  {
    var e, cell := Without(p), Collection([line]);
    ParamLinesHoists(p);
    WithoutHoists(p);
    ParamLinesStream(lang, env, fs0, outer, line, p);
    HoistedOperand(lang, env, fs0, fs, e, CandidateIsCurrent, 0, cell);
    ParamLinesStream(lang, env, fs, outer, line, p);
    var residual := Node(e.ty, e.op, e.kids[0 := Slot(ViewType)]);
    SlotStreams(lang, Seed(env, cell), fs, [line]);
    assert BareAll([line]) == [Bare(line)];
    OwnStreams(lang, env, fs, e.kids[1], own);
    OwnStreams(lang, Seed(env, cell), fs, e.kids[1], own);
    DifferenceOfOne(lang, env, fs, e, InnerScope(Bare(outer), None, "lines", line), Bare(own));
    DifferenceOfOne(lang, Seed(env, cell), fs, residual, Bare(line), Bare(own));
    assert [line] != [];
  }

  // ---- the `.` of a filter -----------------------------------------------

  /** `@q[:o | .ok] { v: p, c: . }`, in a filter where only `p` is the candidate. */
  function FilteredParam(q: string): TypedExpr { Reading(OkOf(Leafy(Param(q))), "p") }

  lemma FilteredParamHoists(q: string)
    ensures var e := FilteredParam(q);
      && e.WellFormed() && References(e, CandidateIsP) && Hoistable(e.kids[0], CandidateIsP)
      && Extracted(e.kids[1], CandidateIsP) && Extracted(e.kids[2], CandidateIsP)
  {
    var e := FilteredParam(q);
    assert e.WellFormed() && References(e.kids[1], CandidateIsP);
    assert HasExternal(e.kids[0].kids[0]) && Visited(e.kids[0].op, 0);
    assert !References(e.kids[0].kids[0], CandidateIsP) && !References(e.kids[0].kids[1].kids[0], CandidateIsP);
    assert !References(e.kids[0].kids[1], CandidateIsP);
    NothingToHoist(e.kids[1], CandidateIsP);
    NothingToHoist(e.kids[2], CandidateIsP);
  }

  /** As a value, the filter makes its own row `.`. */
  lemma OkAsValue(lang: Lang, env: Env, fs: seq<Frame>, q: string, item: Row, ok: bool)
    requires env.param(q) == Some(Collection([item])) && IsOk(Ok(RowCell(item)), ok)
    ensures OkOf(Leafy(Param(q))).WellFormed()
    ensures Eval(lang, env, fs, OkOf(Leafy(Param(q)))) == Ok(Collection(if ok then [item] else []))
  {
    var e, rows := OkOf(Leafy(Param(q))), [item];
    var frame := Frame(RowCell(item), map["o" := RowCell(item)]);
    assert Eval(lang, env, fs, e.kids[0]) == Ok(Collection([item]));
    PushedReads(fs, frame);
    OkReads(lang, env, fs + [frame], Leafy(Param(q)), ok);
    assert rows[1..] == [] && FilterRows(lang, env, fs, e, rows[1..]) == Ok([]);
    var kept := if ok then [item] else [];
    assert kept + [] == kept;
    assert FilterRows(lang, env, fs, e, rows) == Ok(kept + []);
    assert SelectRows(lang, env, fs, e) == Ok(kept);
    assert Eval(lang, env, fs, e) == EvalStream(lang, env, fs, e);
  }

  /** As a stream, it leaves `.` to the enclosing row. */
  lemma OkAsStream(lang: Lang, env: Env, fs: seq<Frame>, q: string, item: Row, ok: bool)
    requires env.param(q) == Some(Collection([item])) && IsOk(CurrentAt(fs, 0), ok)
    ensures OkOf(Leafy(Param(q))).WellFormed()
    ensures EvalView(lang, env, fs, OkOf(Leafy(Param(q)))) == Ok(if ok then [KeptScope("o", Bare(item))] else [])
  {
    var e, scopes := OkOf(Leafy(Param(q))), [Bare(item)];
    assert Eval(lang, env, fs, e.kids[0]) == Ok(Collection([item])) && BareAll([item]) == scopes;
    assert EvalView(lang, env, fs, e.kids[0]) == Ok(scopes);
    var frame := FilterFrame(fs, scopes[0], "o");
    PushedReads(fs, frame);
    OkReads(lang, env, fs + [frame], Leafy(Param(q)), ok);
    ScopesStep(lang, env, fs, e, scopes);
    assert scopes[1..] == [] && BindScopes(lang, env, fs, e, []) == Ok([]);
    var kept := if ok then [KeptScope("o", Bare(item))] else [];
    assert kept + [] == kept;
  }

  lemma ReadingOf(lang: Lang, env: Env, fs: seq<Frame>, e: TypedExpr, scopes: seq<RowScope>, item: Row, p: Cell)
    requires e.WellFormed() && e.ty.ViewType? && e.op == TwoOutputs && e.kids[1] == Leafy(LocalBinding("p")) && e.kids[2] == Leafy(Current)
    requires EvalView(lang, env, fs, e.kids[0]) == Ok(scopes) && Lookup(fs, "p") == Some(p)
    requires scopes == [] || (|scopes| == 1 && scopes[0].row == item && scopes[0].identity == item.id && "p" !in Bindings(scopes[0]))
    ensures Eval(lang, env, fs, e) == Ok(Collection(if scopes == [] then [] else [ReadRow(Bare(item), p)]))
  {
    if scopes == [] {
      ReadsNone(lang, env, fs, e);
    } else {
      assert scopes == [scopes[0]];
      ReadsOne(lang, env, fs, e, scopes[0], "p");
    }
  }

  /** A hoisted filter is evaluated as a value, with its own row as `.`; where it stood as a
      stream, `.` was the enclosing one. The value changes exactly when the two decide
      differently. */
  lemma FilterReadsItsRow(lang: Lang, env: Env, root: Row, row: Row, q: string, item: Row, atRoot: bool, atItem: bool)
    requires env.param(q) == Some(Collection([item])) && IsOk(Ok(RowCell(root)), atRoot) && IsOk(Ok(RowCell(item)), atItem)
    ensures Diverges(lang, env, AtRow(root), InFilter(root, row), FilteredParam(q), CandidateIsP, Collection(if atItem then [item] else []))
       <==> atRoot != atItem
  {
    var e, fs, rows := FilteredParam(q), InFilter(root, row), if atItem then [item] else [];
    FilteredParamHoists(q);
    OkAsValue(lang, env, AtRow(root), q, item, atItem);
    HoistedOperand(lang, env, AtRow(root), fs, e, CandidateIsP, 0, Collection(rows));
    OkAsStream(lang, env, fs, q, item, atRoot);
    BindLast(map[], [], "o", RowCell(item));
    var residual := Node(e.ty, e.op, e.kids[0 := Slot(ViewType)]);
    SlotStreams(lang, Seed(env, Collection(rows)), fs, rows);
    ReadingOf(lang, env, fs, e, if atRoot then [KeptScope("o", Bare(item))] else [], item, RowCell(row));
    ReadingOf(lang, Seed(env, Collection(rows)), fs, residual, BareAll(rows), item, RowCell(row));
  }

  /** `count(p[:x | h.f(.)])`, in a filter where only `p` is the candidate. */
  ghost const CountCalls: TypedExpr :=
    Node(ScalarType(false), Op.Aggregate(Count, None), [Node(ViewType, SelectBind("x", true), [Leafy(LocalBinding("p")), Call(Current)])])

  ghost const CountSlot: TypedExpr :=
    Node(ScalarType(false), Op.Aggregate(Count, None),
         [Node(ViewType, SelectBind("x", true), [Leafy(LocalBinding("p")), Slot(ScalarType(false))])])

  lemma FilterCallsHoists()
    ensures CountCalls.kids[0].WellFormed() && References(CountCalls.kids[0], CandidateIsP) && CountSlot.kids[0].WellFormed()
    ensures HoistNode(CountCalls.kids[0], CandidateIsP, 0) == Hoisted(CountSlot.kids[0], [Entry(SyntheticName(0), Call(Current))])
  {
    var filter := CountCalls.kids[0];
    assert References(filter.kids[0], CandidateIsP) && !References(Leafy(Current), CandidateIsP);
    assert Visited(filter.op, 0) && References(filter, CandidateIsP);
    assert Hoistable(filter.kids[1], CandidateIsP);
    NothingToHoist(filter.kids[0], CandidateIsP);
    HoistsAt(filter, CandidateIsP, 1, HoistNode(Call(Current), CandidateIsP, 0));
    assert filter.kids[1 := Slot(ScalarType(false))] == CountSlot.kids[0].kids;
  }

  lemma CountCallsHoists()
    ensures CountCalls.WellFormed() && CountSlot.WellFormed()
    ensures HoistNode(CountCalls, CandidateIsP, 0) == Hoisted(CountSlot, [Entry(SyntheticName(0), Call(Current))])
  {
    FilterCallsHoists();
    assert Visited(CountCalls.op, 0) && References(CountCalls, CandidateIsP);
    HoistsAt(CountCalls, CandidateIsP, 0, HoistNode(CountCalls.kids[0], CandidateIsP, 0));
    assert CountCalls.kids[0 := CountSlot.kids[0]] == CountSlot.kids;
  }

  /** The call reads the receiver as `.`, inside the filter as outside it. */
  lemma FilterKeepsReceiver(lang: Lang, env: Env, root: Row, row: Row)
    requires CallOn(env, root).Ok?
    ensures CountCalls.WellFormed()
    ensures !Diverges(lang, env, AtRow(root), InFilter(root, row), CountCalls, CandidateIsP, CallOn(env, root).value)
  {
    var cell, fs, at := CallOn(env, root).value, InFilter(root, row), Shared(AllBut({"p"}), Only({0}));
    var sub := map[SyntheticName(0) := Call(Current)];
    CountCallsHoists();
    CallReads(lang, env, AtRow(root), Current, root);
    OneEntry(lang, env, AtRow(root), fs, CountCalls, CandidateIsP, CountSlot, Call(Current), cell);
    SeedServes(lang, env, AtRow(root), Entry(SyntheticName(0), Call(Current)), cell);
    CallTransfers(Ctx(Seed(env, cell), env, sub), at);
    SharesReceiver(root, row);
    CallsAvoid(sub.Keys);
    HoistingPreservesMeaning(lang, Seed(env, cell), env, AtRow(root), fs, CountCalls, CandidateIsP, 0, sub, at);
  }

  lemma CallsAvoid(names: set<string>)
    ensures CountCalls.WellFormed() && Avoids(CountCalls, names)
  {
    assert Avoids(CountCalls.kids[0].kids[1], names) && Avoids(CountCalls.kids[0].kids[0], names);
    assert Avoids(CountCalls.kids[0], names);
  }

  lemma SharesReceiver(root: Row, row: Row)
    ensures AgreeOn(Shared(AllBut({"p"}), Only({0})), AtRow(root), InFilter(root, row))
  {
    assert AtRow(root)[..0] == [] && InFilter(root, row)[..0] == [];
  }

  lemma CallTransfers(c: Ctx, at: Shared)
    requires c.sub == map[SyntheticName(0) := Call(Current)] && Call(Current).WellFormed() && CountSlot.WellFormed()
    requires at.depths.Has(0) && c.env1 == c.env2.(binding := c.env1.binding)
    ensures AllWellFormed(c.sub) && Transfers(c, CountSlot, Place(Everything, at, AsValue))
  {
    var p, filter := Place(Everything, at, AsValue), CountSlot.kids[0];
    var q := PlaceAt(c.sub, CountSlot, 0, p);
    assert PlaceAt(c.sub, filter, 1, q).entries.depths.Has(0);
    OneCallTransfers(c, filter.kids[1], PlaceAt(c.sub, filter, 1, q));
    assert Transfers(c, filter.kids[0], PlaceAt(c.sub, filter, 0, q));
    assert Transfers(c, filter, q);
  }

  lemma OneCallTransfers(c: Ctx, e: TypedExpr, p: Place)
    requires c.sub == map[SyntheticName(0) := Call(Current)] && Call(Current).WellFormed() && e == Slot(ScalarType(false))
    requires p.entries.depths.Has(0) && !p.pos.view
    ensures AllWellFormed(c.sub) && Transfers(c, e, p)
  {
    var call := Place(p.entries, Nothing, AsValue);
    assert Transfers(Alone(c.env2), Call(Current).kids[0], PlaceAt(map[], Call(Current), 0, call));
    assert Transfers(Alone(c.env2), Call(Current), call);
  }

  // ---- a lowered view over a hoisted stream ------------------------------

  /** `/orders[:o | o.open]`. */
  ghost const OpenOrders: TypedExpr :=
    Node(ViewType, SelectBind("o", true), [Orders, Node(ScalarType(false), Op.Field("open"), [Leafy(LocalBinding("o"))])])

  const IdOnly: Op := Project([], ["id"], false, [], None, None)

  /** `source { id: .id }`. */
  function IdsOf(source: TypedExpr): TypedExpr {
    Node(ViewType, IdOnly, [source, Node(ScalarType(false), Op.Field("id"), [Leafy(Current)])])
  }

  /** `.items { os: /orders[:o | o.open] { id: .id } }`. */
  ghost function OrdersView(): FlatView {
    FlatView("items", None, None, [Output("os", IdsOf(OpenOrders))], [], [], None, None)
  }

  lemma OpenOrdersHoist()
    ensures OpenOrders.WellFormed() && Hoistable(OpenOrders, CandidateIsCurrent)
  {
    assert HasExternal(Orders.kids[0]) && Visited(Orders.op, 0) && !References(Orders.kids[0], CandidateIsCurrent);
    assert HasExternal(Orders) && !References(Orders, CandidateIsCurrent) && Visited(OpenOrders.op, 0);
    assert !References(OpenOrders.kids[1].kids[0], CandidateIsCurrent);
    assert !References(OpenOrders.kids[1], CandidateIsCurrent);
  }

  lemma IdStays(e: TypedExpr)
    requires e == Node(ScalarType(false), Op.Field("id"), [Leafy(Current)])
    ensures e.WellFormed() && References(e, CandidateIsCurrent) && Extracted(e, CandidateIsCurrent)
  {
    assert References(e.kids[0], CandidateIsCurrent) && !HasExternal(e.kids[0]);
    NothingToHoist(e, CandidateIsCurrent);
  }

  lemma IdsHoist()
    ensures IdsOf(OpenOrders).WellFormed()
    ensures HoistNode(IdsOf(OpenOrders), CandidateIsCurrent, 0)
         == Hoisted(IdsOf(Slot(ViewType)), [Entry(SyntheticName(0), OpenOrders)])
  {
    var e := IdsOf(OpenOrders);
    OpenOrdersHoist();
    IdStays(e.kids[1]);
    HoistsAt(e, CandidateIsCurrent, 0, HoistNode(OpenOrders, CandidateIsCurrent, 0));
    assert e.kids[0 := Slot(ViewType)] == IdsOf(Slot(ViewType)).kids;
  }

  lemma OrdersFaces()
    ensures FlatWellFormed(OrdersView())
    ensures LowerFaces(OrdersView()) == Faces(None, [IdsOf(Slot(ViewType))], [])
    ensures LowerEntries(OrdersView()) == [Entry(SyntheticName(0), OpenOrders)]
  {
    var flat := OrdersView();
    IdsHoist();
    assert Names(flat.bind) == {} && AdmitPart(flat) == ([], []);
    assert OutputExprs(flat) == [IdsOf(OpenOrders)] && [IdsOf(OpenOrders)][1..] == [];
    assert HoistAll([], CandidateIsCurrent, 1) == ([], []);
    assert OutputPart(flat).0 == [IdsOf(Slot(ViewType))] + [];
    assert OutputPart(flat).1 == [Entry(SyntheticName(0), OpenOrders)] + [];
    assert SortPart(flat) == ([], []);
  }

  lemma OpenTransfers(env: Env, p: Place)
    requires OpenOrders.WellFormed() && p.between.names.Has("o")
    ensures Transfers(Alone(env), OpenOrders.kids[1], p)
  {
    var e := OpenOrders.kids[1];
    assert Transfers(Alone(env), e.kids[0], PlaceAt(map[], e, 0, p));
  }

  lemma OpenOrdersTransfer(env: Env, p: Place)
    requires OpenOrders.WellFormed()
    ensures Transfers(Alone(env), OpenOrders, p) && Streamable(env, OpenOrders)
  {
    var c, e := Alone(env), OpenOrders;
    var q := PlaceAt(c.sub, e, 0, p);
    assert Transfers(c, e.kids[0].kids[0], PlaceAt(c.sub, e.kids[0], 0, q));
    assert Transfers(c, e.kids[0], q);
    assert PlaceAt(c.sub, e, 1, p).between.names.Has("o");
    OpenTransfers(env, PlaceAt(c.sub, e, 1, p));
    var under := Under(Place(Everything, Nothing, AsValue), EntryFlow(e.kids[0]).Bind({"o"}), false, false);
    assert under.between.names.Has("o");
    OpenTransfers(env, under);
  }

  /** `.id` of the projected row meets every condition, whatever the entries are. */
  lemma IdReads(c: Ctx, e: TypedExpr, p: Place)
    requires e == Node(ScalarType(false), Op.Field("id"), [Leafy(Current)]) && AllWellFormed(c.sub)
    requires p.between.depths.Has(0)
    ensures Transfers(c, e, p)
  {
    assert Transfers(c, e.kids[0], PlaceAt(c.sub, e, 0, p));
  }

  lemma IdsTransfer(c: Ctx, p: Place)
    requires c.sub == map[SyntheticName(0) := OpenOrders] && OpenOrders.WellFormed() && IdsOf(Slot(ViewType)).WellFormed()
    requires AllWellFormed(c.sub)
    ensures Transfers(c, IdsOf(Slot(ViewType)), p)
  {
    var e := IdsOf(Slot(ViewType));
    OpenOrdersTransfer(c.env2, Place(PlaceAt(c.sub, e, 0, p).entries, Nothing, AsValue));
    DeeperHas(p.between.depths, true);
    IdReads(c, e.kids[1], PlaceAt(c.sub, e, 1, p));
    assert FlowOf(c.sub, e.kids[0], false).ids;
  }

  /** An output may project a hoisted stream whose binding it does not read: that is no
      side condition of lowering. */
  lemma HoistedStreamTransfers(env: Env, hoisted: map<string, Cell>, row: Row)
    ensures var flat := OrdersView();
      FlatWellFormed(flat) &&
      var sub := EntryMap(LowerEntries(flat));
      AllWellFormed(sub) && FacesTransfer(env, flat, LowerFaces(flat), sub, hoisted, row)
  {
    var flat, entry := OrdersView(), Entry(SyntheticName(0), OpenOrders);
    OrdersFaces();
    IdsHoist();
    OpenOrdersHoist();
    assert [entry][..0] == [];
    assert EntryMap([entry]) == map[entry.name := entry.subtree];
    IdsTransfer(FaceCtx(env, flat, EntryMap([entry]), hoisted, row), OutputPlace(flat));
  }
}
