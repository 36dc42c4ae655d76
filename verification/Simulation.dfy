/** When two evaluations agree: the same expression over other frames or another
    environment, or an expression with subtrees replaced by bindings. */
module Simulation {
  import opened Values
  import opened Rows
  import opened TypedExprs
  import opened Evaluator
  import opened Pairing
  import opened Streaming

  // ---- substitution ------------------------------------------------------

  ghost predicate AllWellFormed(sub: map<string, TypedExpr>) {
    forall n :: n in sub ==> sub[n].WellFormed()
  }

  /** `e` is a binding that stands for a subtree. */
  predicate StandsIn(sub: map<string, TypedExpr>, e: TypedExpr) {
    e.op.ScopeBinding? && e.op.name in sub
  }

  /** Put `sub[n]` back wherever the binding `n` stands for it. */
  function Fill(e: TypedExpr, sub: map<string, TypedExpr>): (r: TypedExpr)
    requires e.WellFormed() && AllWellFormed(sub)
    ensures r.WellFormed()
  {
    if StandsIn(sub, e) then sub[e.op.name]
    else Node(e.ty, e.op, seq(|e.kids|, i requires 0 <= i < |e.kids| => Fill(e.kids[i], sub)))
  }

  // ---- where a node stands -----------------------------------------------

  /** Two evaluations to compare: `env1` with the bindings of `sub` on the left, `env2`
      with the subtrees themselves on the right. */
  datatype Ctx = Ctx(env1: Env, env2: Env, sub: map<string, TypedExpr>)

  /** Nothing replaced: what two frame stacks make of an expression. */
  function Alone(env: Env): Ctx { Ctx(env, env, map[]) }

  /** How an expression is read: as a stream of rows, or as a value; with `bare` over
      recovered rows as well, as the base of a temporal selector; and `folded` when an
      aggregate looks at the cells of its rows alone. */
  datatype Position = Position(view: bool, bare: bool, folded: bool)

  const AsValue := Position(false, false, false)
  const AsStream := Position(true, false, false)

  /** What the two stacks share, what the right one shares with the stack the replaced
      subtrees were evaluated in, and how the expression is read. */
  datatype Place = Place(between: Shared, entries: Shared, pos: Position)

  ghost predicate Replaced(c: Ctx, e: TypedExpr) {
    StandsIn(c.sub, e)
  }

  /** Whether operand `i` runs in a frame of its own. */
  predicate Framed(op: Op, i: nat) {
    (op.Project? && i > 0) || (op.SelectBind? && i == 1)
  }

  function PositionAt(e: TypedExpr, i: nat, pos: Position): Position {
    if e.op.Traverse? || e.op.Combine? || e.op.Keyring? then AsStream
    else if e.op.Aggregate? then Position(true, false, i == 0 && Folds(e))
    else if i > 0 then AsValue
    else if e.op.Temporal? then Position(true, true, false)
    else if e.op.SelectBind? then pos.(folded := false)
    else if e.op.SelectKeys? then Position(false, pos.bare, false)
    else if e.op.Project? then Position(pos.view || !e.ty.RowType?, pos.bare, false)
    else AsValue
  }

  /** An aggregate over a projection that neither groups nor sorts: no identity is looked at. */
  predicate Folds(e: TypedExpr) {
    e.op.Aggregate? && e.kids != [] && e.kids[0].op.Project? && e.kids[0].op.key == [] && e.kids[0].op.descending == []
  }

  // ---- what streams bind -------------------------------------------------

  /** The names the rows of a stream may bind. */
  ghost function StreamNames(e: TypedExpr): set<string>
    requires e.WellFormed()
  {
    if e.op.SelectBind? then StreamNames(e.kids[0]) + {e.op.name}
    else if e.op.Traverse? then StreamNames(e.kids[0]) + NameSet(BindNameOf(e.kids[0])) + {e.op.member}
    else {}
  }

  /** Whether the rows of a stream keep their own identities: a `::` prefixes the outer one. */
  ghost predicate OwnIds(e: TypedExpr)
    requires e.WellFormed()
  {
    if e.op.SelectBind? then OwnIds(e.kids[0]) else !e.op.Traverse?
  }

  /** A replaced stream has lost every binding of its rows, and joined identities. */
  ghost function EntryFlow(e: TypedExpr): Flow
    requires e.WellFormed()
  {
    Flow(StreamNames(e), {}, StreamNames(e), OwnIds(e))
  }

  /** What the streams of `e` and of its original have in common; over recovered rows `::`
      binds nothing. */
  ghost function FlowOf(sub: map<string, TypedExpr>, e: TypedExpr, bare: bool): Flow
    requires e.WellFormed() && AllWellFormed(sub)
  {
    if StandsIn(sub, e) then EntryFlow(sub[e.op.name])
    else if e.op.SelectBind? then FlowOf(sub, e.kids[0], bare).Bind({e.op.name})
    else if e.op.Traverse? then
      var flow := TraverseFlow(FlowOf(sub, e.kids[0], false), BindNameOf(e.kids[0]), BindNameOf(Fill(e.kids[0], sub)), e.op.member);
      if bare then flow.(always := {}) else flow
    else NoBinds
  }

  /** What the rows bring to a filter or a projection, whichever way it is read. */
  ghost function SourceFlow(sub: map<string, TypedExpr>, e: TypedExpr, pos: Position): Flow
    requires e.WellFormed() && AllWellFormed(sub) && (e.op.SelectBind? || e.op.Project?)
  {
    var kid := PositionAt(e, 0, pos);
    var flow := FlowOf(sub, e.kids[0], kid.bare);
    if kid.view then flow else if kid.bare then flow.(always := {}) else NoBinds
  }

  ghost function FlowAt(sub: map<string, TypedExpr>, e: TypedExpr, i: nat, pos: Position): Flow
    requires e.WellFormed() && AllWellFormed(sub) && Framed(e.op, i)
  {
    if e.op.SelectBind? then SourceFlow(sub, e, pos).Bind({e.op.name}) else RowFlow(e.op, e.ty, SourceFlow(sub, e, pos), i)
  }

  /** One frame further in: `top` when both sides have the same `.` there, `stays` when it
      is the enclosing one. */
  ghost function Under(p: Place, flow: Flow, top: bool, stays: bool): Place {
    Place(Shared(p.between.names.Without(flow.lost).With(flow.always - flow.lost), Deeper(p.between.depths, top)),
          Narrowed(p.entries, flow.upto, stays), AsValue)
  }

  /** Where operand `i` stands. A filter read as a stream keeps the enclosing `.`; read as
      a value it makes the row under test `.`, as a projection does. */
  ghost function PlaceAt(sub: map<string, TypedExpr>, e: TypedExpr, i: nat, p: Place): Place
    requires e.WellFormed() && AllWellFormed(sub)
  {
    if !Framed(e.op, i) then p.(pos := PositionAt(e, i, p.pos))
    else
      Under(p, FlowAt(sub, e, i, p.pos), e.op.SelectBind? && (p.pos.view || p.pos.bare) ==> p.between.depths.Has(0),
            e.op.SelectBind? && p.pos.view)
  }

  // ---- what a node may read ----------------------------------------------

  /** What `op` reads off the frames is shared. */
  ghost predicate FramesServe(c: Ctx, op: Op, shared: Shared) {
    match op
    case Current => shared.depths.Has(0)
    case Parent(depth) => shared.depths.Has(depth)
    case LocalBinding(name) => shared.names.Has(name)
    case Structural(name) => c.env2.structural(name).Some? || shared.depths == AllBut({})
    case _ => true
  }

  predicate IsPlacement(member: TypedExprs.BlobMember) { member in {Satisfied, Stored, Surplus} }

  ghost predicate EnvsServe(c: Ctx, op: Op) {
    match op
    case Root => c.env1.root == c.env2.root
    case Param(name) => c.env1.param(name) == c.env2.param(name)
    case Structural(name) => c.env1.structural(name) == c.env2.structural(name)
    case Import(name) => c.env1.imports(name) == c.env2.imports(name)
    case ScopeBinding(name) => c.env1.binding(name) == c.env2.binding(name)
    case Now => c.env1.now == c.env2.now
    case Uuid(site) => c.env1.uuid(site) == c.env2.uuid(site)
    case Arith(_, _) | Aggregate(_, _) => ReadsRounding(op) ==> c.env1.rounding == c.env2.rounding
    case HostCall(_, _) => c.env1.host == c.env2.host
    case Keyring(_) => c.env1.keyring == c.env2.keyring
    case BlobMember(member) => IsPlacement(member) ==> c.env1.placement == c.env2.placement
    case Temporal(_) => c.env1.temporal == c.env2.temporal && c.env1.temporalByName == c.env2.temporalByName
    case _ => true
  }

  /** What the node itself takes from its streams: identities by the set combinators and by
      ungrouped projections that are not folded, the base's name by temporal selectors, no bindings. */
  ghost predicate StreamsServe(sub: map<string, TypedExpr>, e: TypedExpr, pos: Position)
    requires e.WellFormed() && AllWellFormed(sub)
  {
    && (e.op.Combine? ==> FlowOf(sub, e.kids[0], false).ids && FlowOf(sub, e.kids[1], false).ids)
    && (e.op.Project? && e.op.key == [] && !pos.folded ==> SourceFlow(sub, e, pos).ids)
    && (e.op.Temporal? ==> BindNameOf(e.kids[0]) == BindNameOf(Fill(e.kids[0], sub)))
  }

  /** Checkable before any evaluation: whatever `e` reads is shared where it reads it, and
      every replaced subtree reads what its place shares with where it was evaluated. */
  ghost predicate Transfers(c: Ctx, e: TypedExpr, p: Place)
    requires e.WellFormed() && AllWellFormed(c.sub)
    decreases |c.sub|, e
  {
    if Replaced(c, e) then
      && Transfers(Alone(c.env2), c.sub[e.op.name], Place(p.entries, Nothing, AsValue))
      && (p.pos.view ==> Streamable(c.env2, c.sub[e.op.name]))
    else
      && FramesServe(c, e.op, p.between) && EnvsServe(c, e.op) && StreamsServe(c.sub, e, p.pos)
      && forall i :: 0 <= i < |e.kids| ==> Transfers(c, e.kids[i], PlaceAt(c.sub, e, i, p))
  }

  /** The value of `e` has the rows its stream has. A filter must not read `.` as the row
      under test, which it is in the value only, nor a name its source's rows bind; a
      projected row must stand alone. */
  ghost predicate Streamable(env: Env, e: TypedExpr)
    requires e.WellFormed()
    decreases 0, e
  {
    var here := Place(Everything, Nothing, AsValue);
    if e.op.SelectBind? then
      && Streamable(env, e.kids[0])
      && (e.op.filtered ==> Transfers(Alone(env), e.kids[1], Under(here, EntryFlow(e.kids[0]).Bind({e.op.name}), false, false)))
    else if e.op.Project? && e.ty.RowType? then
      && PlainRow(e.op) && Streamable(env, e.kids[0]) && OwnIds(e.kids[0])
      && forall i :: 0 < i < |e.kids| ==>
           Transfers(Alone(env), e.kids[i], Under(here, RowFlow(e.op, e.ty, EntryFlow(e.kids[0]), i), true, false))
    else true
  }

  // ---- the premise -------------------------------------------------------

  /** The stack the replaced subtrees were evaluated in, and the two that run. */
  datatype Stacks = Stacks(entries: seq<Frame>, left: seq<Frame>, right: seq<Frame>)

  ghost predicate Related(s: Stacks, p: Place) {
    && AgreeOn(p.between, s.left, s.right) && AgreeOn(p.entries, s.entries, s.right)
    && (p.entries.depths.Has(0) ==> s.right != [])
  }

  ghost predicate ServedIn(lang: Lang, c: Ctx, fs0: seq<Frame>, n: string, fs: seq<Frame>, at: Shared)
    requires AllWellFormed(c.sub) && n in c.sub
  {
    AgreeOn(at, fs0, fs) && Transfers(Alone(c.env2), c.sub[n], Place(at, Nothing, AsValue)) ==>
      && c.env1.binding(n).Some? && Eval(lang, c.env2, fs, c.sub[n]) == Ok(c.env1.binding(n).value)
      && (Streamable(c.env2, c.sub[n]) ==>
            ResultsPair(EntryFlow(c.sub[n]), AsView(c.env1.binding(n).value), EvalView(lang, c.env2, fs, c.sub[n])))
  }

  /** Each binding of `sub` holds what its subtree evaluates to, and the rows it streams,
      wherever that subtree may stand. */
  ghost predicate Served(lang: Lang, c: Ctx, fs0: seq<Frame>)
    requires AllWellFormed(c.sub)
  {
    forall n, fs, at :: n in c.sub ==> ServedIn(lang, c, fs0, n, fs, at)
  }

  ghost predicate Pre(lang: Lang, c: Ctx, s: Stacks, e: TypedExpr, p: Place) {
    e.WellFormed() && AllWellFormed(c.sub) && Served(lang, c, s.entries) && Transfers(c, e, p) && Related(s, p)
  }

  function Left(c: Ctx, s: Stacks, e: TypedExpr): Side { Side(c.env1, s.left, e) }

  function Right(c: Ctx, s: Stacks, e: TypedExpr): Side
    requires e.WellFormed() && AllWellFormed(c.sub)
  {
    Side(c.env2, s.right, Fill(e, c.sub))
  }

  /** An operand that runs in the node's own frames keeps the premise. */
  lemma PreKid(lang: Lang, c: Ctx, s: Stacks, e: TypedExpr, p: Place, i: nat)
    requires Pre(lang, c, s, e, p) && !Replaced(c, e) && i < |e.kids| && !Framed(e.op, i)
    ensures Pre(lang, c, s, e.kids[i], p.(pos := PositionAt(e, i, p.pos)))
  {
    assert Transfers(c, e.kids[i], PlaceAt(c.sub, e, i, p));
  }

  /** So does one that runs in a frame of its own, on paired frames. */
  lemma PreInside(lang: Lang, c: Ctx, s: Stacks, e: TypedExpr, p: Place, i: nat, f1: Frame, f2: Frame)
    requires Pre(lang, c, s, e, p) && !Replaced(c, e) && i < |e.kids| && Framed(e.op, i)
    requires MapsPair(FlowAt(c.sub, e, i, p.pos), f1.bindings, f2.bindings)
    requires (e.op.SelectBind? && (p.pos.view || p.pos.bare) ==> p.between.depths.Has(0)) ==> f1.current == f2.current
    requires e.op.SelectBind? && p.pos.view ==> f2.current == OuterCurrent(s.right)
    ensures Pre(lang, c, Stacks(s.entries, s.left + [f1], s.right + [f2]), e.kids[i], PlaceAt(c.sub, e, i, p))
    ensures PlaceAt(c.sub, e, i, p).pos == AsValue
  {
    var flow := FlowAt(c.sub, e, i, p.pos);
    PushAgrees(p.between, flow, s.left, s.right, f1, f2, e.op.SelectBind? && (p.pos.view || p.pos.bare) ==> p.between.depths.Has(0));
    PushNarrows(p.entries, flow.upto, s.entries, s.right, f2, e.op.SelectBind? && p.pos.view);
    assert Transfers(c, e.kids[i], PlaceAt(c.sub, e, i, p));
  }

  // ---- the simulation, one lemma per evaluator function ------------------

  lemma SimLeaf(lang: Lang, c: Ctx, s: Stacks, e: TypedExpr, p: Place)
    requires Pre(lang, c, s, e, p) && !Replaced(c, e) && ShapeOf(e.op).Leaf?
    ensures EvalLeaf(c.env1, s.left, e.op) == EvalLeaf(c.env2, s.right, e.op)
  {
    assert FramesServe(c, e.op, p.between) && EnvsServe(c, e.op);
    if e.op.Structural? && p.between.depths == AllBut({}) {
      forall j: nat
        ensures CurrentAt(s.left, j) == CurrentAt(s.right, j)
      {
        assert p.between.depths.Has(j);
      }
      SameCurrents(s.left, s.right, e.op.name);
    }
  }

  /** Read as a value, the residual has the value of its original. */
  lemma {:induction false} SimEval(lang: Lang, c: Ctx, s: Stacks, e: TypedExpr, p: Place)
    requires Pre(lang, c, s, e, p) && !p.pos.view
    requires !p.pos.folded
    ensures Eval(lang, c.env1, s.left, e) == Eval(lang, c.env2, s.right, Fill(e, c.sub))
    decreases e, 5, 0
  {
    if Replaced(c, e) {
      assert ServedIn(lang, c, s.entries, e.op.name, s.right, p.entries);
    } else {
      SimNode(lang, c, s, e, p);
    }
  }

  lemma {:induction false} SimNode(lang: Lang, c: Ctx, s: Stacks, e: TypedExpr, p: Place)
    requires Pre(lang, c, s, e, p) && !Replaced(c, e) && !p.pos.view
    requires !p.pos.folded
    ensures Eval(lang, c.env1, s.left, e) == Eval(lang, c.env2, s.right, Fill(e, c.sub))
    decreases e, 4, 0
  {
    match ShapeOf(e.op)
    case Leaf => SimLeaf(lang, c, s, e, p);
    case Strict(_) => SimStrict(lang, c, s, e, p);
    case OnBase => SimBase(lang, c, s, e, p);
    case Control => SimControl(lang, c, s, e, p);
    case Stream => SimStream(lang, c, s, e, p);
  }

  /** Operands read as values in the node's own frames. */
  lemma {:induction false} SimOperand(lang: Lang, c: Ctx, s: Stacks, e: TypedExpr, p: Place, i: nat)
    requires Pre(lang, c, s, e, p) && !Replaced(c, e) && i < |e.kids| && !Framed(e.op, i) && !PositionAt(e, i, p.pos).view
    ensures SameOperand(lang, Left(c, s, e), Right(c, s, e), i)
    decreases e, 0, 0
  {
    PreKid(lang, c, s, e, p, i);
    SimEval(lang, c, s, e.kids[i], p.(pos := PositionAt(e, i, p.pos)));
  }

  lemma {:induction false} SimEach(lang: Lang, c: Ctx, s: Stacks, e: TypedExpr, p: Place, from: nat, to: nat, need: Need)
    requires Pre(lang, c, s, e, p) && !Replaced(c, e) && from <= to <= |e.kids|
    requires forall i :: from <= i < to ==> !Framed(e.op, i) && !PositionAt(e, i, p.pos).view
    ensures EvalEach(lang, c.env1, s.left, e, from, to, need) == EvalEach(lang, c.env2, s.right, Fill(e, c.sub), from, to, need)
    decreases e, 0, 1
  {
    forall i | from <= i < to
      ensures SameOperand(lang, Left(c, s, e), Right(c, s, e), i)
    {
      SimOperand(lang, c, s, e, p, i);
    }
    SameEach(lang, Left(c, s, e), Right(c, s, e), from, to, need);
  }

  lemma {:induction false} SimStrict(lang: Lang, c: Ctx, s: Stacks, e: TypedExpr, p: Place)
    requires Pre(lang, c, s, e, p) && !Replaced(c, e) && ShapeOf(e.op).Strict?
    ensures Eval(lang, c.env1, s.left, e) == Eval(lang, c.env2, s.right, Fill(e, c.sub))
    decreases e, 3, 0
  {
    assert EnvsServe(c, e.op);
    SimEach(lang, c, s, e, p, 0, |e.kids|, ShapeOf(e.op).need);
  }

  lemma {:induction false} SimBase(lang: Lang, c: Ctx, s: Stacks, e: TypedExpr, p: Place)
    requires Pre(lang, c, s, e, p) && !Replaced(c, e) && ShapeOf(e.op).OnBase?
    ensures Eval(lang, c.env1, s.left, e) == Eval(lang, c.env2, s.right, Fill(e, c.sub))
    decreases e, 3, 0
  {
    assert EnvsServe(c, e.op);
    SimOperand(lang, c, s, e, p, 0);
  }

  lemma {:induction false} SimControl(lang: Lang, c: Ctx, s: Stacks, e: TypedExpr, p: Place)
    requires Pre(lang, c, s, e, p) && !Replaced(c, e) && ShapeOf(e.op).Control?
    ensures Eval(lang, c.env1, s.left, e) == Eval(lang, c.env2, s.right, Fill(e, c.sub))
    decreases e, 3, 0
  {
    forall i | 0 <= i < |e.kids|
      ensures SameOperand(lang, Left(c, s, e), Right(c, s, e), i)
    {
      SimOperand(lang, c, s, e, p, i);
    }
    SameControl(lang, Left(c, s, e), Right(c, s, e));
  }

  lemma SameControl(lang: Lang, l: Side, r: Side)
    requires Alike(l, r) && ShapeOf(l.e.op).Control?
    requires forall i :: 0 <= i < |l.e.kids| ==> SameOperand(lang, l, r, i)
    ensures EvalControl(lang, l.env, l.fs, l.e) == EvalControl(lang, r.env, r.fs, r.e)
  {
    if l.e.op.Logic? {
      SameEach(lang, l, r, 0, 1, AScalar(ExpectedScalar));
      SameEach(lang, l, r, 1, 2, AScalar(ExpectedScalar));
    } else if l.e.op.In? {
      SameEach(lang, l, r, 0, 1, AScalarOrKey(ExpectedScalarOrRow));
      assert SameOperand(lang, l, r, 1);
    } else if l.e.op.Ternary? {
      SameEach(lang, l, r, 0, 1, AScalar(ExpectedScalar));
      assert SameOperand(lang, l, r, 1) && SameOperand(lang, l, r, 2);
    } else if l.e.kids != [] {
      assert SameOperand(lang, l, r, 0) && (l.e.op.Fallback? ==> SameOperand(lang, l, r, 1));
    }
  }

  lemma {:induction false} SimStream(lang: Lang, c: Ctx, s: Stacks, e: TypedExpr, p: Place)
    requires Pre(lang, c, s, e, p) && !Replaced(c, e) && ShapeOf(e.op).Stream? && !p.pos.view
    requires !p.pos.folded
    ensures EvalStream(lang, c.env1, s.left, e) == EvalStream(lang, c.env2, s.right, Fill(e, c.sub))
    decreases e, 3, 0
  {
    match e.op
    case Traverse(_) => SimTraversed(lang, c, s, e, p);
    case SelectKeys | SelectBind(_, _) => SimSelectRows(lang, c, s, e, p);
    case Temporal(_) => SimTemporal(lang, c, s, e, p);
    case Project(_, _, _, _, _, _) => SimProject(lang, c, s, e, p);
    case Combine(_) | Keyring(_) | Aggregate(_, _) => SimOverViews(lang, c, s, e, p);
  }

  /** An operand read as a stream. */
  lemma {:induction false} SimViewed(lang: Lang, c: Ctx, s: Stacks, e: TypedExpr, p: Place, i: nat)
    requires Pre(lang, c, s, e, p) && !Replaced(c, e) && i < |e.kids| && !Framed(e.op, i)
    requires PositionAt(e, i, p.pos).view && !PositionAt(e, i, p.pos).folded
    ensures ResultsPair(FlowOf(c.sub, e.kids[i], PositionAt(e, i, p.pos).bare), EvalView(lang, c.env1, s.left, e.kids[i]),
                        EvalView(lang, c.env2, s.right, Fill(e.kids[i], c.sub)))
    decreases e, 0, 0
  {
    PreKid(lang, c, s, e, p, i);
    SimView(lang, c, s, e.kids[i], p.(pos := PositionAt(e, i, p.pos)));
  }

  lemma {:induction false} SimOverViews(lang: Lang, c: Ctx, s: Stacks, e: TypedExpr, p: Place)
    requires Pre(lang, c, s, e, p) && !Replaced(c, e) && (e.op.Combine? || e.op.Keyring? || e.op.Aggregate?)
    ensures EvalStream(lang, c.env1, s.left, e) == EvalStream(lang, c.env2, s.right, Fill(e, c.sub))
    decreases e, 2, 0
  {
    assert EnvsServe(c, e.op) && StreamsServe(c.sub, e, p.pos);
    if Folds(e) {
      SimFolded(lang, c, s, e, p);
    } else if e.op.Combine? {
      SimViewed(lang, c, s, e, p, 0);
      SimViewed(lang, c, s, e, p, 1);
      SameCombined(lang, Left(c, s, e), Right(c, s, e), FlowOf(c.sub, e.kids[0], false), FlowOf(c.sub, e.kids[1], false));
    } else {
      SimViewed(lang, c, s, e, p, 0);
      SameFolded(lang, Left(c, s, e), Right(c, s, e), FlowOf(c.sub, e.kids[0], false));
    }
  }

  lemma SameCombined(lang: Lang, l: Side, r: Side, left: Flow, right: Flow)
    requires Alike(l, r) && l.e.op.Combine? && left.ids && right.ids
    requires ResultsPair(left, EvalView(lang, l.env, l.fs, l.e.kids[0]), EvalView(lang, r.env, r.fs, r.e.kids[0]))
    requires ResultsPair(right, EvalView(lang, l.env, l.fs, l.e.kids[1]), EvalView(lang, r.env, r.fs, r.e.kids[1]))
    ensures EvalStream(lang, l.env, l.fs, l.e) == EvalStream(lang, r.env, r.fs, r.e)
  {
    var a, x := EvalView(lang, l.env, l.fs, l.e.kids[0]), EvalView(lang, l.env, l.fs, l.e.kids[1]);
    var b, y := EvalView(lang, r.env, r.fs, r.e.kids[0]), EvalView(lang, r.env, r.fs, r.e.kids[1]);
    if a.Ok? && x.Ok? { CombinePair(l.e.op.combine, left, right, a.value, b.value, x.value, y.value); }
  }

  /** Keyrings and aggregates look at the rows alone. */
  lemma SameFolded(lang: Lang, l: Side, r: Side, flow: Flow)
    requires Alike(l, r) && (l.e.op.Keyring? || l.e.op.Aggregate?)
    requires l.e.op.Keyring? ==> l.env.keyring == r.env.keyring
    requires ReadsRounding(l.e.op) ==> l.env.rounding == r.env.rounding
    requires ResultsPair(flow, EvalView(lang, l.env, l.fs, l.e.kids[0]), EvalView(lang, r.env, r.fs, r.e.kids[0]))
    ensures EvalStream(lang, l.env, l.fs, l.e) == EvalStream(lang, r.env, r.fs, r.e)
  {
    var a, b := EvalView(lang, l.env, l.fs, l.e.kids[0]), EvalView(lang, r.env, r.fs, r.e.kids[0]);
    if a.Ok? {
      PairedRows(flow, a.value, b.value);
      if l.e.op.Aggregate? && l.e.op.field.Some? { FieldPair(flow, a.value, b.value, l.e.op.field.value); }
    }
  }

  /** Under an aggregate the projected rows may differ in their identities. */
  lemma {:induction false} SimFolded(lang: Lang, c: Ctx, s: Stacks, e: TypedExpr, p: Place)
    requires Pre(lang, c, s, e, p) && !Replaced(c, e) && Folds(e)
    ensures EvalStream(lang, c.env1, s.left, e) == EvalStream(lang, c.env2, s.right, Fill(e, c.sub))
    decreases e, 1, 0
  {
    var rows, q := e.kids[0], p.(pos := PositionAt(e, 0, p.pos));
    assert EnvsServe(c, e.op);
    PreKid(lang, c, s, e, p, 0);
    SimRows(lang, c, s, rows, q);
    SimViewed(lang, c, s, rows, q, 0);
    SameAggregate(lang, Left(c, s, e), Right(c, s, e), SourceFlow(c.sub, rows, q.pos));
  }

  lemma SameAggregate(lang: Lang, l: Side, r: Side, source: Flow)
    requires Alike(l, r) && Folds(l.e) && Folds(r.e) && Alike(l.(e := l.e.kids[0]), r.(e := r.e.kids[0]))
    requires ReadsRounding(l.e.op) ==> l.env.rounding == r.env.rounding
    requires RowsServe(lang, l.(e := l.e.kids[0]), r.(e := r.e.kids[0]), source)
    requires ResultsPair(source, EvalView(lang, l.env, l.fs, l.e.kids[0].kids[0]), EvalView(lang, r.env, r.fs, r.e.kids[0].kids[0]))
    ensures EvalStream(lang, l.env, l.fs, l.e) == EvalStream(lang, r.env, r.fs, r.e)
  {
    SameCells(lang, l.(e := l.e.kids[0]), r.(e := r.e.kids[0]), source);
    var a, b := EvalView(lang, l.env, l.fs, l.e.kids[0]), EvalView(lang, r.env, r.fs, r.e.kids[0]);
    if a.Ok? && l.e.op.field.Some? { SameFieldValues(a.value, b.value, l.e.op.field.value); }
  }

  // ---- traversal and selection -------------------------------------------

  /** Along the spine only a replaced subtree loses its name. */
  lemma {:induction false} NameSurvives(sub: map<string, TypedExpr>, e: TypedExpr)
    requires e.WellFormed() && AllWellFormed(sub)
    ensures BindNameOf(e).None? || BindNameOf(e) == BindNameOf(Fill(e, sub))
  {
    if !StandsIn(sub, e) && (e.op.SelectKeys? || e.op.SelectBind? || e.op.Project?) { NameSurvives(sub, e.kids[0]); }
  }

  lemma {:induction false} SimTraverse(lang: Lang, c: Ctx, s: Stacks, e: TypedExpr, p: Place)
    requires Pre(lang, c, s, e, p) && !Replaced(c, e) && e.op.Traverse?
    ensures ResultsPair(FlowOf(c.sub, e, false), EvalTraverse(lang, c.env1, s.left, e), EvalTraverse(lang, c.env2, s.right, Fill(e, c.sub)))
    decreases e, 1, 0
  {
    SimViewed(lang, c, s, e, p, 0);
    NameSurvives(c.sub, e.kids[0]);
    var a, b := EvalView(lang, c.env1, s.left, e.kids[0]), EvalView(lang, c.env2, s.right, Fill(e.kids[0], c.sub));
    if a.Ok? {
      FlattenPair(FlowOf(c.sub, e.kids[0], false), a.value, b.value, BindNameOf(e.kids[0]), BindNameOf(Fill(e.kids[0], c.sub)), e.op.member);
    }
  }

  lemma {:induction false} SimTraversed(lang: Lang, c: Ctx, s: Stacks, e: TypedExpr, p: Place)
    requires Pre(lang, c, s, e, p) && !Replaced(c, e) && e.op.Traverse?
    ensures EvalStream(lang, c.env1, s.left, e) == EvalStream(lang, c.env2, s.right, Fill(e, c.sub))
    decreases e, 2, 0
  {
    SimTraverse(lang, c, s, e, p);
    var a, b := EvalTraverse(lang, c.env1, s.left, e), EvalTraverse(lang, c.env2, s.right, Fill(e, c.sub));
    if a.Ok? { PairedRows(FlowOf(c.sub, e, false), a.value, b.value); }
  }

  /** Selection reads its source as a value, also when it is read as a stream by keys. */
  lemma {:induction false} SimSelectRows(lang: Lang, c: Ctx, s: Stacks, e: TypedExpr, p: Place)
    requires Pre(lang, c, s, e, p) && !Replaced(c, e) && (e.op.SelectKeys? || (e.op.SelectBind? && !p.pos.view))
    ensures SelectRows(lang, c.env1, s.left, e) == SelectRows(lang, c.env2, s.right, Fill(e, c.sub))
    decreases e, 2, 0
  {
    SimOperand(lang, c, s, e, p, 0);
    var source := Eval(lang, c.env1, s.left, e.kids[0]);
    if source.Ok? && !source.value.Scalar? {
      if e.op.SelectKeys? {
        SimEach(lang, c, s, e, p, 1, |e.kids|, AScalar(ExpectedScalarKey));
      } else {
        SimFilterRows(lang, c, s, e, p, if source.value.Collection? then source.value.rows else [source.value.row]);
      }
    }
  }

  /** The condition of a filter, on paired frames. */
  lemma {:induction false} SimCondition(lang: Lang, c: Ctx, s: Stacks, e: TypedExpr, p: Place, f1: Frame, f2: Frame)
    requires Pre(lang, c, s, e, p) && !Replaced(c, e) && e.op.SelectBind? && e.op.filtered
    requires MapsPair(FlowAt(c.sub, e, 1, p.pos), f1.bindings, f2.bindings)
    requires (p.pos.view || p.pos.bare ==> p.between.depths.Has(0)) ==> f1.current == f2.current
    requires p.pos.view ==> f2.current == OuterCurrent(s.right)
    ensures Eval(lang, c.env1, s.left + [f1], e.kids[1]) == Eval(lang, c.env2, s.right + [f2], Fill(e, c.sub).kids[1])
    decreases e, 0, 0
  {
    PreInside(lang, c, s, e, p, 1, f1, f2);
    SimEval(lang, c, Stacks(s.entries, s.left + [f1], s.right + [f2]), e.kids[1], PlaceAt(c.sub, e, 1, p));
  }

  lemma {:induction false} SimFilterRows(lang: Lang, c: Ctx, s: Stacks, e: TypedExpr, p: Place, rows: seq<Row>)
    requires Pre(lang, c, s, e, p) && !Replaced(c, e) && e.op.SelectBind? && !p.pos.view
    ensures FilterRows(lang, c.env1, s.left, e, rows) == FilterRows(lang, c.env2, s.right, Fill(e, c.sub), rows)
    decreases e, 1, |rows|
  {
    if e.op.filtered && rows != [] {
      var frame := Frame(RowCell(rows[0]), map[e.op.name := RowCell(rows[0])]);
      assert MapsPair(FlowAt(c.sub, e, 1, p.pos), frame.bindings, frame.bindings);
      SimCondition(lang, c, s, e, p, frame, frame);
      SimFilterRows(lang, c, s, e, p, rows[1..]);
    }
  }

  /** `[:name | condition]` over paired streams; the condition runs under `.` as it was. */
  lemma {:induction false} SimBindScopes(lang: Lang, c: Ctx, s: Stacks, e: TypedExpr, p: Place, flow: Flow, a: seq<RowScope>, b: seq<RowScope>)
    requires Pre(lang, c, s, e, p) && !Replaced(c, e) && e.op.SelectBind? && (p.pos.view || p.pos.bare)
    requires StreamsPair(flow, a, b) && flow.Covers(SourceFlow(c.sub, e, p.pos))
    ensures ResultsPair(flow.Bind({e.op.name}), BindScopes(lang, c.env1, s.left, e, a), BindScopes(lang, c.env2, s.right, Fill(e, c.sub), b))
    decreases e, 2, 0
  {
    var l, r := Left(c, s, e), Right(c, s, e);
    forall x, y
      ensures KeepsAlike(lang, l, r, flow, x, y)
    {
      if ScopesPair(flow, x, y) && e.op.filtered { SimKeeps(lang, c, s, e, p, flow, x, y); }
    }
    SameBindScopes(lang, l, r, flow, a, b);
  }

  lemma {:induction false} SimKeeps(lang: Lang, c: Ctx, s: Stacks, e: TypedExpr, p: Place, flow: Flow, a: RowScope, b: RowScope)
    requires Pre(lang, c, s, e, p) && !Replaced(c, e) && e.op.SelectBind? && e.op.filtered && (p.pos.view || p.pos.bare)
    requires ScopesPair(flow, a, b) && flow.Covers(SourceFlow(c.sub, e, p.pos))
    ensures KeepsAlike(lang, Left(c, s, e), Right(c, s, e), flow, a, b)
    decreases e, 1, 0
  {
    var f1, f2 := FilterFrame(s.left, a, e.op.name), FilterFrame(s.right, b, e.op.name);
    FilterFrames(flow, a, b, s.left, s.right, e.op.name);
    CoversMaps(flow.Bind({e.op.name}), FlowAt(c.sub, e, 1, p.pos), f1.bindings, f2.bindings);
    assert p.between.depths.Has(0) ==> CurrentAt(s.left, 0) == CurrentAt(s.right, 0);
    SimCondition(lang, c, s, e, p, f1, f2);
  }

  // ---- projections -------------------------------------------------------

  /** One operand after the source, on the paired frames of a row. */
  lemma {:induction false} SimInRow(lang: Lang, c: Ctx, s: Stacks, e: TypedExpr, p: Place, i: nat, f1: Frame, f2: Frame)
    requires Pre(lang, c, s, e, p) && !Replaced(c, e) && e.op.Project? && 0 < i < |e.kids|
    ensures ServesIn(lang, Left(c, s, e), Right(c, s, e), i, FlowAt(c.sub, e, i, p.pos), f1, f2)
    decreases e, 0, 0
  {
    if MapsPair(FlowAt(c.sub, e, i, p.pos), f1.bindings, f2.bindings) && f1.current == f2.current {
      PreInside(lang, c, s, e, p, i, f1, f2);
      SimEval(lang, c, Stacks(s.entries, s.left + [f1], s.right + [f2]), e.kids[i], PlaceAt(c.sub, e, i, p));
    }
  }

  lemma {:induction false} SimRows(lang: Lang, c: Ctx, s: Stacks, e: TypedExpr, p: Place)
    requires Pre(lang, c, s, e, p) && !Replaced(c, e) && e.op.Project?
    ensures RowsServe(lang, Left(c, s, e), Right(c, s, e), SourceFlow(c.sub, e, p.pos))
    decreases e, 1, 0
  {
    forall i | 0 < i < |e.kids|
      ensures Serves(lang, Left(c, s, e), Right(c, s, e), i, RowFlow(e.op, e.ty, SourceFlow(c.sub, e, p.pos), i))
    {
      forall f1, f2
        ensures ServesIn(lang, Left(c, s, e), Right(c, s, e), i, RowFlow(e.op, e.ty, SourceFlow(c.sub, e, p.pos), i), f1, f2)
      {
        SimInRow(lang, c, s, e, p, i, f1, f2);
      }
    }
  }

  /** Plain and grouped projections of paired rows are equal. */
  lemma {:induction false} SimProjectScopes(lang: Lang, c: Ctx, s: Stacks, e: TypedExpr, p: Place, flow: Flow,
                                            a: seq<RowScope>, b: seq<RowScope>)
    requires Pre(lang, c, s, e, p) && !Replaced(c, e) && e.op.Project?
    requires StreamsPair(flow, a, b) && flow.Covers(SourceFlow(c.sub, e, p.pos))
    requires !p.pos.folded
    ensures ProjectScopes(lang, c.env1, s.left, e, a) == ProjectScopes(lang, c.env2, s.right, Fill(e, c.sub), b)
    decreases e, 2, 0
  {
    SimRows(lang, c, s, e, p);
    CoversStreams(flow, SourceFlow(c.sub, e, p.pos), a, b);
    assert StreamsServe(c.sub, e, p.pos);
    SameProjectScopes(lang, Left(c, s, e), Right(c, s, e), SourceFlow(c.sub, e, p.pos), a, b);
  }

  lemma {:induction false} SimProject(lang: Lang, c: Ctx, s: Stacks, e: TypedExpr, p: Place)
    requires Pre(lang, c, s, e, p) && !Replaced(c, e) && e.op.Project? && !p.pos.view
    requires !p.pos.folded
    ensures EvalStream(lang, c.env1, s.left, e) == EvalStream(lang, c.env2, s.right, Fill(e, c.sub))
    decreases e, 2, 3
  {
    if e.ty.RowType? {
      SimProjectedRow(lang, c, s, e, p);
    } else {
      SimProjected(lang, c, s, e, p);
    }
  }

  /** A single row is projected alone. */
  lemma {:induction false} SimProjectedRow(lang: Lang, c: Ctx, s: Stacks, e: TypedExpr, p: Place)
    requires Pre(lang, c, s, e, p) && !Replaced(c, e) && e.op.Project? && e.ty.RowType? && !p.pos.view
    requires !p.pos.folded
    ensures EvalStream(lang, c.env1, s.left, e) == EvalStream(lang, c.env2, s.right, Fill(e, c.sub))
    decreases e, 2, 1
  {
    SimOperand(lang, c, s, e, p, 0);
    SimRows(lang, c, s, e, p);
    var source, cell := SourceFlow(c.sub, e, p.pos), Eval(lang, c.env1, s.left, e.kids[0]);
    if cell.Ok? && cell.value.RowCell? {
      var scope := Bare(cell.value.row);
      assert ScopesPair(source.(ids := true), scope, scope);
      AloneServes(lang, Left(c, s, e), Right(c, s, e), source);
      SameProjectRow(lang, Left(c, s, e), Right(c, s, e), source.(ids := true), scope, scope, None, None);
    }
  }

  ghost predicate SameProjected(lang: Lang, l: Side, r: Side)
    requires Alike(l, r) && l.e.op.Project?
  {
    var a, b := EvalView(lang, l.env, l.fs, l.e.kids[0]), EvalView(lang, r.env, r.fs, r.e.kids[0]);
    if a.Ok? then b.Ok? && ProjectScopes(lang, l.env, l.fs, l.e, a.value) == ProjectScopes(lang, r.env, r.fs, r.e, b.value)
    else b.Err? && a.error == b.error
  }

  lemma {:induction false} SimSource(lang: Lang, c: Ctx, s: Stacks, e: TypedExpr, p: Place)
    requires Pre(lang, c, s, e, p) && !Replaced(c, e) && e.op.Project? && (p.pos.view || !e.ty.RowType?)
    requires !p.pos.folded
    ensures SameProjected(lang, Left(c, s, e), Right(c, s, e))
    decreases e, 2, 1
  {
    SimViewed(lang, c, s, e, p, 0);
    var a, b := EvalView(lang, c.env1, s.left, e.kids[0]), EvalView(lang, c.env2, s.right, Fill(e.kids[0], c.sub));
    if a.Ok? { SimProjectScopes(lang, c, s, e, p, FlowOf(c.sub, e.kids[0], p.pos.bare), a.value, b.value); }
  }

  lemma {:induction false} SimProjected(lang: Lang, c: Ctx, s: Stacks, e: TypedExpr, p: Place)
    requires Pre(lang, c, s, e, p) && !Replaced(c, e) && e.op.Project? && !e.ty.RowType?
    requires !p.pos.folded
    ensures EvalStream(lang, c.env1, s.left, e) == EvalStream(lang, c.env2, s.right, Fill(e, c.sub))
    decreases e, 2, 2
  {
    SimSource(lang, c, s, e, p);
  }

  // ---- streams -----------------------------------------------------------

  /** Read as a stream, the residual has the rows of its original, bound alike outside the
      names its replaced subtrees have lost. */
  lemma {:induction false} SimView(lang: Lang, c: Ctx, s: Stacks, e: TypedExpr, p: Place)
    requires Pre(lang, c, s, e, p) && p.pos.view
    requires !p.pos.folded
    ensures ResultsPair(FlowOf(c.sub, e, p.pos.bare), EvalView(lang, c.env1, s.left, e), EvalView(lang, c.env2, s.right, Fill(e, c.sub)))
    decreases e, 6, 0
  {
    if Replaced(c, e) {
      assert ServedIn(lang, c, s.entries, e.op.name, s.right, p.entries);
      var v := c.env1.binding(e.op.name);
      assert EvalView(lang, c.env1, s.left, e) == AsView(v.value);
    } else if e.op.Traverse? || e.op.SelectKeys? || e.op.SelectBind? || e.op.Project? {
      SimSpine(lang, c, s, e, p);
    } else {
      SimCell(lang, c, s, e, p);
    }
  }

  lemma SamePlaces(c: Ctx, e: TypedExpr, p: Place)
    requires e.WellFormed() && AllWellFormed(c.sub) && Transfers(c, e, p) && !Replaced(c, e)
    requires !(e.op.Traverse? || e.op.SelectKeys? || e.op.SelectBind? || e.op.Project?)
    ensures Transfers(c, e, p.(pos := AsValue))
  {
    forall i | 0 <= i < |e.kids|
      ensures Transfers(c, e.kids[i], PlaceAt(c.sub, e, i, p.(pos := AsValue)))
    {
      assert PlaceAt(c.sub, e, i, p.(pos := AsValue)) == PlaceAt(c.sub, e, i, p);
    }
  }

  /** Any other node streams the rows of its value. */
  lemma {:induction false} SimCell(lang: Lang, c: Ctx, s: Stacks, e: TypedExpr, p: Place)
    requires Pre(lang, c, s, e, p) && !Replaced(c, e)
    requires !(e.op.Traverse? || e.op.SelectKeys? || e.op.SelectBind? || e.op.Project?)
    ensures ResultsPair(NoBinds, EvalView(lang, c.env1, s.left, e), EvalView(lang, c.env2, s.right, Fill(e, c.sub)))
    decreases e, 5, 0
  {
    SamePlaces(c, e, p);
    SimNode(lang, c, s, e, p.(pos := AsValue));
    var cell := Eval(lang, c.env1, s.left, e);
    if cell.Ok? { AsViewPair(cell.value); }
  }

  lemma AsViewPair(cell: Cell)
    ensures ResultsPair(NoBinds, AsView(cell), AsView(cell))
  {
  }

  lemma {:induction false} SimSpine(lang: Lang, c: Ctx, s: Stacks, e: TypedExpr, p: Place)
    requires Pre(lang, c, s, e, p) && !Replaced(c, e) && p.pos.view
    requires e.op.Traverse? || e.op.SelectKeys? || e.op.SelectBind? || e.op.Project?
    requires !p.pos.folded
    ensures ResultsPair(FlowOf(c.sub, e, p.pos.bare), EvalView(lang, c.env1, s.left, e), EvalView(lang, c.env2, s.right, Fill(e, c.sub)))
    decreases e, 5, 0
  {
    if e.op.Traverse? {
      SimTraverse(lang, c, s, e, p);
      CoversResults(FlowOf(c.sub, e, false), FlowOf(c.sub, e, p.pos.bare), EvalView(lang, c.env1, s.left, e),
                    EvalView(lang, c.env2, s.right, Fill(e, c.sub)));
    } else if e.op.SelectKeys? {
      SimSelectedView(lang, c, s, e, p);
    } else if e.op.SelectBind? {
      SimBoundView(lang, c, s, e, p);
    } else {
      SimProjectedView(lang, c, s, e, p);
    }
  }

  lemma CoversResults(flow: Flow, other: Flow, a: Result<seq<RowScope>>, b: Result<seq<RowScope>>)
    requires ResultsPair(flow, a, b) && flow.Covers(other)
    ensures ResultsPair(other, a, b)
  {
    if a.Ok? { CoversStreams(flow, other, a.value, b.value); }
  }

  lemma {:induction false} SimSelectedView(lang: Lang, c: Ctx, s: Stacks, e: TypedExpr, p: Place)
    requires Pre(lang, c, s, e, p) && !Replaced(c, e) && e.op.SelectKeys?
    ensures ResultsPair(NoBinds, EvalView(lang, c.env1, s.left, e), EvalView(lang, c.env2, s.right, Fill(e, c.sub)))
    decreases e, 4, 0
  {
    SimSelectRows(lang, c, s, e, p);
    var rows := SelectRows(lang, c.env1, s.left, e);
    if rows.Ok? { BarePair(rows.value); }
  }

  lemma {:induction false} SimBoundView(lang: Lang, c: Ctx, s: Stacks, e: TypedExpr, p: Place)
    requires Pre(lang, c, s, e, p) && !Replaced(c, e) && e.op.SelectBind? && p.pos.view
    ensures ResultsPair(FlowOf(c.sub, e, p.pos.bare), EvalView(lang, c.env1, s.left, e), EvalView(lang, c.env2, s.right, Fill(e, c.sub)))
    decreases e, 4, 0
  {
    SimViewed(lang, c, s, e, p, 0);
    var a, b := EvalView(lang, c.env1, s.left, e.kids[0]), EvalView(lang, c.env2, s.right, Fill(e.kids[0], c.sub));
    if a.Ok? { SimBindScopes(lang, c, s, e, p, FlowOf(c.sub, e.kids[0], p.pos.bare), a.value, b.value); }
  }

  lemma {:induction false} SimProjectedView(lang: Lang, c: Ctx, s: Stacks, e: TypedExpr, p: Place)
    requires Pre(lang, c, s, e, p) && !Replaced(c, e) && e.op.Project? && p.pos.view
    requires !p.pos.folded
    ensures ResultsPair(NoBinds, EvalView(lang, c.env1, s.left, e), EvalView(lang, c.env2, s.right, Fill(e, c.sub)))
    decreases e, 4, 0
  {
    SimSource(lang, c, s, e, p);
    ProjectedPair(lang, Left(c, s, e), Right(c, s, e));
  }

  lemma ProjectedPair(lang: Lang, l: Side, r: Side)
    requires Alike(l, r) && l.e.op.Project? && SameProjected(lang, l, r)
    ensures ResultsPair(NoBinds, EvalView(lang, l.env, l.fs, l.e), EvalView(lang, r.env, r.fs, r.e))
  {
    var a := EvalView(lang, l.env, l.fs, l.e.kids[0]);
    if a.Ok? {
      var rows := ProjectScopes(lang, l.env, l.fs, l.e, a.value);
      if rows.Ok? { BarePair(rows.value); }
    }
  }

  // ---- temporal selectors ------------------------------------------------

  ghost predicate RebaseAgrees(lang: Lang, flow: Flow, env1: Env, fs1: seq<Frame>, base1: TypedExpr, env2: Env, fs2: seq<Frame>,
                               base2: TypedExpr, rows: seq<Row>)
    requires base1.WellFormed() && base2.WellFormed()
  {
    ResultsPair(flow, Rebase(lang, env1, fs1, base1, rows), Rebase(lang, env2, fs2, base2, rows))
  }

  /** The base is compared both as a stream of its own and over recovered rows. */
  lemma {:induction false} SimTemporal(lang: Lang, c: Ctx, s: Stacks, e: TypedExpr, p: Place)
    requires Pre(lang, c, s, e, p) && !Replaced(c, e) && e.op.Temporal?
    ensures EvalTemporal(lang, c.env1, s.left, e) == EvalTemporal(lang, c.env2, s.right, Fill(e, c.sub))
    decreases e, 2, 2
  {
    SimEach(lang, c, s, e, p, 1, |e.kids|, AnInstant);
    SimRecovered(lang, c, s, e, p);
    SameTemporal(lang, c.env1, s.left, e, c.env2, s.right, Fill(e, c.sub));
  }

  lemma {:induction false} SimRecovered(lang: Lang, c: Ctx, s: Stacks, e: TypedExpr, p: Place)
    requires Pre(lang, c, s, e, p) && !Replaced(c, e) && e.op.Temporal?
    ensures forall query :: RecoveredAgrees(lang, c.env1, s.left, e, c.env2, s.right, Fill(e, c.sub), query)
    decreases e, 2, 1
  {
    var flow := FlowOf(c.sub, e.kids[0], true);
    SimTemporalBase(lang, c, s, e, p);
    assert EnvsServe(c, e.op) && StreamsServe(c.sub, e, p.pos);
    forall query
      ensures RecoveredAgrees(lang, c.env1, s.left, e, c.env2, s.right, Fill(e, c.sub), query)
    {
      SameRecovered(lang, flow, c.env1, s.left, e, c.env2, s.right, Fill(e, c.sub), query);
    }
  }

  lemma {:induction false} SimTemporalBase(lang: Lang, c: Ctx, s: Stacks, e: TypedExpr, p: Place)
    requires Pre(lang, c, s, e, p) && !Replaced(c, e) && e.op.Temporal?
    ensures ResultsPair(FlowOf(c.sub, e.kids[0], true), EvalView(lang, c.env1, s.left, e.kids[0]),
                        EvalView(lang, c.env2, s.right, Fill(e.kids[0], c.sub)))
    ensures BindNameOf(e.kids[0]).Some? ==> forall rows ::
      RebaseAgrees(lang, FlowOf(c.sub, e.kids[0], true), c.env1, s.left, e.kids[0], c.env2, s.right, Fill(e.kids[0], c.sub), rows)
    decreases e, 2, 0
  {
    SimViewed(lang, c, s, e, p, 0);
    PreKid(lang, c, s, e, p, 0);
    if BindNameOf(e.kids[0]).Some? {
      forall rows
        ensures RebaseAgrees(lang, FlowOf(c.sub, e.kids[0], true), c.env1, s.left, e.kids[0], c.env2, s.right, Fill(e.kids[0], c.sub), rows)
      {
        SimRebase(lang, c, s, e.kids[0], p.(pos := Position(true, true, false)), rows);
      }
    }
  }

  ghost predicate RecoveredAgrees(lang: Lang, env1: Env, fs1: seq<Frame>, e1: TypedExpr, env2: Env, fs2: seq<Frame>, e2: TypedExpr,
                                  query: TemporalQuery)
    requires e1.WellFormed() && e2.WellFormed() && e1.op.Temporal? && e2.op.Temporal?
  {
    Recovered(lang, env1, fs1, e1, query) == Recovered(lang, env2, fs2, e2, query)
  }

  /** A temporal selector is determined by its instants and what it recovers. */
  lemma SameTemporal(lang: Lang, env1: Env, fs1: seq<Frame>, e1: TypedExpr, env2: Env, fs2: seq<Frame>, e2: TypedExpr)
    requires e1.WellFormed() && e2.WellFormed() && e1.op.Temporal? && e1.op == e2.op && |e1.kids| == |e2.kids|
    requires EvalEach(lang, env1, fs1, e1, 1, |e1.kids|, AnInstant) == EvalEach(lang, env2, fs2, e2, 1, |e2.kids|, AnInstant)
    requires forall query :: RecoveredAgrees(lang, env1, fs1, e1, env2, fs2, e2, query)
    ensures EvalTemporal(lang, env1, fs1, e1) == EvalTemporal(lang, env2, fs2, e2)
  {
    var instants := EvalEach(lang, env1, fs1, e1, 1, |e1.kids|, AnInstant);
    if instants.Ok? && !(e1.op.form == Between && instants.value[1].ticks <= instants.value[0].ticks) {
      assert RecoveredAgrees(lang, env1, fs1, e1, env2, fs2, e2, QueryOf(e1.op.form, instants.value));
    }
  }

  predicate Indexed(env: Env, name: Option<string>, query: TemporalQuery) {
    name.Some? && env.temporalByName(name.value, query).Some?
  }

  lemma SameNamed(lang: Lang, flow: Flow, env1: Env, fs1: seq<Frame>, e1: TypedExpr, env2: Env, fs2: seq<Frame>, e2: TypedExpr,
                  query: TemporalQuery)
    requires e1.WellFormed() && e2.WellFormed() && e1.op.Temporal? && e2.op.Temporal?
    requires BindNameOf(e1.kids[0]) == BindNameOf(e2.kids[0]) && env1.temporalByName == env2.temporalByName
    requires Indexed(env1, BindNameOf(e1.kids[0]), query)
    requires RebaseAgrees(lang, flow, env1, fs1, e1.kids[0], env2, fs2, e2.kids[0],
                          env1.temporalByName(BindNameOf(e1.kids[0]).value, query).value)
    ensures RecoveredAgrees(lang, env1, fs1, e1, env2, fs2, e2, query)
  {
    var rows := env1.temporalByName(BindNameOf(e1.kids[0]).value, query).value;
    var a, b := Rebase(lang, env1, fs1, e1.kids[0], rows), Rebase(lang, env2, fs2, e2.kids[0], rows);
    if a.Ok? { PairedRows(flow, a.value, b.value); }
  }

  lemma SameUnnamed(lang: Lang, flow: Flow, env1: Env, fs1: seq<Frame>, e1: TypedExpr, env2: Env, fs2: seq<Frame>, e2: TypedExpr,
                    query: TemporalQuery)
    requires e1.WellFormed() && e2.WellFormed() && e1.op.Temporal? && e2.op.Temporal?
    requires BindNameOf(e1.kids[0]) == BindNameOf(e2.kids[0]) && env1.temporalByName == env2.temporalByName
    requires env1.temporal == env2.temporal && !Indexed(env1, BindNameOf(e1.kids[0]), query)
    requires ResultsPair(flow, EvalView(lang, env1, fs1, e1.kids[0]), EvalView(lang, env2, fs2, e2.kids[0]))
    ensures RecoveredAgrees(lang, env1, fs1, e1, env2, fs2, e2, query)
  {
    var a, b := EvalView(lang, env1, fs1, e1.kids[0]), EvalView(lang, env2, fs2, e2.kids[0]);
    if a.Ok? { PairedRows(flow, a.value, b.value); }
  }

  lemma SameRecovered(lang: Lang, flow: Flow, env1: Env, fs1: seq<Frame>, e1: TypedExpr, env2: Env, fs2: seq<Frame>, e2: TypedExpr,
                      query: TemporalQuery)
    requires e1.WellFormed() && e2.WellFormed() && e1.op.Temporal? && e2.op.Temporal?
    requires BindNameOf(e1.kids[0]) == BindNameOf(e2.kids[0])
    requires env1.temporal == env2.temporal && env1.temporalByName == env2.temporalByName
    requires ResultsPair(flow, EvalView(lang, env1, fs1, e1.kids[0]), EvalView(lang, env2, fs2, e2.kids[0]))
    requires BindNameOf(e1.kids[0]).Some? ==> forall rows ::
      RebaseAgrees(lang, flow, env1, fs1, e1.kids[0], env2, fs2, e2.kids[0], rows)
    ensures RecoveredAgrees(lang, env1, fs1, e1, env2, fs2, e2, query)
  {
    var name := BindNameOf(e1.kids[0]);
    if Indexed(env1, name, query) {
      assert RebaseAgrees(lang, flow, env1, fs1, e1.kids[0], env2, fs2, e2.kids[0], env1.temporalByName(name.value, query).value);
      SameNamed(lang, flow, env1, fs1, e1, env2, fs2, e2, query);
    } else {
      SameUnnamed(lang, flow, env1, fs1, e1, env2, fs2, e2, query);
    }
  }

  /** A named base has no replaced subtree on the spine its name was found along. */
  lemma {:induction false} SimRebase(lang: Lang, c: Ctx, s: Stacks, base: TypedExpr, p: Place, rows: seq<Row>)
    requires Pre(lang, c, s, base, p) && p.pos.bare && BindNameOf(base).Some?
    requires !p.pos.folded
    ensures RebaseAgrees(lang, FlowOf(c.sub, base, true), c.env1, s.left, base, c.env2, s.right, Fill(base, c.sub), rows)
    decreases base, 3, 0
  {
    if base.op.Field? || base.op.Traverse? {
      BarePair(rows);
      CoversStreams(NoBinds, FlowOf(c.sub, base, true), BareAll(rows), BareAll(rows));
    } else {
      PreKid(lang, c, s, base, p, 0);
      SimRebase(lang, c, s, base.kids[0], p.(pos := PositionAt(base, 0, p.pos)), rows);
      var a, b := Rebase(lang, c.env1, s.left, base.kids[0], rows), Rebase(lang, c.env2, s.right, Fill(base, c.sub).kids[0], rows);
      if a.Ok? { SimRebased(lang, c, s, base, p, rows, a.value, b.value); }
    }
  }

  lemma {:induction false} SimRebased(lang: Lang, c: Ctx, s: Stacks, base: TypedExpr, p: Place, rows: seq<Row>,
                                      a: seq<RowScope>, b: seq<RowScope>)
    requires Pre(lang, c, s, base, p) && p.pos.bare && !Replaced(c, base)
    requires base.op.SelectBind? || base.op.SelectKeys? || base.op.Project?
    requires Rebase(lang, c.env1, s.left, base.kids[0], rows) == Ok(a)
    requires Rebase(lang, c.env2, s.right, Fill(base, c.sub).kids[0], rows) == Ok(b)
    requires StreamsPair(FlowOf(c.sub, base.kids[0], true), a, b)
    requires !p.pos.folded
    ensures RebaseAgrees(lang, FlowOf(c.sub, base, true), c.env1, s.left, base, c.env2, s.right, Fill(base, c.sub), rows)
    decreases base, 2, 3
  {
    var flow := FlowOf(c.sub, base.kids[0], true);
    if base.op.SelectBind? {
      SimBindScopes(lang, c, s, base, p, flow, a, b);
    } else if base.op.SelectKeys? {
      SimEach(lang, c, s, base, p, 1, |base.kids|, AScalar(ExpectedScalarKey));
      PairedRows(flow, a, b);
      SameRebasedKeys(lang, Left(c, s, base), Right(c, s, base), rows, a, b);
    } else {
      SimProjectScopes(lang, c, s, base, p, flow, a, b);
      SameRebasedProject(lang, Left(c, s, base), Right(c, s, base), rows, a, b);
    }
  }

  lemma SameRebasedKeys(lang: Lang, l: Side, r: Side, rows: seq<Row>, a: seq<RowScope>, b: seq<RowScope>)
    requires Alike(l, r) && l.e.op.SelectKeys? && RowsOf(a) == RowsOf(b)
    requires Rebase(lang, l.env, l.fs, l.e.kids[0], rows) == Ok(a) && Rebase(lang, r.env, r.fs, r.e.kids[0], rows) == Ok(b)
    requires EvalEach(lang, l.env, l.fs, l.e, 1, |l.e.kids|, AScalar(ExpectedScalarKey))
          == EvalEach(lang, r.env, r.fs, r.e, 1, |r.e.kids|, AScalar(ExpectedScalarKey))
    ensures RebaseAgrees(lang, NoBinds, l.env, l.fs, l.e, r.env, r.fs, r.e, rows)
  {
    var keys := EvalEach(lang, l.env, l.fs, l.e, 1, |l.e.kids|, AScalar(ExpectedScalarKey));
    if keys.Ok? { BarePair(WithKeys(lang, RowsOf(a), keys.value)); }
  }

  lemma SameRebasedProject(lang: Lang, l: Side, r: Side, rows: seq<Row>, a: seq<RowScope>, b: seq<RowScope>)
    requires Alike(l, r) && l.e.op.Project?
    requires Rebase(lang, l.env, l.fs, l.e.kids[0], rows) == Ok(a) && Rebase(lang, r.env, r.fs, r.e.kids[0], rows) == Ok(b)
    requires ProjectScopes(lang, l.env, l.fs, l.e, a) == ProjectScopes(lang, r.env, r.fs, r.e, b)
    ensures RebaseAgrees(lang, NoBinds, l.env, l.fs, l.e, r.env, r.fs, r.e, rows)
  {
    var projected := ProjectScopes(lang, l.env, l.fs, l.e, a);
    if projected.Ok? { BarePair(projected.value); }
  }
}
