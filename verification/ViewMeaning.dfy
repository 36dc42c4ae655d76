/** What the view operators deliver, by position: which rows, bound to what, in which order
    (liasse-expr, eval/views.rs and eval/mod.rs). */
module ViewMeaning {
  import opened Values
  import opened Rows
  import opened TypedExprs
  import opened Order
  import opened Evaluator
  import opened Pairing
  import opened Streaming
  import opened Ascending

  // ---- picking positions -------------------------------------------------

  /** `picked` is what stands at the places `at` of `all`, in their order. */
  ghost predicate StandAt<T>(all: seq<T>, picked: seq<T>, at: seq<nat>) {
    && |at| == |picked|
    && (forall i, j :: 0 <= i < j < |at| ==> at[i] < at[j])
    && forall i :: 0 <= i < |at| ==> at[i] < |all| && picked[i] == all[at[i]]
  }

  /** `picked` is exactly what stands at the places in `where`, each once, in order. */
  ghost predicate Picks<T>(all: seq<T>, picked: seq<T>, where: set<nat>) {
    exists at :: StandAt(all, picked, at) && (forall p: nat :: p in at <==> p in where)
  }

  ghost function Shifted(where: set<nat>): set<nat> { set p | p in where && p > 0 :: p - 1 }

  lemma ShiftedHas(where: set<nat>)
    ensures forall p: nat :: p in Shifted(where) <==> p + 1 in where
  {
    forall p: nat
      ensures p in Shifted(where) <==> p + 1 in where
    {
      if p + 1 in where { assert (p + 1) - 1 in Shifted(where); }
    }
  }

  lemma PicksNone<T>(where: set<nat>)
    requires where == {}
    ensures Picks<T>([], [], where)
  {
    assert StandAt<T>([], [], []);
  }

  /** The places one further on, with or without the first. */
  function Moved(at: seq<nat>, first: bool): seq<nat> {
    (if first then [0] else []) + seq(|at|, i requires 0 <= i < |at| => at[i] + 1)
  }

  lemma MovedStand<T>(x: T, rest: seq<T>, picked: seq<T>, at: seq<nat>, first: bool)
    requires StandAt(rest, picked, at)
    ensures StandAt([x] + rest, (if first then [x] else []) + picked, Moved(at, first))
  {
  }

  lemma MovedHas(at: seq<nat>, first: bool, p: nat)
    ensures p in Moved(at, first) <==> (p == 0 && first) || (p > 0 && p - 1 in at)
  {
    var moved: seq<nat> := seq(|at|, i requires 0 <= i < |at| => at[i] + 1);
    if p > 0 && p - 1 in at {
      var i :| 0 <= i < |at| && at[i] == p - 1;
      assert moved[i] == p;
    }
    if p in moved {
      var i :| 0 <= i < |moved| && moved[i] == p;
      assert at[i] in at;
    }
  }

  /** Picking from the rest, with or without the first. */
  lemma PicksFirst<T>(x: T, rest: seq<T>, picked: seq<T>, where: set<nat>)
    requires Picks(rest, picked, Shifted(where))
    ensures Picks([x] + rest, (if 0 in where then [x] else []) + picked, where)
  {
    var at :| StandAt(rest, picked, at) && forall p: nat :: p in at <==> p in Shifted(where);
    var all := Moved(at, 0 in where);
    MovedStand(x, rest, picked, at, 0 in where);
    ShiftedHas(where);
    forall p: nat
      ensures p in all <==> p in where
    {
      MovedHas(at, 0 in where, p);
      if p > 0 { assert p - 1 in Shifted(where) <==> (p - 1) + 1 in where; }
    }
  }

  // ---- skip and limit ----------------------------------------------------

  function Skipped(skip: Option<nat>): nat { if skip.Some? then skip.value else 0 }

  /** How many of `n` rows are left past the skipped ones, and delivered under the limit. */
  function Left(n: nat, skip: Option<nat>): nat { if Skipped(skip) <= n then n - Skipped(skip) else 0 }

  function Delivered(n: nat, skip: Option<nat>, limit: Option<nat>): nat {
    if limit.Some? && limit.value <= Left(n, skip) then limit.value else Left(n, skip)
  }

  /** `rows` is what the bounds leave of `all`: the skipped rows go first, and the limit
      counts from the first row that is left. */
  ghost predicate Bounded(all: seq<Row>, rows: seq<Row>, skip: Option<nat>, limit: Option<nat>) {
    && |rows| == Delivered(|all|, skip, limit)
    && forall i :: 0 <= i < |rows| ==> Skipped(skip) + i < |all| && rows[i] == all[Skipped(skip) + i]
  }

  lemma BoundDelivers(rows: seq<Row>, skip: Option<nat>, limit: Option<nat>)
    ensures Bounded(rows, Bound(rows, skip, limit), skip, limit)
  {
  }

  // ---- ordering ----------------------------------------------------------

  /** The ranked rows with their sort tuples attached, in an order that is that of the
      source when nothing is sorted by, and otherwise the declared one: all of them, in
      comparator order, tied rows as they came. */
  ghost predicate OrderedFrom(descending: seq<bool>, ranked: seq<Ranked>, rows: seq<Row>) {
    if descending == [] then |rows| == |ranked| && forall i :: 0 <= i < |rows| ==> rows[i] == ranked[i].row
    else exists sorted :: InOrder(descending, ranked, sorted) && Carry(sorted, rows)
  }

  ghost predicate InOrder(descending: seq<bool>, ranked: seq<Ranked>, sorted: seq<Ranked>) {
    && multiset(sorted) == multiset(ranked)
    && (forall keys, id :: AtCoordinate(sorted, keys, id) == AtCoordinate(ranked, keys, id))
    && ((forall i :: 0 <= i < |ranked| ==> |ranked[i].keys| == |descending|) ==> NeverBack(descending, sorted))
  }

  ghost predicate NeverBack(descending: seq<bool>, sorted: seq<Ranked>) {
    forall i, j :: 0 <= i < j < |sorted| ==>
      !RowBefore(descending, sorted[j].keys, sorted[j].row.id, sorted[i].keys, sorted[i].row.id)
  }

  ghost predicate Carry(sorted: seq<Ranked>, rows: seq<Row>) {
    |rows| == |sorted| && forall i :: 0 <= i < |rows| ==> rows[i] == sorted[i].row.(sort := sorted[i].keys)
  }

  lemma OrderedDelivers(descending: seq<bool>, ranked: seq<Ranked>)
    ensures OrderedFrom(descending, ranked, Ordered(descending, ranked))
  {
    if descending != [] {
      var order := SortOrder(descending);
      var sorted := SortRanked(order, ranked);
      forall keys, id
        ensures AtCoordinate(sorted, keys, id) == AtCoordinate(ranked, keys, id)
      {
        SortIsStable(order, ranked, keys, id);
      }
      if forall i :: 0 <= i < |ranked| ==> |ranked[i].keys| == |descending| {
        SortRankedSorts(order, ranked);
        SortedNeverBack(order, sorted);
      }
      assert InOrder(descending, ranked, sorted) && Carry(sorted, Ordered(descending, ranked));
    }
  }

  lemma SortedNeverBack(order: SortOrder, sorted: seq<Ranked>)
    requires SortedRanked(order, sorted)
    ensures NeverBack(order.descending, sorted)
  {
    forall i, j | 0 <= i < j < |sorted|
      ensures !RowBefore(order.descending, sorted[j].keys, sorted[j].row.id, sorted[i].keys, sorted[i].row.id)
    {
      var a, b := sorted[i], sorted[j];
      CompareIsTotal(order, a.keys, a.row.id, b.keys, b.row.id, b.keys, b.row.id);
      BeforeMeans(order, b.keys, b.row.id, a.keys, a.row.id);
    }
  }

  /** A projection ranks the rows of its source one by one, or its groups, orders what it
      ranked, and delivers what the bounds leave of that. */
  lemma ProjectionDelivers(lang: Lang, env: Env, fs: seq<Frame>, e: TypedExpr, scopes: seq<RowScope>)
      returns (ranked: seq<Ranked>, ordered: seq<Row>)
    requires e.WellFormed() && e.op.Project? && ProjectScopes(lang, env, fs, e, scopes).Ok?
    ensures e.op.key == [] ==> RankRows(lang, env, fs, e, scopes) == Ok(ranked) && |ranked| == |scopes|
    ensures e.op.key != [] ==> (
      && GroupKeys(lang, env, fs, e, scopes).Ok?
      && RankGroups(lang, env, fs, e, Grouped(scopes, GroupKeys(lang, env, fs, e, scopes).value)) == Ok(ranked))
    ensures OrderedFrom(e.op.descending, ranked, ordered)
    ensures Bounded(ordered, ProjectScopes(lang, env, fs, e, scopes).value, e.op.skip, e.op.limit)
  {
    if e.op.key == [] {
      ranked := RankRows(lang, env, fs, e, scopes).value;
      RankedEach(lang, env, fs, e, scopes);
    } else {
      ranked := RankGroups(lang, env, fs, e, Grouped(scopes, GroupKeys(lang, env, fs, e, scopes).value)).value;
    }
    ordered := Ordered(e.op.descending, ranked);
    OrderedDelivers(e.op.descending, ranked);
    BoundDelivers(ordered, e.op.skip, e.op.limit);
  }

  /** Every row of the source is ranked, where it stood, under its own identity and key. */
  lemma {:induction false} RankedEach(lang: Lang, env: Env, fs: seq<Frame>, e: TypedExpr, scopes: seq<RowScope>)
    requires e.WellFormed() && e.op.Project? && RankRows(lang, env, fs, e, scopes).Ok?
    ensures var ranked := RankRows(lang, env, fs, e, scopes).value;
      |ranked| == |scopes| && forall i :: 0 <= i < |ranked| ==> RankOne(lang, env, fs, e, scopes[i], None) == Ok(ranked[i])
    decreases |scopes|
  {
    if scopes != [] {
      RowsStep(lang, env, fs, e, scopes);
      RankedEach(lang, env, fs, e, scopes[1..]);
    }
  }

  // ---- projected rows ----------------------------------------------------

  /** What `name` means after the first `n` outputs: a name the row binds keeps its meaning,
      any other is the last of those outputs that has it. */
  ghost function MeaningAfter(start: map<string, Cell>, loop: set<string>, names: seq<string>, cells: seq<Cell>, n: nat, name: string)
    : Option<Cell>
    requires n <= |names| == |cells|
  {
    if n > 0 && names[n - 1] == name && name !in loop then Some(cells[n - 1])
    else if n > 0 then MeaningAfter(start, loop, names, cells, n - 1, name)
    else if name in start then Some(start[name]) else None
  }

  /** The frame in which output `n` is evaluated. */
  ghost predicate FrameAfter(f: Frame, start: Frame, loop: set<string>, names: seq<string>, cells: seq<Cell>, n: nat)
    requires n <= |names| == |cells|
  {
    && f.current == start.current
    && forall name :: (if name in f.bindings then Some(f.bindings[name]) else None)
                      == MeaningAfter(start.bindings, loop, names, cells, n, name)
  }

  /** Every output is worth its cell in such a frame. */
  ghost predicate InTurn(lang: Lang, env: Env, fs: seq<Frame>, e: TypedExpr, start: Frame, loop: set<string>, cells: seq<Cell>, n: nat)
    requires e.WellFormed() && e.op.Project? && n <= |e.op.outputs| == |cells|
  {
    exists f :: FrameAfter(f, start, loop, e.op.outputs, cells, n) &&
      if n < |cells| then Eval(lang, env, fs + [f], e.kids[1 + n]) == Ok(cells[n])
      else e.op.quantity ==> Eval(lang, env, fs + [f], e.kids[1 + n]).Ok?
  }

  ghost function Named(names: seq<string>): set<string> { set i | 0 <= i < |names| :: names[i] }

  lemma NamedNext(names: seq<string>, name: string)
    ensures Named(names + [name]) == Named(names) + {name}
  {
    assert forall i :: 0 <= i < |names| ==> (names + [name])[i] == names[i];
    assert (names + [name])[|names|] == name;
  }

  ghost predicate AllInTurn(lang: Lang, env: Env, fs: seq<Frame>, e: TypedExpr, start: Frame, loop: set<string>, cells: seq<Cell>, from: nat)
    requires e.WellFormed() && e.op.Project? && |e.op.outputs| == |cells|
  {
    forall n: nat :: from <= n <= |cells| ==> InTurn(lang, env, fs, e, start, loop, cells, n)
  }

  /** The row holds the last output of every name, and its quantity when it has one. */
  ghost predicate HoldsOutputs(op: Op, cells: seq<Cell>, held: map<string, Cell>)
    requires op.Project? && |cells| == |op.outputs|
  {
    && held.Keys == Named(op.outputs) + (if op.quantity then {"$quantity"} else {})
    && forall name :: name in held && !(op.quantity && name == "$quantity") ==>
         Some(held[name]) == MeaningAfter(map[], {}, op.outputs, cells, |cells|, name)
  }

  /** What has been computed when output `n` is reached in frame `f`. */
  ghost predicate SoFar(e: TypedExpr, start: Frame, loop: set<string>, f: Frame, done: seq<Cell>, held: map<string, Cell>)
    requires e.WellFormed() && e.op.Project? && |done| <= |e.op.outputs|
  {
    var names := e.op.outputs[..|done|];
    && FrameAfter(f, start, loop, names, done, |done|)
    && held.Keys == Named(names)
    && forall name :: name in held ==> Some(held[name]) == MeaningAfter(map[], {}, names, done, |done|, name)
  }

  lemma {:induction false} SameMeaning(start: map<string, Cell>, loop: set<string>, names: seq<string>, cells: seq<Cell>,
                                       more: seq<string>, others: seq<Cell>, n: nat, name: string)
    requires n <= |names| == |cells| && n <= |more| == |others| && names[..n] == more[..n] && cells[..n] == others[..n]
    ensures MeaningAfter(start, loop, names, cells, n, name) == MeaningAfter(start, loop, more, others, n, name)
  {
    if n > 0 {
      assert names[n - 1] == names[..n][n - 1] == more[n - 1] && cells[n - 1] == cells[..n][n - 1] == others[n - 1];
      assert names[..n - 1] == names[..n][..n - 1] == more[..n - 1];
      assert cells[..n - 1] == cells[..n][..n - 1] == others[..n - 1];
      SameMeaning(start, loop, names, cells, more, others, n - 1, name);
    }
  }

  lemma NextMeaning(start: map<string, Cell>, loop: set<string>, names: seq<string>, done: seq<Cell>, name: string, cell: Cell, x: string)
    requires |names| == |done|
    ensures MeaningAfter(start, loop, names + [name], done + [cell], |done| + 1, x)
         == if x == name && name !in loop then Some(cell) else MeaningAfter(start, loop, names, done, |done|, x)
  {
    SameMeaning(start, loop, names, done, names + [name], done + [cell], |done|, x);
  }

  lemma NextFrame(f: Frame, start: Frame, loop: set<string>, names: seq<string>, done: seq<Cell>, name: string, cell: Cell)
    requires |names| == |done| && FrameAfter(f, start, loop, names, done, |done|)
    ensures FrameAfter(BindOutput(f, loop, name, cell), start, loop, names + [name], done + [cell], |done| + 1)
  {
    forall x
      ensures MeaningAfter(start.bindings, loop, names + [name], done + [cell], |done| + 1, x)
           == if x == name && name !in loop then Some(cell) else MeaningAfter(start.bindings, loop, names, done, |done|, x)
    {
      NextMeaning(start.bindings, loop, names, done, name, cell, x);
    }
  }

  lemma NextSoFar(e: TypedExpr, start: Frame, loop: set<string>, f: Frame, done: seq<Cell>, held: map<string, Cell>, cell: Cell)
    requires e.WellFormed() && e.op.Project? && |done| < |e.op.outputs| && SoFar(e, start, loop, f, done, held)
    ensures var name := e.op.outputs[|done|];
      SoFar(e, start, loop, BindOutput(f, loop, name, cell), done + [cell], held[name := cell])
  {
    var n, name := |done|, e.op.outputs[|done|];
    var names := e.op.outputs[..n];
    assert e.op.outputs[..n + 1] == names + [name];
    NextFrame(f, start, loop, names, done, name, cell);
    NamedNext(names, name);
    var now := held[name := cell];
    forall x | x in now
      ensures Some(now[x]) == MeaningAfter(map[], {}, names + [name], done + [cell], n + 1, x)
    {
      NextMeaning(map[], {}, names, done, name, cell, x);
    }
  }

  lemma FrameOfAll(f: Frame, start: Frame, loop: set<string>, names: seq<string>, done: seq<Cell>, cells: seq<Cell>)
    requires |done| <= |names| == |cells| && done == cells[..|done|]
    requires FrameAfter(f, start, loop, names[..|done|], done, |done|)
    ensures FrameAfter(f, start, loop, names, cells, |done|)
  {
    forall name
      ensures MeaningAfter(start.bindings, loop, names[..|done|], done, |done|, name)
           == MeaningAfter(start.bindings, loop, names, cells, |done|, name)
    {
      SameMeaning(start.bindings, loop, names[..|done|], done, names, cells, |done|, name);
    }
  }

  lemma NextOutput(lang: Lang, env: Env, fs: seq<Frame>, f: Frame, loop: set<string>, e: TypedExpr, held: map<string, Cell>, n: nat)
      returns (cell: Cell)
    requires e.WellFormed() && e.op.Project? && n < |e.op.outputs| && Outputs(lang, env, fs, f, loop, e, n, false, held).Ok?
    ensures Eval(lang, env, fs + [f], e.kids[1 + n]) == Ok(cell)
    ensures Outputs(lang, env, fs, f, loop, e, n, false, held)
         == Outputs(lang, env, fs, BindOutput(f, loop, e.op.outputs[n], cell), loop, e, n + 1, false, held[e.op.outputs[n] := cell])
  {
    cell := Eval(lang, env, fs + [f], e.kids[1 + n]).value;
  }

  lemma LastHolds(lang: Lang, env: Env, fs: seq<Frame>, f: Frame, loop: set<string>, e: TypedExpr, held: map<string, Cell>,
                  start: Frame, cells: seq<Cell>)
    requires e.WellFormed() && e.op.Project? && |cells| == |e.op.outputs| && SoFar(e, start, loop, f, cells, held)
    requires Outputs(lang, env, fs, f, loop, e, |cells|, false, held).Ok?
    ensures InTurn(lang, env, fs, e, start, loop, cells, |cells|)
    ensures HoldsOutputs(e.op, cells, Outputs(lang, env, fs, f, loop, e, |cells|, false, held).value)
  {
    assert e.op.outputs[..|cells|] == e.op.outputs;
    assert FrameAfter(f, start, loop, e.op.outputs, cells, |cells|);
  }

  lemma {:induction false} OutputsFrom(lang: Lang, env: Env, fs: seq<Frame>, f: Frame, loop: set<string>, e: TypedExpr,
                                       held: map<string, Cell>, start: Frame, done: seq<Cell>) returns (cells: seq<Cell>)
    requires e.WellFormed() && e.op.Project? && |done| <= |e.op.outputs| && SoFar(e, start, loop, f, done, held)
    requires Outputs(lang, env, fs, f, loop, e, |done|, false, held).Ok?
    ensures |cells| == |e.op.outputs| && done == cells[..|done|]
    ensures AllInTurn(lang, env, fs, e, start, loop, cells, |done|)
    ensures HoldsOutputs(e.op, cells, Outputs(lang, env, fs, f, loop, e, |done|, false, held).value)
    decreases |e.op.outputs| - |done|
  {
    var n := |done|;
    if n == |e.op.outputs| {
      cells := done;
      LastHolds(lang, env, fs, f, loop, e, held, start, cells);
    } else {
      var cell := NextOutput(lang, env, fs, f, loop, e, held, n);
      var name := e.op.outputs[n];
      NextSoFar(e, start, loop, f, done, held, cell);
      cells := OutputsFrom(lang, env, fs, BindOutput(f, loop, name, cell), loop, e, held[name := cell], start, done + [cell]);
      FirstOfMore(cells, done, cell);
      FrameOfAll(f, start, loop, e.op.outputs, done, cells);
      OneMoreInTurn(lang, env, fs, e, start, loop, cells, n, f);
    }
  }

  lemma FirstOfMore(cells: seq<Cell>, done: seq<Cell>, cell: Cell)
    requires |done| < |cells| && done + [cell] == cells[..|done| + 1]
    ensures done == cells[..|done|] && cells[|done|] == cell
  {
    assert cells[..|done| + 1][..|done|] == cells[..|done|] && cells[|done|] == cells[..|done| + 1][|done|];
  }

  lemma OneMoreInTurn(lang: Lang, env: Env, fs: seq<Frame>, e: TypedExpr, start: Frame, loop: set<string>, cells: seq<Cell>, n: nat, f: Frame)
    requires e.WellFormed() && e.op.Project? && n < |e.op.outputs| == |cells| && AllInTurn(lang, env, fs, e, start, loop, cells, n + 1)
    requires FrameAfter(f, start, loop, e.op.outputs, cells, n) && Eval(lang, env, fs + [f], e.kids[1 + n]) == Ok(cells[n])
    ensures AllInTurn(lang, env, fs, e, start, loop, cells, n)
  {
    assert InTurn(lang, env, fs, e, start, loop, cells, n);
  }

  /** A projected row: its outputs in turn, each seeing the row as `.`, what the row binds,
      and the outputs before it, none of which hides a name the row binds. A plain row keeps
      the identity and the key of its source, a grouped one has those of its group. */
  lemma RowHolds(lang: Lang, env: Env, fs: seq<Frame>, e: TypedExpr, scope: RowScope, group: Option<Group>) returns (cells: seq<Cell>)
    requires e.WellFormed() && e.op.Project? && ProjectRow(lang, env, fs, e, scope, group).Ok?
    ensures var row, start := ProjectRow(lang, env, fs, e, scope, group).value, RowFrame(scope, group);
      && |cells| == |e.op.outputs| && HoldsOutputs(e.op, cells, row.cells) && row.sort == []
      && AllInTurn(lang, env, fs, e, start, start.bindings.Keys, cells, 0)
      && IdentifiedBy(lang, row, scope, group)
  {
    var groupCell := if group.Some? then Some(GroupCell(group.value)) else None;
    LoopNames(scope, groupCell);
    var start := ProjectFrame(scope, groupCell);
    assert SoFar(e, start, LoopBinds(scope, groupCell), start, [], map[]);
    cells := OutputsFrom(lang, env, fs, start, LoopBinds(scope, groupCell), e, map[], start, []);
  }

  predicate IdentifiedBy(lang: Lang, row: Row, scope: RowScope, group: Option<Group>) {
    match group
    case None => row.id == scope.identity && row.key == scope.row.key
    case Some(g) => row.key == (if |g.key| == 1 then g.key[0] else Composite(g.key)) && row.id == [RowIdPart.Key(lang.identity(row.key))]
  }

  /** The frame a projected row starts in. */
  ghost function RowFrame(scope: RowScope, group: Option<Group>): Frame {
    Frame(RowCell(scope.row), if group.Some? then Bindings(scope)["group" := Collection(RowsOf(group.value.members))] else Bindings(scope))
  }

  // ---- filters -----------------------------------------------------------

  /** The first row whose verdict fails decides; otherwise all verdicts are there. */
  ghost predicate VerdictsFail(lang: Lang, env: Env, fs: seq<Frame>, e: TypedExpr, scopes: seq<RowScope>, error: EvalError)
    requires e.WellFormed() && e.op.SelectBind?
  {
    exists i :: 0 <= i < |scopes| && VerdictOn(lang, env, fs, e, scopes[i]) == Err(error)
      && forall j :: 0 <= j < i ==> VerdictOn(lang, env, fs, e, scopes[j]).Ok?
  }

  ghost function KeptPlaces(lang: Lang, env: Env, fs: seq<Frame>, e: TypedExpr, scopes: seq<RowScope>): set<nat>
    requires e.WellFormed() && e.op.SelectBind?
  {
    set i: nat | i < |scopes| && VerdictOn(lang, env, fs, e, scopes[i]) == Ok(Scalar(Bool(true)))
  }

  function NamedAll(name: string, scopes: seq<RowScope>): seq<RowScope> {
    seq(|scopes|, i requires 0 <= i < |scopes| => KeptScope(name, scopes[i]))
  }

  /** A filter keeps exactly the rows for which its condition is true, in order and each
      bound to its name; or it fails as its first failing row does. */
  lemma {:induction false} FilterKeeps(lang: Lang, env: Env, fs: seq<Frame>, e: TypedExpr, scopes: seq<RowScope>)
    requires e.WellFormed() && e.op.SelectBind?
    ensures match BindScopes(lang, env, fs, e, scopes)
      case Ok(kept) => Picks(NamedAll(e.op.name, scopes), kept, KeptPlaces(lang, env, fs, e, scopes))
      case Err(error) => VerdictsFail(lang, env, fs, e, scopes, error)
    decreases |scopes|
  {
    var where := KeptPlaces(lang, env, fs, e, scopes);
    if scopes == [] {
      PicksNone<RowScope>(where);
      assert NamedAll(e.op.name, scopes) == [];
    } else {
      var verdict, rest := VerdictOn(lang, env, fs, e, scopes[0]), BindScopes(lang, env, fs, e, scopes[1..]);
      ScopesStep(lang, env, fs, e, scopes);
      FilterKeeps(lang, env, fs, e, scopes[1..]);
      if verdict.Ok? && rest.Ok? {
        ShiftedHas(where);
        assert Shifted(where) == KeptPlaces(lang, env, fs, e, scopes[1..]);
        PicksFirst(KeptScope(e.op.name, scopes[0]), NamedAll(e.op.name, scopes[1..]), rest.value, where);
        assert NamedAll(e.op.name, scopes) == [KeptScope(e.op.name, scopes[0])] + NamedAll(e.op.name, scopes[1..]);
      } else if verdict.Ok? {
        LaterFails(lang, env, fs, e, scopes, rest.error);
      }
    }
  }

  lemma LaterFails(lang: Lang, env: Env, fs: seq<Frame>, e: TypedExpr, scopes: seq<RowScope>, error: EvalError)
    requires e.WellFormed() && e.op.SelectBind? && scopes != [] && VerdictOn(lang, env, fs, e, scopes[0]).Ok?
    requires VerdictsFail(lang, env, fs, e, scopes[1..], error)
    ensures VerdictsFail(lang, env, fs, e, scopes, error)
  {
    var i :| 0 <= i < |scopes[1..]| && VerdictOn(lang, env, fs, e, scopes[1..][i]) == Err(error)
      && forall j :: 0 <= j < i ==> VerdictOn(lang, env, fs, e, scopes[1..][j]).Ok?;
    forall j | 0 <= j < i + 1
      ensures VerdictOn(lang, env, fs, e, scopes[j]).Ok?
    {
      if j > 0 { assert scopes[j] == scopes[1..][j - 1]; }
    }
    assert scopes[i + 1] == scopes[1..][i];
  }

  // ---- set combinators ---------------------------------------------------

  ghost predicate Carries(scopes: seq<RowScope>, id: RowId) {
    exists i :: 0 <= i < |scopes| && scopes[i].identity == id
  }

  /** The places of the rows whose identity the other stream has, or has not. */
  ghost function Matching(scopes: seq<RowScope>, other: seq<RowScope>, inside: bool): set<nat> {
    set i: nat | i < |scopes| && (Carries(other, scopes[i].identity) == inside)
  }

  /** The places of the first row of each identity that `other` does not have. */
  ghost function Newcomers(scopes: seq<RowScope>, other: seq<RowScope>): set<nat> {
    set i: nat | i < |scopes| && !Carries(other, scopes[i].identity) && !Carries(scopes[..i], scopes[i].identity)
  }

  lemma {:induction false} KeepPicks(scopes: seq<RowScope>, ids: set<RowId>, inside: bool, where: set<nat>)
    requires forall i: nat :: i in where <==> i < |scopes| && ((scopes[i].identity in ids) == inside)
    ensures Picks(RowsOf(scopes), Keep(scopes, ids, inside), where)
    decreases |scopes|
  {
    if scopes == [] {
      PicksNone<Row>(where);
      assert RowsOf(scopes) == [];
    } else {
      ShiftedHas(where);
      KeepPicks(scopes[1..], ids, inside, Shifted(where));
      PicksFirst(scopes[0].row, RowsOf(scopes[1..]), Keep(scopes[1..], ids, inside), where);
      assert RowsOf(scopes) == [scopes[0].row] + RowsOf(scopes[1..]);
    }
  }

  ghost predicate NewAt(scopes: seq<RowScope>, seen: set<RowId>, i: nat) {
    i < |scopes| && scopes[i].identity !in seen && !Carries(scopes[..i], scopes[i].identity)
  }

  lemma CarriesFirst(scope: RowScope, rest: seq<RowScope>, id: RowId)
    ensures Carries([scope] + rest, id) <==> scope.identity == id || Carries(rest, id)
  {
    assert ([scope] + rest)[0] == scope;
    forall i | 0 <= i < |rest|
      ensures ([scope] + rest)[i + 1] == rest[i]
    {
    }
  }

  lemma NewLater(scopes: seq<RowScope>, seen: set<RowId>, i: nat)
    requires scopes != []
    ensures NewAt(scopes, seen, i + 1) <==> NewAt(scopes[1..], seen + {scopes[0].identity}, i)
  {
    if i + 1 < |scopes| {
      assert scopes[1..][i] == scopes[i + 1];
      assert scopes[..i + 1] == [scopes[0]] + scopes[1..][..i];
      CarriesFirst(scopes[0], scopes[1..][..i], scopes[i + 1].identity);
    }
  }

  lemma {:induction false} UnseenPicks(scopes: seq<RowScope>, seen: set<RowId>, where: set<nat>)
    requires forall i: nat :: i in where <==> NewAt(scopes, seen, i)
    ensures Picks(RowsOf(scopes), Unseen(scopes, seen), where)
    decreases |scopes|
  {
    if scopes == [] {
      PicksNone<Row>(where);
      assert RowsOf(scopes) == [];
    } else {
      var next := if scopes[0].identity in seen then seen else seen + {scopes[0].identity};
      assert seen + {scopes[0].identity} == next;
      ShiftedHas(where);
      forall i: nat
        ensures i in Shifted(where) <==> NewAt(scopes[1..], next, i)
      {
        NewLater(scopes, seen, i);
      }
      UnseenPicks(scopes[1..], next, Shifted(where));
      assert NewAt(scopes, seen, 0) <==> scopes[0].identity !in seen;
      PicksFirst(scopes[0].row, RowsOf(scopes[1..]), Unseen(scopes[1..], next), where);
      assert Unseen(scopes, seen) == (if 0 in where then [scopes[0].row] else []) + Unseen(scopes[1..], next);
      assert RowsOf(scopes) == [scopes[0].row] + RowsOf(scopes[1..]);
    }
  }

  lemma IdsCarry(scopes: seq<RowScope>, id: RowId)
    ensures id in Ids(scopes) <==> Carries(scopes, id)
  {
  }

  /** Union appends to the left rows the first right row of every identity the left has not;
      intersection and difference pick the left rows whose identity the right has, or has
      not. */
  lemma CombinesByIdentity(left: seq<RowScope>, right: seq<RowScope>)
    ensures Picks(RowsOf(left), CombineRows(Intersect, left, right), Matching(left, right, true))
    ensures Picks(RowsOf(left), CombineRows(Difference, left, right), Matching(left, right, false))
    ensures exists more :: (
      CombineRows(Union, left, right) == RowsOf(left) + more && Picks(RowsOf(right), more, Newcomers(right, left)))
  {
    forall id
      ensures id in Ids(left) <==> Carries(left, id)
      ensures id in Ids(right) <==> Carries(right, id)
    {
      IdsCarry(left, id);
      IdsCarry(right, id);
    }
    KeepPicks(left, Ids(right), true, Matching(left, right, true));
    KeepPicks(left, Ids(right), false, Matching(left, right, false));
    UnseenPicks(right, Ids(left), Newcomers(right, left));
  }

  // ---- groups ------------------------------------------------------------

  /** The rows whose group key is `key`, in stream order. */
  function Having(scopes: seq<RowScope>, keys: seq<seq<Value>>, key: seq<Value>): seq<RowScope>
    requires |scopes| == |keys|
  {
    if scopes == [] then []
    else
      Having(scopes[..|scopes| - 1], keys[..|keys| - 1], key)
      + (if keys[|keys| - 1] == key then [scopes[|scopes| - 1]] else [])
  }

  function MembersOf(groups: seq<Group>, key: seq<Value>): seq<RowScope> {
    if groups == [] then [] else if groups[0].key == key then groups[0].members else MembersOf(groups[1..], key)
  }

  /** One group a key, the keys ascending, none empty. */
  ghost predicate GroupsAscend(groups: seq<Group>) {
    && (forall i, j :: 0 <= i < j < |groups| ==> CmpValues(groups[i].key, groups[j].key) == Less)
    && forall i :: 0 <= i < |groups| ==> groups[i].members != []
  }

  /** Every key leads. */
  ghost predicate KeysAfter(key: seq<Value>, groups: seq<Group>) {
    forall i :: 0 <= i < |groups| ==> CmpValues(key, groups[i].key) == Less
  }

  lemma AfterIsAbsent(key: seq<Value>, groups: seq<Group>)
    requires KeysAfter(key, groups)
    ensures MembersOf(groups, key) == []
  {
    if groups != [] {
      ValuesStrict(key, groups[0].key);
      AfterIsAbsent(key, groups[1..]);
    }
  }

  lemma AfterAll(key: seq<Value>, groups: seq<Group>)
    requires GroupsAscend(groups) && groups != [] && CmpValues(key, groups[0].key) == Less
    ensures KeysAfter(key, groups)
  {
    forall i | 0 <= i < |groups|
      ensures CmpValues(key, groups[i].key) == Less
    {
      if i > 0 { ValuesTransitive(key, groups[0].key, groups[i].key); }
    }
  }

  lemma MembersOfFirst(g: Group, rest: seq<Group>, key: seq<Value>)
    ensures MembersOf([g] + rest, key) == if g.key == key then g.members else MembersOf(rest, key)
  {
    assert ([g] + rest)[1..] == rest;
  }

  lemma LedBy(g: Group, rest: seq<Group>)
    requires GroupsAscend(rest) && KeysAfter(g.key, rest) && g.members != []
    ensures GroupsAscend([g] + rest)
  {
  }

  /** Adding a row appends it to the members of its key, and to no others. */
  lemma {:induction false} AddedToGroup(groups: seq<Group>, key: seq<Value>, scope: RowScope, other: seq<Value>)
    requires GroupsAscend(groups)
    ensures MembersOf(AddToGroup(groups, key, scope), other)
         == MembersOf(groups, other) + if key == other then [scope] else []
    decreases |groups|
  {
    if groups == [] {
      MembersOfFirst(Group(key, [scope]), [], other);
      assert [Group(key, [scope])] + [] == [Group(key, [scope])];
    } else {
      var g, rest := groups[0], groups[1..];
      assert groups == [g] + rest;
      ValuesStrict(key, g.key);
      MembersOfFirst(g, rest, other);
      match CmpValues(key, g.key)
      case Less =>
        MembersOfFirst(Group(key, [scope]), groups, other);
        AfterAll(key, groups);
        AfterIsAbsent(key, groups);
      case Equal => MembersOfFirst(Group(key, g.members + [scope]), rest, other);
      case Greater =>
        AddedToGroup(rest, key, scope, other);
        MembersOfFirst(g, AddToGroup(rest, key, scope), other);
    }
  }

  lemma {:induction false} AddKeepsAfter(lead: seq<Value>, groups: seq<Group>, key: seq<Value>, scope: RowScope)
    requires KeysAfter(lead, groups) && CmpValues(lead, key) == Less
    ensures KeysAfter(lead, AddToGroup(groups, key, scope))
    decreases |groups|
  {
    if groups != [] && CmpValues(key, groups[0].key) == Greater { AddKeepsAfter(lead, groups[1..], key, scope); }
  }

  lemma {:induction false} AddKeepsAscending(groups: seq<Group>, key: seq<Value>, scope: RowScope)
    requires GroupsAscend(groups)
    ensures GroupsAscend(AddToGroup(groups, key, scope))
    decreases |groups|
  {
    if groups != [] {
      var g, rest := groups[0], groups[1..];
      ValuesStrict(key, g.key);
      match CmpValues(key, g.key)
      case Less =>
        AfterAll(key, groups);
        LedBy(Group(key, [scope]), groups);
      case Equal => LedBy(Group(key, g.members + [scope]), rest);
      case Greater =>
        AddKeepsAscending(rest, key, scope);
        AddKeepsAfter(g.key, rest, key, scope);
        LedBy(g, AddToGroup(rest, key, scope));
    }
  }

  /** Grouping sorts the rows into one group a key, keys ascending, and every group holds
      exactly the rows of its key in stream order. */
  lemma {:induction false} GroupsPartition(scopes: seq<RowScope>, keys: seq<seq<Value>>, key: seq<Value>)
    requires |scopes| == |keys|
    ensures GroupsAscend(Grouped(scopes, keys))
    ensures MembersOf(Grouped(scopes, keys), key) == Having(scopes, keys, key)
    decreases |scopes|
  {
    if scopes != [] {
      var n := |scopes| - 1;
      GroupsPartition(scopes[..n], keys[..n], key);
      AddedToGroup(Grouped(scopes[..n], keys[..n]), keys[n], scopes[n], key);
      AddKeepsAscending(Grouped(scopes[..n], keys[..n]), keys[n], scopes[n]);
      assert Having(scopes, keys, key) == Having(scopes[..n], keys[..n], key) + if keys[n] == key then [scopes[n]] else [];
    }
  }

  // ---- group keys --------------------------------------------------------

  /** `values` has the key outputs, all of them scalars, and no others. */
  ghost predicate KeyOutputs(op: Op, values: map<string, Cell>)
    requires op.Project?
  {
    && values.Keys == (set i | 0 <= i < |op.outputs| && op.outputs[i] in op.key :: op.outputs[i])
    && forall name :: name in values ==> values[name].Scalar?
  }

  /** The key is their values in the declared order, whatever order they were computed in. */
  ghost predicate InKeyOrder(names: seq<string>, values: map<string, Cell>, key: seq<Value>) {
    |key| == |names| && forall i :: 0 <= i < |names| ==> names[i] in values && values[names[i]] == Scalar(key[i])
  }

  lemma {:induction false} KeyIsInOrder(names: seq<string>, values: map<string, Cell>)
    requires forall i :: 0 <= i < |names| ==> names[i] in values && values[names[i]].Scalar?
    ensures InKeyOrder(names, values, GroupKeyOf(names, values))
  {
    if names != [] { KeyIsInOrder(names[1..], values); }
  }

  lemma {:induction false} OnlyKeyOutputs(lang: Lang, env: Env, fs: seq<Frame>, f: Frame, loop: set<string>, e: TypedExpr, i: nat,
                                          held: map<string, Cell>)
    requires e.WellFormed() && e.op.Project? && i <= |e.op.outputs| && Outputs(lang, env, fs, f, loop, e, i, true, held).Ok?
    requires forall name :: name in held ==> held[name].Scalar?
    ensures var values := Outputs(lang, env, fs, f, loop, e, i, true, held).value;
      && values.Keys == held.Keys + (set j | i <= j < |e.op.outputs| && e.op.outputs[j] in e.op.key :: e.op.outputs[j])
      && forall name :: name in values ==> values[name].Scalar?
    decreases |e.op.outputs| - i
  {
    if i < |e.op.outputs| {
      var name := e.op.outputs[i];
      if name in e.op.key {
        var cell := Eval(lang, env, fs + [f], e.kids[1 + i]).value;
        OnlyKeyOutputs(lang, env, fs, BindOutput(f, loop, name, cell), loop, e, i + 1, held[name := cell]);
      } else {
        OnlyKeyOutputs(lang, env, fs, f, loop, e, i + 1, held);
      }
    }
  }

  ghost predicate KeyOf(lang: Lang, env: Env, fs: seq<Frame>, e: TypedExpr, scope: RowScope, key: seq<Value>)
    requires e.WellFormed() && e.op.Project?
  {
    exists values :: (
      && KeyOutputs(e.op, values) && InKeyOrder(e.op.key, values, key)
      && Outputs(lang, env, fs, RowFrame(scope, None), BindNames(scope.binds), e, 0, true, map[]) == Ok(values))
  }

  lemma FirstKeyReads(lang: Lang, env: Env, fs: seq<Frame>, e: TypedExpr, scopes: seq<RowScope>) returns (key: seq<Value>)
    requires e.WellFormed() && e.op.Project? && scopes != [] && GroupKeys(lang, env, fs, e, scopes).Ok?
    requires forall i :: 0 <= i < |e.op.key| ==> e.op.key[i] in e.op.outputs
    ensures KeyOf(lang, env, fs, e, scopes[0], key) && GroupKeys(lang, env, fs, e, scopes[1..]).Ok?
    ensures GroupKeys(lang, env, fs, e, scopes).value == [key] + GroupKeys(lang, env, fs, e, scopes[1..]).value
  {
    var start, loop := ProjectFrame(scopes[0], None), LoopBinds(scopes[0], None);
    var values := Outputs(lang, env, fs, start, loop, e, 0, true, map[]).value;
    OnlyKeyOutputs(lang, env, fs, start, loop, e, 0, map[]);
    forall i | 0 <= i < |e.op.key|
      ensures e.op.key[i] in values
    {
      var j :| 0 <= j < |e.op.outputs| && e.op.outputs[j] == e.op.key[i];
    }
    KeyIsInOrder(e.op.key, values);
    key := GroupKeyOf(e.op.key, values);
    assert start == RowFrame(scopes[0], None) && loop == BindNames(scopes[0].binds);
    assert KeyOutputs(e.op, values);
  }

  ghost predicate KeysOf(lang: Lang, env: Env, fs: seq<Frame>, e: TypedExpr, scopes: seq<RowScope>, keys: seq<seq<Value>>)
    requires e.WellFormed() && e.op.Project?
  {
    |keys| == |scopes| && forall i :: 0 <= i < |scopes| ==> KeyOf(lang, env, fs, e, scopes[i], keys[i])
  }

  lemma KeysAhead(lang: Lang, env: Env, fs: seq<Frame>, e: TypedExpr, scopes: seq<RowScope>, key: seq<Value>, rest: seq<seq<Value>>)
    requires e.WellFormed() && e.op.Project? && scopes != []
    requires KeyOf(lang, env, fs, e, scopes[0], key) && KeysOf(lang, env, fs, e, scopes[1..], rest)
    ensures KeysOf(lang, env, fs, e, scopes, [key] + rest)
  {
    forall i | 0 < i < |scopes|
      ensures KeyOf(lang, env, fs, e, scopes[i], ([key] + rest)[i])
    {
      assert KeyOf(lang, env, fs, e, scopes[1..][i - 1], rest[i - 1]);
    }
  }

  /** Where every declared key part is an output, each row's group key is made of exactly the
      key outputs, evaluated over that row, in the declared order. */
  lemma {:induction false} GroupKeysRead(lang: Lang, env: Env, fs: seq<Frame>, e: TypedExpr, scopes: seq<RowScope>)
    requires e.WellFormed() && e.op.Project? && GroupKeys(lang, env, fs, e, scopes).Ok?
    requires forall i :: 0 <= i < |e.op.key| ==> e.op.key[i] in e.op.outputs
    ensures KeysOf(lang, env, fs, e, scopes, GroupKeys(lang, env, fs, e, scopes).value)
    decreases |scopes|
  {
    if scopes != [] {
      var key := FirstKeyReads(lang, env, fs, e, scopes);
      GroupKeysRead(lang, env, fs, e, scopes[1..]);
      KeysAhead(lang, env, fs, e, scopes, key, GroupKeys(lang, env, fs, e, scopes[1..]).value);
    }
  }

  // ---- recovered rows ----------------------------------------------------

  /** A base made of filters and projections over a collection, the collection selected from
      by key at most before them. */
  ghost predicate Narrows(e: TypedExpr)
    requires e.WellFormed()
  {
    if e.op.SelectBind? || e.op.Project? then Narrows(e.kids[0])
    else if e.op.SelectKeys? then e.kids[0].op.Field?
    else e.op.Field?
  }

  /** The collection it ranges over. */
  ghost function Ranged(e: TypedExpr): (r: TypedExpr)
    requires e.WellFormed() && Narrows(e)
    ensures r.WellFormed() && r.op.Field?
  {
    if e.op.Field? then e else Ranged(e.kids[0])
  }

  /** Over the rows that its collection holds, the rebase of a temporal base is the base as a
      view: recovery changes the rows a base ranges over and nothing else. */
  lemma {:induction false} RebaseIsTheView(lang: Lang, env: Env, fs: seq<Frame>, e: TypedExpr, rows: seq<Row>)
    requires e.WellFormed() && Narrows(e) && Eval(lang, env, fs, Ranged(e)) == Ok(Collection(rows))
    ensures Rebase(lang, env, fs, e, rows) == EvalView(lang, env, fs, e)
  {
    if e.op.SelectBind? || e.op.Project? {
      RebaseIsTheView(lang, env, fs, e.kids[0], rows);
    } else if e.op.SelectKeys? {
      assert RowsOf(BareAll(rows)) == rows;
      assert Rebase(lang, env, fs, e.kids[0], rows) == Ok(BareAll(rows));
    }
  }

  // ---- traversal ---------------------------------------------------------

  ghost function InnerRows(outer: seq<RowScope>, member: string, o: nat): seq<Row> {
    if o < |outer| && member in outer[o].row.cells && outer[o].row.cells[member].Collection?
    then outer[o].row.cells[member].rows else []
  }

  /** The row is the `i`-th inner row of the `o`-th outer one. */
  ghost predicate Stems(outer: seq<RowScope>, name: Option<string>, member: string, scope: RowScope, o: nat, i: nat) {
    i < |InnerRows(outer, member, o)| && o < |outer| && scope == InnerScope(outer[o], name, member, InnerRows(outer, member, o)[i])
  }

  /** And it stands where the rows of the outer ones before it leave it. */
  ghost predicate Stands(outer: seq<RowScope>, name: Option<string>, member: string, rows: seq<RowScope>, o: nat, i: nat)
    requires o < |outer|
  {
    Before(outer, member, o) + i < |rows| && Stems(outer, name, member, rows[Before(outer, member, o) + i], o, i)
  }

  ghost predicate AllStand(outer: seq<RowScope>, name: Option<string>, member: string, rows: seq<RowScope>) {
    && (forall o: nat, i: nat :: o < |outer| && i < |InnerRows(outer, member, o)| ==> Stands(outer, name, member, rows, o, i))
    && |rows| == Before(outer, member, |outer|)
  }

  ghost predicate NoneBlocks(outer: seq<RowScope>, member: string) {
    forall o :: 0 <= o < |outer| ==> !Blocks(outer[o], member)
  }

  /** The outer row holds something else than a collection there. */
  predicate Blocks(scope: RowScope, member: string) {
    member in scope.row.cells && !scope.row.cells[member].Collection?
  }

  /** How many rows the first `n` outer rows contribute. */
  ghost function Before(outer: seq<RowScope>, member: string, n: nat): nat
    requires n <= |outer|
  {
    if n == 0 then 0 else Before(outer, member, n - 1) + |InnerRows(outer, member, n - 1)|
  }

  lemma {:induction false} BeforeLater(outer: seq<RowScope>, member: string, n: nat)
    requires 0 < |outer| && n < |outer|
    ensures Before(outer, member, n + 1) == |InnerRows(outer, member, 0)| + Before(outer[1..], member, n)
  {
    if n > 0 {
      BeforeLater(outer, member, n - 1);
      assert outer[1..][n - 1] == outer[n];
    }
  }

  /** The traversal lists the inner rows of each outer row in turn, each under its own
      bindings and joined identity, skipping outer rows without the member; it fails exactly
      when one of them holds something else than a collection there. */
  lemma {:induction false} TraversalLists(outer: seq<RowScope>, name: Option<string>, member: string)
    ensures match Flatten(outer, name, member)
      case Ok(rows) => AllStand(outer, name, member, rows) && NoneBlocks(outer, member)
      case Err(error) => error == ShapeMismatch(ExpectedNestedCollection) && !NoneBlocks(outer, member)
    decreases |outer|
  {
    if outer != [] {
      TraversalLists(outer[1..], name, member);
      var rest := Flatten(outer[1..], name, member);
      BlocksLater(outer, member);
      if !Blocks(outer[0], member) && rest.Ok? {
        FlattenStep(outer, name, member, rest.value);
        TraversalStep(outer, name, member, rest.value);
      }
    }
  }

  lemma BlocksLater(outer: seq<RowScope>, member: string)
    requires outer != []
    ensures NoneBlocks(outer, member) <==> !Blocks(outer[0], member) && NoneBlocks(outer[1..], member)
  {
    if NoneBlocks(outer[1..], member) {
      forall o | 0 < o < |outer|
        ensures !Blocks(outer[o], member)
      {
        assert outer[o] == outer[1..][o - 1];
      }
    }
  }

  lemma FlattenStep(outer: seq<RowScope>, name: Option<string>, member: string, rest: seq<RowScope>)
    requires outer != [] && !Blocks(outer[0], member) && Flatten(outer[1..], name, member) == Ok(rest)
    ensures Flatten(outer, name, member) == Ok(Inner(outer[0], name, member, InnerRows(outer, member, 0)) + rest)
  {
    assert [] + rest == rest && Inner(outer[0], name, member, []) == [];
  }

  lemma FirstStands(outer: seq<RowScope>, name: Option<string>, member: string, rest: seq<RowScope>, i: nat)
    requires outer != [] && i < |InnerRows(outer, member, 0)|
    ensures Stands(outer, name, member, Inner(outer[0], name, member, InnerRows(outer, member, 0)) + rest, 0, i)
  {
    var first := Inner(outer[0], name, member, InnerRows(outer, member, 0));
    assert (first + rest)[i] == first[i] == InnerScope(outer[0], name, member, InnerRows(outer, member, 0)[i]);
  }

  lemma LaterStands(outer: seq<RowScope>, name: Option<string>, member: string, first: seq<RowScope>, rest: seq<RowScope>, o: nat, i: nat)
    requires 0 < o < |outer| && |first| == |InnerRows(outer, member, 0)| && Stands(outer[1..], name, member, rest, o - 1, i)
    ensures Stands(outer, name, member, first + rest, o, i)
  {
    BeforeLater(outer, member, o - 1);
    assert outer[1..][o - 1] == outer[o] && InnerRows(outer, member, o) == InnerRows(outer[1..], member, o - 1);
    assert (first + rest)[Before(outer, member, o) + i] == rest[Before(outer[1..], member, o - 1) + i];
  }

  lemma TraversalStep(outer: seq<RowScope>, name: Option<string>, member: string, rest: seq<RowScope>)
    requires outer != [] && AllStand(outer[1..], name, member, rest)
    ensures AllStand(outer, name, member, Inner(outer[0], name, member, InnerRows(outer, member, 0)) + rest)
  {
    var first := Inner(outer[0], name, member, InnerRows(outer, member, 0));
    BeforeLater(outer, member, |outer| - 1);
    forall o: nat, i: nat | o < |outer| && i < |InnerRows(outer, member, o)|
      ensures Stands(outer, name, member, first + rest, o, i)
    {
      if o == 0 {
        FirstStands(outer, name, member, rest, i);
      } else {
        assert outer[1..][o - 1] == outer[o];
        assert Stands(outer[1..], name, member, rest, o - 1, i);
        LaterStands(outer, name, member, first, rest, o, i);
      }
    }
  }

  // ---- selection by key --------------------------------------------------

  /** The keys that are looked up, in turn: a set stands for its members. */
  function Sought(wanted: seq<Value>): seq<Value> {
    if wanted == [] then []
    else (if wanted[0].Set? then wanted[0].members else [wanted[0]]) + Sought(wanted[1..])
  }

  ghost function MatchingKeys(lang: Lang, rows: seq<Row>, key: Value): set<nat> {
    set i: nat | i < |rows| && lang.identity(rows[i].key) == lang.identity(lang.identity(key))
  }

  lemma {:induction false} WithKeyPicks(lang: Lang, rows: seq<Row>, wanted: Value, where: set<nat>)
    requires forall i: nat :: i in where <==> i < |rows| && lang.identity(rows[i].key) == lang.identity(wanted)
    ensures Picks(rows, WithKey(lang, rows, wanted), where)
    decreases |rows|
  {
    if rows == [] {
      PicksNone<Row>(where);
    } else {
      ShiftedHas(where);
      WithKeyPicks(lang, rows[1..], wanted, Shifted(where));
      PicksFirst(rows[0], rows[1..], WithKey(lang, rows[1..], wanted), where);
      assert [rows[0]] + rows[1..] == rows;
    }
  }

  function Concat(parts: seq<seq<Row>>): seq<Row> {
    if parts == [] then [] else parts[0] + Concat(parts[1..])
  }

  lemma {:induction false} ConcatJoins(a: seq<seq<Row>>, b: seq<seq<Row>>)
    ensures Concat(a + b) == Concat(a) + Concat(b)
    decreases |a|
  {
    if a == [] {
      assert a + b == b;
    } else {
      assert (a + b)[1..] == a[1..] + b;
      ConcatJoins(a[1..], b);
    }
  }

  /** What each of the keys selects. */
  function Parts(lang: Lang, rows: seq<Row>, keys: seq<Value>): seq<seq<Row>> {
    seq(|keys|, i requires 0 <= i < |keys| => WithKey(lang, rows, lang.identity(keys[i])))
  }

  lemma {:induction false} EachSelects(lang: Lang, rows: seq<Row>, members: seq<Value>)
    ensures WithEach(lang, rows, members) == Concat(Parts(lang, rows, members))
    decreases |members|
  {
    if members != [] {
      EachSelects(lang, rows, members[1..]);
      assert Parts(lang, rows, members)[1..] == Parts(lang, rows, members[1..]);
    }
  }

  lemma PartsJoin(lang: Lang, rows: seq<Row>, a: seq<Value>, b: seq<Value>)
    ensures Concat(Parts(lang, rows, a + b)) == WithEach(lang, rows, a) + Concat(Parts(lang, rows, b))
  {
    EachSelects(lang, rows, a);
    ConcatJoins(Parts(lang, rows, a), Parts(lang, rows, b));
    assert Parts(lang, rows, a + b) == Parts(lang, rows, a) + Parts(lang, rows, b);
  }

  lemma OneSought(lang: Lang, rows: seq<Row>, key: Value)
    ensures WithEach(lang, rows, [key]) == WithKey(lang, rows, lang.identity(key))
  {
    assert [key][1..] == [];
    assert WithEach(lang, rows, []) == [];
  }

  lemma {:induction false} KeysConcat(lang: Lang, rows: seq<Row>, wanted: seq<Value>)
    ensures WithKeys(lang, rows, wanted) == Concat(Parts(lang, rows, Sought(wanted)))
    decreases |wanted|
  {
    if wanted != [] {
      KeysConcat(lang, rows, wanted[1..]);
      PartsJoin(lang, rows, if wanted[0].Set? then wanted[0].members else [wanted[0]], Sought(wanted[1..]));
      if !wanted[0].Set? { OneSought(lang, rows, wanted[0]); }
    }
  }

  ghost predicate PickEach(lang: Lang, rows: seq<Row>, keys: seq<Value>, parts: seq<seq<Row>>) {
    |parts| == |keys| && forall i :: 0 <= i < |parts| ==> Picks(rows, parts[i], MatchingKeys(lang, rows, keys[i]))
  }

  /** A key selection delivers, for each sought key in turn, the rows of that key in order. */
  lemma KeysSelect(lang: Lang, rows: seq<Row>, wanted: seq<Value>)
    ensures exists parts :: Concat(parts) == WithKeys(lang, rows, wanted) && PickEach(lang, rows, Sought(wanted), parts)
  {
    var keys := Sought(wanted);
    var parts := Parts(lang, rows, keys);
    KeysConcat(lang, rows, wanted);
    forall i | 0 <= i < |parts|
      ensures Picks(rows, parts[i], MatchingKeys(lang, rows, keys[i]))
    {
      WithKeyPicks(lang, rows, lang.identity(keys[i]), MatchingKeys(lang, rows, keys[i]));
    }
  }

  // ---- aggregated values -------------------------------------------------

  predicate Present(scope: RowScope, field: string) {
    field in scope.row.cells && scope.row.cells[field] != Scalar(NoneValue)
  }

  ghost function PresentPlaces(scopes: seq<RowScope>, field: string): set<nat> {
    set i: nat | i < |scopes| && Present(scopes[i], field)
  }

  function CellsAt(scopes: seq<RowScope>, field: string): seq<Cell> {
    seq(|scopes|, i requires 0 <= i < |scopes| =>
      if field in scopes[i].row.cells then scopes[i].row.cells[field] else Scalar(NoneValue))
  }

  function AsCells(values: seq<Value>): seq<Cell> { seq(|values|, i requires 0 <= i < |values| => Scalar(values[i])) }

  predicate Unfolded(scope: RowScope, field: string) {
    Present(scope, field) && !scope.row.cells[field].Scalar?
  }

  ghost predicate SomeUnfolded(scopes: seq<RowScope>, field: string) {
    exists i :: 0 <= i < |scopes| && Unfolded(scopes[i], field)
  }

  /** An aggregate folds the present values, in order, and fails exactly when one of them is
      not a scalar. */
  lemma {:induction false} AggregatesPresent(scopes: seq<RowScope>, field: string)
    ensures match FieldValues(scopes, field)
      case Ok(values) => Picks(CellsAt(scopes, field), AsCells(values), PresentPlaces(scopes, field))
      case Err(error) => error == ShapeMismatch(ExpectedScalarField) && SomeUnfolded(scopes, field)
    decreases |scopes|
  {
    var where := PresentPlaces(scopes, field);
    if scopes == [] {
      PicksNone<Cell>(where);
      assert CellsAt(scopes, field) == [] && AsCells([]) == [];
    } else {
      AggregatesPresent(scopes[1..], field);
      var r, rest := FieldValues(scopes, field), FieldValues(scopes[1..], field);
      if rest.Ok? && r.Ok? {
        ShiftedHas(where);
        assert Shifted(where) == PresentPlaces(scopes[1..], field);
        PicksFirst(CellsAt(scopes, field)[0], CellsAt(scopes[1..], field), AsCells(rest.value), where);
        assert CellsAt(scopes, field) == [CellsAt(scopes, field)[0]] + CellsAt(scopes[1..], field);
        assert AsCells(r.value) == (if 0 in where then [CellsAt(scopes, field)[0]] else []) + AsCells(rest.value);
      } else if !Unfolded(scopes[0], field) {
        var i :| 0 <= i < |scopes[1..]| && Unfolded(scopes[1..][i], field);
        assert scopes[i + 1] == scopes[1..][i];
      }
    }
  }
}
