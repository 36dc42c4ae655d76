/** Two frame stacks, or two row streams, that need not be equal: what they have in common,
    and what is left of it after a step of the evaluator (eval/views.rs). */
module Pairing {
  import opened Values
  import opened Rows
  import opened TypedExprs
  import opened Evaluator

  // ---- frame stacks ------------------------------------------------------

  datatype Extent<T(==)> = Only(those: set<T>) | AllBut(those: set<T>)
  {
    predicate Has(x: T) { Only? == (x in those) }

    function With(more: set<T>): Extent<T> { if Only? then Only(those + more) else AllBut(those - more) }

    function Without(less: set<T>): Extent<T> { if Only? then Only(those - less) else AllBut(those + less) }
  }

  /** The names and the values of `.`, counted from the innermost, that two stacks share. */
  datatype Shared = Shared(names: Extent<string>, depths: Extent<nat>)

  const Everything := Shared(AllBut({}), AllBut({}))
  const Nothing := Shared(Only({}), Only({}))

  ghost predicate AgreeOn(shared: Shared, fs1: seq<Frame>, fs2: seq<Frame>) {
    && (forall n :: shared.names.Has(n) ==> Lookup(fs1, n) == Lookup(fs2, n))
    && (forall j: nat :: shared.depths.Has(j) ==> CurrentAt(fs1, j) == CurrentAt(fs2, j))
  }

  /** The shared depths one frame further in, whose values of `.` agree or not. */
  ghost function Deeper(depths: Extent<nat>, top: bool): Extent<nat> {
    var moved := (set j | j in depths.those :: j + 1) + (if depths.Only? == top then {0} else {});
    if depths.Only? then Only(moved) else AllBut(moved)
  }

  lemma DeeperHas(depths: Extent<nat>, top: bool)
    ensures Deeper(depths, top).Has(0) == top
    ensures forall j: nat :: Deeper(depths, top).Has(j + 1) == depths.Has(j)
  {
    forall j: nat
      ensures Deeper(depths, top).Has(j + 1) == depths.Has(j)
    {
      assert j + 1 in Deeper(depths, top).those <==> j in depths.those;
    }
  }

  lemma PushedReads(fs: seq<Frame>, f: Frame)
    ensures CurrentAt(fs + [f], 0) == Ok(f.current)
    ensures forall j: nat :: CurrentAt(fs + [f], j + 1) == CurrentAt(fs, j)
    ensures forall n :: Lookup(fs + [f], n) == if n in f.bindings then Some(f.bindings[n]) else Lookup(fs, n)
  {
    assert (fs + [f])[..|fs|] == fs;
  }

  /** Stacks that share every value of `.` share what `$` names fall back to. */
  lemma {:induction false} SameCurrents(fs1: seq<Frame>, fs2: seq<Frame>, name: string)
    requires forall j: nat :: CurrentAt(fs1, j) == CurrentAt(fs2, j)
    ensures RowStructural(fs1, name) == RowStructural(fs2, name)
    decreases |fs1|
  {
    assert CurrentAt(fs1, |fs1|) == CurrentAt(fs2, |fs1|) && CurrentAt(fs1, |fs2|) == CurrentAt(fs2, |fs2|);
    if fs1 != [] {
      var rest1, rest2 := fs1[..|fs1| - 1], fs2[..|fs2| - 1];
      assert CurrentAt(fs1, 0) == CurrentAt(fs2, 0);
      forall j: nat
        ensures CurrentAt(rest1, j) == CurrentAt(rest2, j)
      {
        assert CurrentAt(fs1, j + 1) == CurrentAt(fs2, j + 1);
      }
      SameCurrents(rest1, rest2, name);
    }
  }

  // ---- row streams -------------------------------------------------------

  /** What is known of two streams, or of the frames made from their rows: the names that
      may differ, those the left always binds, those the right may bind, and whether the
      rows' identities agree. */
  datatype Flow = Flow(lost: set<string>, always: set<string>, upto: set<string>, ids: bool)
  {
    /** Both sides bind these names, to the same cells. */
    function Bind(names: set<string>): Flow { Flow(lost - names, always + names, upto + names, ids) }

    /** `other` claims no more. */
    predicate Covers(other: Flow) {
      lost <= other.lost && other.always <= always && upto <= other.upto && (other.ids ==> ids)
    }
  }

  /** Rows that bind nothing. */
  const NoBinds := Flow({}, {}, {}, true)

  predicate SameAt(m1: map<string, Cell>, m2: map<string, Cell>, name: string) {
    (name in m1 <==> name in m2) && (name in m1 ==> m1[name] == m2[name])
  }

  ghost predicate MapsPair(flow: Flow, m1: map<string, Cell>, m2: map<string, Cell>) {
    && (forall n :: n !in flow.lost ==> SameAt(m1, m2, n))
    && flow.always <= m1.Keys && m2.Keys <= flow.upto
  }

  lemma CoversMaps(flow: Flow, other: Flow, m1: map<string, Cell>, m2: map<string, Cell>)
    requires MapsPair(flow, m1, m2) && flow.Covers(other)
    ensures MapsPair(other, m1, m2)
  {
  }

  lemma BindMaps(flow: Flow, m1: map<string, Cell>, m2: map<string, Cell>, name: string, cell: Cell)
    requires MapsPair(flow, m1, m2)
    ensures MapsPair(flow.Bind({name}), m1[name := cell], m2[name := cell])
  {
    forall n | n !in flow.Bind({name}).lost
      ensures SameAt(m1[name := cell], m2[name := cell], n)
    {
      if n != name { assert SameAt(m1, m2, n); }
    }
  }

  function Bindings(scope: RowScope): map<string, Cell> { BindAll(map[], scope.binds) }

  ghost predicate ScopesPair(flow: Flow, a: RowScope, b: RowScope) {
    && a.row == b.row && (flow.ids ==> a.identity == b.identity)
    && MapsPair(flow, Bindings(a), Bindings(b))
  }

  ghost predicate StreamsPair(flow: Flow, a: seq<RowScope>, b: seq<RowScope>) {
    |a| == |b| && forall i :: 0 <= i < |a| ==> ScopesPair(flow, a[i], b[i])
  }

  ghost predicate ResultsPair(flow: Flow, a: Result<seq<RowScope>>, b: Result<seq<RowScope>>) {
    if a.Ok? then b.Ok? && StreamsPair(flow, a.value, b.value) else b.Err? && a.error == b.error
  }

  lemma CoversStreams(flow: Flow, other: Flow, a: seq<RowScope>, b: seq<RowScope>)
    requires StreamsPair(flow, a, b) && flow.Covers(other)
    ensures StreamsPair(other, a, b)
  {
    forall i | 0 <= i < |a|
      ensures ScopesPair(other, a[i], b[i])
    {
      assert ScopesPair(flow, a[i], b[i]);
      CoversMaps(flow, other, Bindings(a[i]), Bindings(b[i]));
    }
  }

  lemma PairedRows(flow: Flow, a: seq<RowScope>, b: seq<RowScope>)
    requires StreamsPair(flow, a, b)
    ensures RowsOf(a) == RowsOf(b)
  {
    forall i | 0 <= i < |a|
      ensures RowsOf(a)[i] == RowsOf(b)[i]
    {
      assert ScopesPair(flow, a[i], b[i]);
    }
  }

  lemma BarePair(rows: seq<Row>)
    ensures StreamsPair(NoBinds, BareAll(rows), BareAll(rows))
  {
  }

  // ---- what rows bind ----------------------------------------------------

  lemma {:induction false} BindAllConcat(m: map<string, Cell>, a: seq<(string, Cell)>, b: seq<(string, Cell)>)
    ensures BindAll(m, a + b) == BindAll(BindAll(m, a), b)
    decreases |a|
  {
    if a == [] {
      assert a + b == b;
    } else {
      assert (a + b)[1..] == a[1..] + b;
      BindAllConcat(m[a[0].0 := a[0].1], a[1..], b);
    }
  }

  lemma BindLast(m: map<string, Cell>, binds: seq<(string, Cell)>, name: string, cell: Cell)
    ensures BindAll(m, binds + [(name, cell)]) == BindAll(m, binds)[name := cell]
  {
    BindAllConcat(m, binds, [(name, cell)]);
    assert [(name, cell)][1..] == [];
  }

  lemma {:induction false} BindAllNames(bindings: map<string, Cell>, binds: seq<(string, Cell)>)
    ensures BindAll(bindings, binds).Keys == bindings.Keys + BindNames(binds)
    decreases |binds|
  {
    if binds != [] {
      var n := |binds| - 1;
      var front := binds[..n];
      assert binds == front + [binds[n]] && binds[n] == (binds[n].0, binds[n].1);
      BindLast(bindings, front, binds[n].0, binds[n].1);
      BindAllNames(bindings, front);
      forall name | name in BindNames(binds)
        ensures name in BindNames(front) + {binds[n].0}
      {
        var i :| 0 <= i < |binds| && binds[i].0 == name;
        if i < n { assert front[i].0 == name; }
      }
      forall name | name in BindNames(front)
        ensures name in BindNames(binds)
      {
        var i :| 0 <= i < |front| && front[i].0 == name;
        assert binds[i].0 == name;
      }
    }
  }

  /** The names an output never shadows are those its row binds. */
  lemma LoopNames(scope: RowScope, group: Option<Cell>)
    ensures LoopBinds(scope, group) == ProjectFrame(scope, group).bindings.Keys
  {
    BindAllNames(map[], scope.binds);
  }

  function KeptScope(name: string, scope: RowScope): RowScope {
    scope.(binds := scope.binds + [(name, RowCell(scope.row))])
  }

  lemma KeptPair(flow: Flow, name: string, a: RowScope, b: RowScope)
    requires ScopesPair(flow, a, b)
    ensures ScopesPair(flow.Bind({name}), KeptScope(name, a), KeptScope(name, b))
  {
    BindLast(map[], a.binds, name, RowCell(a.row));
    BindLast(map[], b.binds, name, RowCell(b.row));
    BindMaps(flow, Bindings(a), Bindings(b), name, RowCell(a.row));
  }

  // ---- traversal ---------------------------------------------------------

  function NameSet(name: Option<string>): set<string> { if name.Some? then {name.value} else {} }

  /** A level binds its member and the name of its base, which the left may have lost. */
  function TraverseFlow(flow: Flow, name1: Option<string>, name2: Option<string>, member: string): Flow {
    var left := NameSet(name1) + {member};
    Flow((flow.lost + NameSet(name2)) - left, flow.always + left, flow.upto + NameSet(name2) + {member}, flow.ids)
  }

  function InnerScope(scope: RowScope, baseName: Option<string>, member: string, row: Row): RowScope {
    RowScope(row,
             scope.binds + (if baseName.Some? then [(baseName.value, RowCell(scope.row))] else []) + [(member, RowCell(row))],
             scope.identity + row.id)
  }

  function WithName(m: map<string, Cell>, name: Option<string>, cell: Cell): map<string, Cell> {
    if name.Some? then m[name.value := cell] else m
  }

  lemma InnerBindings(scope: RowScope, baseName: Option<string>, member: string, row: Row)
    ensures Bindings(InnerScope(scope, baseName, member, row))
         == WithName(Bindings(scope), baseName, RowCell(scope.row))[member := RowCell(row)]
  {
    var named := scope.binds + (if baseName.Some? then [(baseName.value, RowCell(scope.row))] else []);
    BindLast(map[], named, member, RowCell(row));
    if baseName.Some? {
      BindLast(map[], scope.binds, baseName.value, RowCell(scope.row));
    } else {
      assert named == scope.binds;
    }
  }

  lemma NamedMaps(flow: Flow, m1: map<string, Cell>, m2: map<string, Cell>, name1: Option<string>, name2: Option<string>,
                  cell: Cell, member: string, inner: Cell)
    requires MapsPair(flow, m1, m2) && (name1.None? || name1 == name2)
    ensures MapsPair(TraverseFlow(flow, name1, name2, member), WithName(m1, name1, cell)[member := inner],
                     WithName(m2, name2, cell)[member := inner])
  {
    forall n | n !in TraverseFlow(flow, name1, name2, member).lost
      ensures SameAt(WithName(m1, name1, cell)[member := inner], WithName(m2, name2, cell)[member := inner], n)
    {
      if n != member && n !in NameSet(name2) { assert SameAt(m1, m2, n); }
    }
  }

  lemma InnerPair(flow: Flow, a: RowScope, b: RowScope, name1: Option<string>, name2: Option<string>, member: string, rows: seq<Row>)
    requires ScopesPair(flow, a, b) && (name1.None? || name1 == name2)
    ensures StreamsPair(TraverseFlow(flow, name1, name2, member), Inner(a, name1, member, rows), Inner(b, name2, member, rows))
  {
    forall i | 0 <= i < |rows|
      ensures ScopesPair(TraverseFlow(flow, name1, name2, member), Inner(a, name1, member, rows)[i], Inner(b, name2, member, rows)[i])
    {
      assert Inner(a, name1, member, rows)[i] == InnerScope(a, name1, member, rows[i]);
      assert Inner(b, name2, member, rows)[i] == InnerScope(b, name2, member, rows[i]);
      InnerBindings(a, name1, member, rows[i]);
      InnerBindings(b, name2, member, rows[i]);
      NamedMaps(flow, Bindings(a), Bindings(b), name1, name2, RowCell(a.row), member, RowCell(rows[i]));
    }
  }

  lemma {:induction false} FlattenPair(flow: Flow, a: seq<RowScope>, b: seq<RowScope>, name1: Option<string>, name2: Option<string>,
                                       member: string)
    requires StreamsPair(flow, a, b) && (name1.None? || name1 == name2)
    ensures ResultsPair(TraverseFlow(flow, name1, name2, member), Flatten(a, name1, member), Flatten(b, name2, member))
    decreases |a|
  {
    if a != [] {
      assert ScopesPair(flow, a[0], b[0]);
      assert StreamsPair(flow, a[1..], b[1..]);
      FlattenPair(flow, a[1..], b[1..], name1, name2, member);
      var cells := a[0].row.cells;
      if member in cells && cells[member].Collection? {
        InnerPair(flow, a[0], b[0], name1, name2, member, cells[member].rows);
      }
    }
  }

  // ---- groups ------------------------------------------------------------

  ghost predicate GroupPair(flow: Flow, g: Group, h: Group) {
    g.key == h.key && StreamsPair(flow, g.members, h.members)
  }

  ghost predicate GroupsPair(flow: Flow, gs: seq<Group>, hs: seq<Group>) {
    |gs| == |hs| && forall i :: 0 <= i < |gs| ==> GroupPair(flow, gs[i], hs[i])
  }

  lemma {:induction false} AddPair(flow: Flow, gs: seq<Group>, hs: seq<Group>, key: seq<Value>, a: RowScope, b: RowScope)
    requires GroupsPair(flow, gs, hs) && ScopesPair(flow, a, b)
    ensures GroupsPair(flow, AddToGroup(gs, key, a), AddToGroup(hs, key, b))
    decreases |gs|
  {
    assert GroupPair(flow, Group(key, [a]), Group(key, [b]));
    if gs != [] {
      assert GroupPair(flow, gs[0], hs[0]);
      assert GroupsPair(flow, gs[1..], hs[1..]);
      match CmpValues(key, gs[0].key)
      case Less =>
      case Equal => assert GroupPair(flow, Group(key, gs[0].members + [a]), Group(key, hs[0].members + [b]));
      case Greater => AddPair(flow, gs[1..], hs[1..], key, a, b);
    }
  }

  lemma {:induction false} GroupedPair(flow: Flow, a: seq<RowScope>, b: seq<RowScope>, keys: seq<seq<Value>>)
    requires StreamsPair(flow, a, b) && |a| == |keys|
    ensures GroupsPair(flow, Grouped(a, keys), Grouped(b, keys))
    decreases |a|
  {
    if a != [] {
      var n := |a| - 1;
      assert StreamsPair(flow, a[..n], b[..n]) && ScopesPair(flow, a[n], b[n]);
      GroupedPair(flow, a[..n], b[..n], keys[..n]);
      AddPair(flow, Grouped(a[..n], keys[..n]), Grouped(b[..n], keys[..n]), keys[n], a[n], b[n]);
    }
  }

  // ---- set combinators ---------------------------------------------------

  lemma PairedIds(flow: Flow, a: seq<RowScope>, b: seq<RowScope>)
    requires StreamsPair(flow, a, b) && flow.ids
    ensures Ids(a) == Ids(b)
  {
    forall i | 0 <= i < |a|
      ensures a[i].identity == b[i].identity
    {
      assert ScopesPair(flow, a[i], b[i]);
    }
  }

  lemma {:induction false} KeepPair(flow: Flow, a: seq<RowScope>, b: seq<RowScope>, ids: set<RowId>, inside: bool)
    requires StreamsPair(flow, a, b) && flow.ids
    ensures Keep(a, ids, inside) == Keep(b, ids, inside)
    decreases |a|
  {
    if a != [] {
      assert ScopesPair(flow, a[0], b[0]);
      assert StreamsPair(flow, a[1..], b[1..]);
      KeepPair(flow, a[1..], b[1..], ids, inside);
    }
  }

  lemma {:induction false} UnseenPair(flow: Flow, a: seq<RowScope>, b: seq<RowScope>, seen: set<RowId>)
    requires StreamsPair(flow, a, b) && flow.ids
    ensures Unseen(a, seen) == Unseen(b, seen)
    decreases |a|
  {
    if a != [] {
      assert ScopesPair(flow, a[0], b[0]);
      assert StreamsPair(flow, a[1..], b[1..]);
      UnseenPair(flow, a[1..], b[1..], if a[0].identity in seen then seen else seen + {a[0].identity});
    }
  }

  /** Set combinators look at rows and identities, never at what the rows bind. */
  lemma CombinePair(op: CombineOp, left: Flow, right: Flow, a: seq<RowScope>, b: seq<RowScope>, x: seq<RowScope>, y: seq<RowScope>)
    requires StreamsPair(left, a, b) && left.ids && StreamsPair(right, x, y) && right.ids
    ensures CombineRows(op, a, x) == CombineRows(op, b, y)
  {
    PairedRows(left, a, b);
    PairedIds(left, a, b);
    PairedIds(right, x, y);
    KeepPair(left, a, b, Ids(x), true);
    KeepPair(left, a, b, Ids(x), false);
    UnseenPair(right, x, y, Ids(a));
  }

  lemma {:induction false} FieldPair(flow: Flow, a: seq<RowScope>, b: seq<RowScope>, field: string)
    requires StreamsPair(flow, a, b)
    ensures FieldValues(a, field) == FieldValues(b, field)
    decreases |a|
  {
    if a != [] {
      assert ScopesPair(flow, a[0], b[0]);
      assert StreamsPair(flow, a[1..], b[1..]);
      FieldPair(flow, a[1..], b[1..], field);
    }
  }

  // ---- pushing a frame ---------------------------------------------------

  lemma PushAgrees(shared: Shared, flow: Flow, fs1: seq<Frame>, fs2: seq<Frame>, f1: Frame, f2: Frame, top: bool)
    requires AgreeOn(shared, fs1, fs2) && MapsPair(flow, f1.bindings, f2.bindings) && (top ==> f1.current == f2.current)
    ensures AgreeOn(Shared(shared.names.Without(flow.lost).With(flow.always - flow.lost), Deeper(shared.depths, top)),
                    fs1 + [f1], fs2 + [f2])
  {
    PushedReads(fs1, f1);
    PushedReads(fs2, f2);
    DeeperHas(shared.depths, top);
    forall n | shared.names.Without(flow.lost).With(flow.always - flow.lost).Has(n)
      ensures Lookup(fs1 + [f1], n) == Lookup(fs2 + [f2], n)
    {
      assert SameAt(f1.bindings, f2.bindings, n);
    }
    forall j: nat | Deeper(shared.depths, top).Has(j)
      ensures CurrentAt(fs1 + [f1], j) == CurrentAt(fs2 + [f2], j)
    {
      if j > 0 {
        assert shared.depths.Has(j - 1);
        assert CurrentAt(fs1 + [f1], (j - 1) + 1) == CurrentAt(fs1, j - 1);
        assert CurrentAt(fs2 + [f2], (j - 1) + 1) == CurrentAt(fs2, j - 1);
      }
    }
  }

  /** What the right stack still shares with an older one that nothing is pushed on: of the
      values of `.` at most the innermost, when the frame keeps it. */
  ghost function Narrowed(shared: Shared, upto: set<string>, stays: bool): Shared {
    Shared(shared.names.Without(upto), Only(if stays && shared.depths.Has(0) then {0} else {}))
  }

  lemma PushNarrows(shared: Shared, upto: set<string>, fs0: seq<Frame>, fs: seq<Frame>, f: Frame, stays: bool)
    requires AgreeOn(shared, fs0, fs) && f.bindings.Keys <= upto
    requires stays && shared.depths.Has(0) ==> fs != [] && f.current == OuterCurrent(fs)
    ensures AgreeOn(Narrowed(shared, upto, stays), fs0, fs + [f])
  {
    PushedReads(fs, f);
  }

  // ---- the frames of projected rows --------------------------------------

  /** The first `n` outputs; with `keyOnly` those that are group keys. */
  ghost function OutputBinds(op: Op, n: nat, keyOnly: bool): set<string>
    requires op.Project?
  {
    set i | 0 <= i < n && i < |op.outputs| && (keyOnly ==> op.outputs[i] in op.key) :: op.outputs[i]
  }

  predicate IsGroupKey(op: Op, i: nat)
    requires op.Project?
  {
    i < |op.outputs| && op.outputs[i] in op.key
  }

  /** An output is bound unless its row binds its name already. */
  ghost function WithOutputs(base: Flow, op: Op, n: nat, keyOnly: bool): Flow
    requires op.Project?
  {
    base.(always := base.always + OutputBinds(op, n, keyOnly), upto := base.upto + OutputBinds(op, n, keyOnly))
  }

  /** What is known of the frame operand `i > 0` of a projection runs in, given its source.
      A group key is evaluated in a pass of its own too, before there is a group; a
      projected single row has none. */
  ghost function RowFlow(op: Op, ty: ExprType, source: Flow, i: nat): Flow
    requires op.Project? && i > 0
  {
    var grouped := if op.key == [] then source else if ty.RowType? then source.(upto := source.upto + {"group"}) else source.Bind({"group"});
    var before := if IsGroupKey(op, i - 1)
                  then source.(always := source.always + OutputBinds(op, i - 1, true),
                               upto := source.upto + {"group"} + OutputBinds(op, i - 1, false))
                  else WithOutputs(grouped, op, i - 1, false);
    if i < SortStart(op) then before else before.(upto := before.upto + {"$quantity"})
  }

  lemma ProjectFrames(flow: Flow, a: RowScope, b: RowScope, group: Option<Cell>)
    requires ScopesPair(flow, a, b)
    ensures MapsPair(if group.Some? then flow.Bind({"group"}) else flow, ProjectFrame(a, group).bindings, ProjectFrame(b, group).bindings)
    ensures ProjectFrame(a, group).current == ProjectFrame(b, group).current
  {
    if group.Some? { BindMaps(flow, Bindings(a), Bindings(b), "group", group.value); }
  }

  /** The frames, the names no output shadows and the cells before output `i`. */
  ghost predicate Carries(op: Op, base: Flow, f1: Frame, f2: Frame, loop1: set<string>, loop2: set<string>, i: nat, keyOnly: bool,
                          cells: map<string, Cell>)
    requires op.Project?
  {
    && f1.current == f2.current && MapsPair(WithOutputs(base, op, i, keyOnly), f1.bindings, f2.bindings)
    && loop1 <= f1.bindings.Keys && SameLoops(base, loop1, loop2)
    && CellsCarry(op, i, keyOnly, cells)
  }

  ghost predicate SameLoops(base: Flow, loop1: set<string>, loop2: set<string>) {
    forall n :: n !in base.lost ==> (n in loop1 <==> n in loop2)
  }

  ghost predicate CellsCarry(op: Op, i: nat, keyOnly: bool, cells: map<string, Cell>)
    requires op.Project?
  {
    OutputBinds(op, i, keyOnly) <= cells.Keys <= OutputBinds(op, i, keyOnly) + {"$quantity"}
  }

  lemma StartCarries(op: Op, base: Flow, a: RowScope, b: RowScope, group: Option<Cell>, keyOnly: bool)
    requires op.Project? && ScopesPair(base, a, b)
    ensures Carries(op, if group.Some? then base.Bind({"group"}) else base, ProjectFrame(a, group), ProjectFrame(b, group),
                    LoopBinds(a, group), LoopBinds(b, group), 0, keyOnly, map[])
  {
    ProjectFrames(base, a, b, group);
    LoopNames(a, group);
    LoopNames(b, group);
    var flow := if group.Some? then base.Bind({"group"}) else base;
    var m1, m2 := ProjectFrame(a, group).bindings, ProjectFrame(b, group).bindings;
    assert OutputBinds(op, 0, keyOnly) == {};
    assert WithOutputs(flow, op, 0, keyOnly) == flow;
    forall n | n !in flow.lost
      ensures n in LoopBinds(a, group) <==> n in LoopBinds(b, group)
    {
      assert SameAt(m1, m2, n);
    }
  }

  lemma SkipCarries(op: Op, base: Flow, f1: Frame, f2: Frame, loop1: set<string>, loop2: set<string>, i: nat, cells: map<string, Cell>)
    requires op.Project? && i < |op.outputs| && !IsGroupKey(op, i)
    requires Carries(op, base, f1, f2, loop1, loop2, i, true, cells)
    ensures Carries(op, base, f1, f2, loop1, loop2, i + 1, true, cells)
  {
    assert OutputBinds(op, i + 1, true) == OutputBinds(op, i, true);
  }

  lemma NextBinds(op: Op, i: nat, keyOnly: bool)
    requires op.Project? && i < |op.outputs| && (keyOnly ==> IsGroupKey(op, i))
    ensures OutputBinds(op, i + 1, keyOnly) == OutputBinds(op, i, keyOnly) + {op.outputs[i]}
  {
  }

  lemma OutputMaps(base: Flow, f1: Frame, f2: Frame, loop1: set<string>, loop2: set<string>, flow: Flow, name: string, cell: Cell)
    requires MapsPair(flow, f1.bindings, f2.bindings) && flow.lost == base.lost
    requires loop1 <= f1.bindings.Keys && SameLoops(base, loop1, loop2)
    ensures MapsPair(flow.(always := flow.always + {name}, upto := flow.upto + {name}),
                     BindOutput(f1, loop1, name, cell).bindings, BindOutput(f2, loop2, name, cell).bindings)
  {
    var m1, m2 := BindOutput(f1, loop1, name, cell).bindings, BindOutput(f2, loop2, name, cell).bindings;
    forall n | n !in flow.lost
      ensures SameAt(m1, m2, n)
    {
      assert SameAt(f1.bindings, f2.bindings, n);
      assert n in loop1 <==> n in loop2;
    }
  }

  lemma BindCarries(op: Op, base: Flow, f1: Frame, f2: Frame, loop1: set<string>, loop2: set<string>, i: nat, keyOnly: bool,
                    cells: map<string, Cell>, cell: Cell)
    requires op.Project? && i < |op.outputs| && (keyOnly ==> IsGroupKey(op, i))
    requires Carries(op, base, f1, f2, loop1, loop2, i, keyOnly, cells)
    ensures Carries(op, base, BindOutput(f1, loop1, op.outputs[i], cell), BindOutput(f2, loop2, op.outputs[i], cell), loop1, loop2,
                    i + 1, keyOnly, cells[op.outputs[i] := cell])
  {
    var name := op.outputs[i];
    NextBinds(op, i, keyOnly);
    var flow := WithOutputs(base, op, i, keyOnly);
    OutputMaps(base, f1, f2, loop1, loop2, flow, name, cell);
    assert WithOutputs(base, op, i + 1, keyOnly).always == flow.always + {name};
    assert WithOutputs(base, op, i + 1, keyOnly).upto == flow.upto + {name};
  }

  /** The frames of the sort keys see the projected cells as well. */
  lemma SortFrames(op: Op, base: Flow, a: RowScope, b: RowScope, group: Option<Cell>, row: Row)
    requires op.Project? && ScopesPair(base, a, b) && CellsCarry(op, |op.outputs|, false, row.cells)
    ensures var flow := WithOutputs(if group.Some? then base.Bind({"group"}) else base, op, |op.outputs|, false);
      MapsPair(flow.(upto := flow.upto + {"$quantity"}), SortFrame(a, group, row).bindings, SortFrame(b, group, row).bindings)
    ensures SortFrame(a, group, row).current == SortFrame(b, group, row).current
  {
    StartCarries(op, base, a, b, group, false);
    LoopNames(a, group);
    LoopNames(b, group);
    var m1, m2 := ProjectFrame(a, group).bindings, ProjectFrame(b, group).bindings;
    var flow := if group.Some? then base.Bind({"group"}) else base;
    assert MapsPair(flow, m1, m2) by { assert OutputBinds(op, 0, false) == {}; }
    forall n | n !in flow.lost
      ensures SameAt(SortFrame(a, group, row).bindings, SortFrame(b, group, row).bindings, n)
    {
      assert SameAt(m1, m2, n);
    }
  }

  // ---- flows that claim no more ------------------------------------------

  lemma KeyPassCovers(op: Op, ty: ExprType, source: Flow, i: nat)
    requires op.Project? && IsGroupKey(op, i)
    ensures WithOutputs(source, op, i, true).Covers(RowFlow(op, ty, source, i + 1))
  {
    assert OutputBinds(op, i, true) <= OutputBinds(op, i, false);
  }

  /** The flow of a projected row's own frame, with or without its group. */
  predicate RowBase(op: Op, ty: ExprType, source: Flow, base: Flow)
    requires op.Project?
  {
    || (base == source && (op.key == [] || ty.RowType?))
    || (base == source.Bind({"group"}) && op.key != [])
  }

  lemma RowPassCovers(op: Op, ty: ExprType, source: Flow, base: Flow, i: nat)
    requires op.Project? && RowBase(op, ty, source, base)
    ensures WithOutputs(base, op, i, false).Covers(RowFlow(op, ty, source, i + 1))
  {
    assert OutputBinds(op, i, true) <= OutputBinds(op, i, false);
  }

  lemma SortPassCovers(op: Op, ty: ExprType, source: Flow, base: Flow, i: nat)
    requires op.Project? && RowBase(op, ty, source, base) && i >= SortStart(op)
    ensures var flow := WithOutputs(base, op, |op.outputs|, false);
      flow.(upto := flow.upto + {"$quantity"}).Covers(RowFlow(op, ty, source, i))
  {
    assert OutputBinds(op, i - 1, false) == OutputBinds(op, |op.outputs|, false);
  }
}
