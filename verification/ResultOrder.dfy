/** The order a view expression delivers its rows in (liasse-expr, typed.rs). */
module ResultOrder {
  import opened Values
  import opened Rows
  import opened TypedExprs
  import opened Order
  import opened Evaluator
  import opened Ascending

  type ViewOrders = string -> Option<SortOrder>

  function OrderOf(e: TypedExpr, views: ViewOrders): SortOrder
    requires e.WellFormed()
  {
    match e.op
    case Project(_, _, _, descending, _, _) => SortOrder(descending)
    case Combine(_) => OrderOf(e.kids[0], views)
    case Ternary => BranchOrder(e, 1, 2, views)
    case Fallback => BranchOrder(e, 0, 1, views)
    case Field(name) =>
      if (e.kids[0].op.Current? || e.kids[0].op.Root?) && views(name).Some? then views(name).value else Unordered()
    case SelectKeys | SelectBind(_, _) => OrderOf(e.kids[0], views)
    case _ => Unordered()
  }

  /** The order two branches share, or the other's when one is the empty view. */
  function BranchOrder(e: TypedExpr, a: nat, b: nat, views: ViewOrders): SortOrder
    requires e.WellFormed() && a < |e.kids| && b < |e.kids|
    decreases e, 0
  {
    if e.kids[a].op.EmptyView? then OrderOf(e.kids[b], views)
    else if e.kids[b].op.EmptyView? then OrderOf(e.kids[a], views)
    else
      var left := OrderOf(e.kids[a], views);
      if left == OrderOf(e.kids[b], views) then left else Unordered()
  }

  /** The expressions whose order is predicted: sorted projections, filters, intersections,
      differences, named views, and branches that agree or are empty. */
  ghost predicate Predicted(e: TypedExpr, views: ViewOrders)
    requires e.WellFormed()
  {
    match e.op
    case EmptyView => true
    case Project(_, _, _, descending, _, _) => descending != []
    case Combine(op) => op != Union && Predicted(e.kids[0], views)
    case SelectBind(_, _) => Predicted(e.kids[0], views)
    case Field(name) => (e.kids[0].op.Current? || e.kids[0].op.Root?) && views(name).Some?
    case Ternary => BranchesPredicted(e, 1, 2, views)
    case Fallback => BranchesPredicted(e, 0, 1, views)
    case _ => false
  }

  ghost predicate BranchesPredicted(e: TypedExpr, a: nat, b: nat, views: ViewOrders)
    requires e.WellFormed() && a < |e.kids| && b < |e.kids|
    decreases e, 0
  {
    && Predicted(e.kids[a], views) && Predicted(e.kids[b], views)
    && (e.kids[a].op.EmptyView? || e.kids[b].op.EmptyView?
        || OrderOf(e.kids[a], views) == OrderOf(e.kids[b], views))
  }

  /** Delivered in order, with full sort tuples; a row alone needs none. */
  ghost predicate Delivers(order: SortOrder, rows: seq<Row>) {
    order.Sorts(rows) && (order.Ranks(rows) || |rows| <= 1)
  }

  /** A row whose named-view cells hold rows in the views' declared orders. */
  ghost predicate HoldsViews(row: Row, views: ViewOrders) {
    forall name :: name in row.cells && views(name).Some? && row.cells[name].Collection? ==>
      Delivers(views(name).value, row.cells[name].rows)
  }

  ghost predicate ViewsHold(env: Env, fs: seq<Frame>, views: ViewOrders) {
    && HoldsViews(env.root, views)
    && (CurrentAt(fs, 0).Ok? && CurrentAt(fs, 0).value.RowCell? ==> HoldsViews(CurrentAt(fs, 0).value.row, views))
  }

  // ---- subsequences ------------------------------------------------------

  ghost predicate Sub(a: seq<Row>, b: seq<Row>) {
    || a == []
    || (b != [] && ((a[0] == b[0] && Sub(a[1..], b[1..])) || Sub(a, b[1..])))
  }

  lemma {:induction false} SubElement(a: seq<Row>, b: seq<Row>, i: nat) returns (j: nat)
    requires Sub(a, b) && i < |a|
    ensures j < |b| && b[j] == a[i]
  {
    if a[0] == b[0] && Sub(a[1..], b[1..]) {
      if i == 0 { return 0; }
      j := SubElement(a[1..], b[1..], i - 1);
    } else {
      j := SubElement(a, b[1..], i);
    }
    j := j + 1;
  }

  /** Dropping rows keeps the rest in order. */
  lemma {:induction false} SubSorts(order: SortOrder, a: seq<Row>, b: seq<Row>)
    requires Sub(a, b) && order.Sorts(b)
    ensures order.Sorts(a)
    decreases |b|
  {
    if a != [] {
      if a[0] == b[0] && Sub(a[1..], b[1..]) {
        SubSorts(order, a[1..], b[1..]);
        forall j | 0 < j < |a|
          ensures order.Compare(a[0].sort, a[0].id, a[j].sort, a[j].id) != Greater
        {
          var k := SubElement(a[1..], b[1..], j - 1);
          assert b[1..][k] == b[k + 1];
        }
      } else {
        SubSorts(order, a, b[1..]);
      }
    }
  }

  lemma SubDelivers(order: SortOrder, a: seq<Row>, b: seq<Row>)
    requires Sub(a, b) && Delivers(order, b)
    ensures Delivers(order, a)
  {
    SubSorts(order, a, b);
    SubIsShorter(a, b);
    forall i | 0 <= i < |a| && order.Ranks(b)
      ensures |a[i].sort| == |order.descending|
    {
      var j := SubElement(a, b, i);
    }
  }

  lemma {:induction false} SubIsShorter(a: seq<Row>, b: seq<Row>)
    requires Sub(a, b)
    ensures |a| <= |b|
    decreases |b|
  {
    if a != [] {
      if a[0] == b[0] && Sub(a[1..], b[1..]) { SubIsShorter(a[1..], b[1..]); } else { SubIsShorter(a, b[1..]); }
    }
  }

  lemma {:induction false} KeepIsSub(scopes: seq<RowScope>, ids: set<RowId>, inside: bool)
    ensures Sub(Keep(scopes, ids, inside), RowsOf(scopes))
  {
    if scopes != [] {
      KeepIsSub(scopes[1..], ids, inside);
      assert RowsOf(scopes)[1..] == RowsOf(scopes[1..]);
      var rest := Keep(scopes[1..], ids, inside);
      assert ([scopes[0].row] + rest)[1..] == rest && [] + rest == rest;
    }
  }

  lemma {:induction false} FilterIsSub(lang: Lang, env: Env, fs: seq<Frame>, e: TypedExpr, rows: seq<Row>)
    requires e.WellFormed() && e.op.SelectBind?
    ensures var r := FilterRows(lang, env, fs, e, rows); r.Ok? ==> Sub(r.value, rows)
    decreases |rows|
  {
    if e.op.filtered && rows != [] {
      FilterIsSub(lang, env, fs, e, rows[1..]);
      var rest := FilterRows(lang, env, fs, e, rows[1..]);
      if rest.Ok? { assert ([rows[0]] + rest.value)[1..] == rest.value && [] + rest.value == rest.value; }
    } else {
      SubSelf(rows);
    }
  }

  lemma {:induction false} SubSelf(rows: seq<Row>)
    ensures Sub(rows, rows)
  {
    if rows != [] { SubSelf(rows[1..]); }
  }

  lemma {:induction false} BindIsSub(lang: Lang, env: Env, fs: seq<Frame>, e: TypedExpr, scopes: seq<RowScope>)
    requires e.WellFormed() && e.op.SelectBind?
    ensures var r := BindScopes(lang, env, fs, e, scopes); r.Ok? ==> Sub(RowsOf(r.value), RowsOf(scopes))
    decreases |scopes|
  {
    if scopes != [] {
      BindIsSub(lang, env, fs, e, scopes[1..]);
      var r := BindScopes(lang, env, fs, e, scopes);
      var rest := BindScopes(lang, env, fs, e, scopes[1..]);
      if r.Ok? {
        var kept := scopes[0].(binds := scopes[0].binds + [(e.op.name, RowCell(scopes[0].row))]);
        assert [] + rest.value == rest.value;
        assert r.value == [kept] + rest.value || r.value == rest.value;
        SubStep(kept, scopes, rest.value);
      }
    }
  }

  lemma SubStep(kept: RowScope, scopes: seq<RowScope>, rest: seq<RowScope>)
    requires scopes != [] && kept.row == scopes[0].row && Sub(RowsOf(rest), RowsOf(scopes[1..]))
    ensures Sub(RowsOf([kept] + rest), RowsOf(scopes)) && Sub(RowsOf(rest), RowsOf(scopes))
  {
    assert RowsOf(scopes)[1..] == RowsOf(scopes[1..]);
    assert RowsOf([kept] + rest) == [kept.row] + RowsOf(rest);
    assert RowsOf([kept] + rest)[1..] == RowsOf(rest);
  }

  // ---- sorted projections ------------------------------------------------

  predicate FullArity(descending: seq<bool>, ranked: seq<Ranked>) {
    forall i :: 0 <= i < |ranked| ==> |ranked[i].keys| == |descending|
  }

  lemma {:induction false} RankRowsArity(lang: Lang, env: Env, fs: seq<Frame>, e: TypedExpr, scopes: seq<RowScope>)
    requires e.WellFormed() && e.op.Project?
    ensures RankRows(lang, env, fs, e, scopes).Ok? ==> FullArity(e.op.descending, RankRows(lang, env, fs, e, scopes).value)
    decreases |scopes|
  {
    if scopes != [] {
      RankRowsArity(lang, env, fs, e, scopes[1..]);
      var r, rest := RankRows(lang, env, fs, e, scopes), RankRows(lang, env, fs, e, scopes[1..]);
      if r.Ok? {
        assert rest.Ok? && r.value == [r.value[0]] + rest.value && |r.value[0].keys| == |e.op.descending|;
      }
    }
  }

  lemma {:induction false} RankGroupsArity(lang: Lang, env: Env, fs: seq<Frame>, e: TypedExpr, groups: seq<Group>)
    requires e.WellFormed() && e.op.Project?
    ensures RankGroups(lang, env, fs, e, groups).Ok? ==> FullArity(e.op.descending, RankGroups(lang, env, fs, e, groups).value)
    decreases |groups|
  {
    if groups != [] {
      RankGroupsArity(lang, env, fs, e, groups[1..]);
      var r, rest := RankGroups(lang, env, fs, e, groups), RankGroups(lang, env, fs, e, groups[1..]);
      if r.Ok? && groups[0].members != [] {
        assert rest.Ok? && r.value == [r.value[0]] + rest.value && |r.value[0].keys| == |e.op.descending|;
      }
    }
  }

  lemma OrderedSorts(descending: seq<bool>, ranked: seq<Ranked>, skip: Option<nat>, limit: Option<nat>)
    requires descending != [] && FullArity(descending, ranked)
    ensures SortOrder(descending).Sorts(Bound(Ordered(descending, ranked), skip, limit))
    ensures SortOrder(descending).Ranks(Bound(Ordered(descending, ranked), skip, limit))
  {
    var order, rows := SortOrder(descending), Ordered(descending, ranked);
    SortRankedSorts(order, ranked);
    RankedRowsSort(order, SortRanked(order, ranked), rows);
    BoundSorts(order, rows, skip, limit);
  }

  lemma RankedRowsSort(order: SortOrder, sorted: seq<Ranked>, rows: seq<Row>)
    requires SortedRanked(order, sorted) && |rows| == |sorted|
    requires forall i :: 0 <= i < |rows| ==> rows[i].id == sorted[i].row.id && rows[i].sort == sorted[i].keys
    ensures order.Sorts(rows) && order.Ranks(rows)
  {
  }

  lemma BoundSorts(order: SortOrder, rows: seq<Row>, skip: Option<nat>, limit: Option<nat>)
    requires order.Sorts(rows) && order.Ranks(rows)
    ensures order.Sorts(Bound(rows, skip, limit)) && order.Ranks(Bound(rows, skip, limit))
  {
    var from := if skip.Some? && skip.value <= |rows| then skip.value else 0;
    var rest := rows[from..];
    assert order.Sorts(rest) && order.Ranks(rest);
    assert order.Sorts([]) && order.Ranks([]);
    if limit.Some? && limit.value < |rest| {
      assert order.Sorts(rest[..limit.value]) && order.Ranks(rest[..limit.value]);
    }
  }

  /** A projection with a sort delivers its rows by its own keys, skipped and limited. */
  lemma ProjectSorts(lang: Lang, env: Env, fs: seq<Frame>, e: TypedExpr, scopes: seq<RowScope>)
    requires e.WellFormed() && e.op.Project? && e.op.descending != []
    ensures var r := ProjectScopes(lang, env, fs, e, scopes);
      r.Ok? ==> SortOrder(e.op.descending).Sorts(r.value) && SortOrder(e.op.descending).Ranks(r.value)
  {
    if e.op.key == [] {
      RankRowsArity(lang, env, fs, e, scopes);
      var ranked := RankRows(lang, env, fs, e, scopes);
      if ranked.Ok? { OrderedSorts(e.op.descending, ranked.value, e.op.skip, e.op.limit); }
    } else {
      var keys := GroupKeys(lang, env, fs, e, scopes);
      if keys.Ok? {
        RankGroupsArity(lang, env, fs, e, Grouped(scopes, keys.value));
        var ranked := RankGroups(lang, env, fs, e, Grouped(scopes, keys.value));
        if ranked.Ok? { OrderedSorts(e.op.descending, ranked.value, e.op.skip, e.op.limit); }
      }
    }
  }

  // ---- the prediction ----------------------------------------------------

  ghost predicate CellDelivers(order: SortOrder, cell: Result<Cell>) {
    cell.Ok? && cell.value.Collection? ==> Delivers(order, cell.value.rows)
  }

  ghost predicate StreamDelivers(order: SortOrder, scopes: Result<seq<RowScope>>) {
    scopes.Ok? ==> Delivers(order, RowsOf(scopes.value))
  }

  lemma AsViewDelivers(order: SortOrder, cell: Cell)
    requires CellDelivers(order, Ok(cell))
    ensures StreamDelivers(order, AsView(cell))
  {
    if cell.Collection? { assert RowsOf(BareAll(cell.rows)) == cell.rows; }
  }

  /** A predicted expression delivers its rows in its order, as a value and as a view. */
  lemma {:induction false} DeliveredInOrder(lang: Lang, env: Env, fs: seq<Frame>, e: TypedExpr, views: ViewOrders)
    requires e.WellFormed() && Predicted(e, views) && ViewsHold(env, fs, views)
    ensures CellDelivers(OrderOf(e, views), Eval(lang, env, fs, e))
    ensures StreamDelivers(OrderOf(e, views), EvalView(lang, env, fs, e))
  {
    var order := OrderOf(e, views);
    if e.op.Project? {
      ProjectDelivers(lang, env, fs, e, views);
    } else if e.op.SelectBind? {
      DeliveredInOrder(lang, env, fs, e.kids[0], views);
      FilterDelivers(lang, env, fs, e, order);
    } else {
      if e.op.Combine? {
        DeliveredInOrder(lang, env, fs, e.kids[0], views);
        CombineDelivers(lang, env, fs, e, order);
      } else if e.op.Ternary? {
        DeliveredInOrder(lang, env, fs, e.kids[1], views);
        DeliveredInOrder(lang, env, fs, e.kids[2], views);
        BranchesDeliver(lang, env, fs, e, 1, 2, views);
      } else if e.op.Fallback? {
        DeliveredInOrder(lang, env, fs, e.kids[0], views);
        DeliveredInOrder(lang, env, fs, e.kids[1], views);
        BranchesDeliver(lang, env, fs, e, 0, 1, views);
      }
      if e.op.Field? { FieldDelivers(lang, env, fs, e, views); }
      var cell := Eval(lang, env, fs, e);
      if cell.Ok? { AsViewDelivers(order, cell.value); }
    }
  }

  lemma FieldDelivers(lang: Lang, env: Env, fs: seq<Frame>, e: TypedExpr, views: ViewOrders)
    requires e.WellFormed() && e.op.Field? && Predicted(e, views) && ViewsHold(env, fs, views)
    ensures CellDelivers(OrderOf(e, views), Eval(lang, env, fs, e))
  {
    var base := Eval(lang, env, fs, e.kids[0]);
    assert base == EvalLeaf(env, fs, e.kids[0].op);
    if base.Ok? && base.value.RowCell? {
      assert HoldsViews(base.value.row, views);
    }
  }

  lemma ProjectDelivers(lang: Lang, env: Env, fs: seq<Frame>, e: TypedExpr, views: ViewOrders)
    requires e.WellFormed() && e.op.Project? && e.op.descending != []
    ensures CellDelivers(OrderOf(e, views), Eval(lang, env, fs, e))
    ensures StreamDelivers(OrderOf(e, views), EvalView(lang, env, fs, e))
  {
    var scopes := EvalView(lang, env, fs, e.kids[0]);
    if scopes.Ok? { ProjectSorts(lang, env, fs, e, scopes.value); }
    ProjectedStream(lang, env, fs, e, SortOrder(e.op.descending));
    ProjectedCell(lang, env, fs, e, SortOrder(e.op.descending));
  }

  ghost predicate RowsDeliver(order: SortOrder, rows: Result<seq<Row>>) { rows.Ok? ==> Delivers(order, rows.value) }

  lemma ProjectedStream(lang: Lang, env: Env, fs: seq<Frame>, e: TypedExpr, order: SortOrder)
    requires e.WellFormed() && e.op.Project?
    requires var scopes := EvalView(lang, env, fs, e.kids[0]);
      scopes.Ok? ==> RowsDeliver(order, ProjectScopes(lang, env, fs, e, scopes.value))
    ensures StreamDelivers(order, EvalView(lang, env, fs, e))
  {
    var scopes := EvalView(lang, env, fs, e.kids[0]);
    if scopes.Ok? {
      var rows := ProjectScopes(lang, env, fs, e, scopes.value);
      if rows.Ok? { assert RowsOf(BareAll(rows.value)) == rows.value; }
    }
  }

  lemma ProjectedCell(lang: Lang, env: Env, fs: seq<Frame>, e: TypedExpr, order: SortOrder)
    requires e.WellFormed() && e.op.Project?
    requires var scopes := EvalView(lang, env, fs, e.kids[0]);
      scopes.Ok? ==> RowsDeliver(order, ProjectScopes(lang, env, fs, e, scopes.value))
    ensures CellDelivers(order, Eval(lang, env, fs, e))
  {
    assert Eval(lang, env, fs, e) == EvalStream(lang, env, fs, e);
  }

  lemma FilterDelivers(lang: Lang, env: Env, fs: seq<Frame>, e: TypedExpr, order: SortOrder)
    requires e.WellFormed() && e.op.SelectBind?
    requires CellDelivers(order, Eval(lang, env, fs, e.kids[0]))
    requires StreamDelivers(order, EvalView(lang, env, fs, e.kids[0]))
    ensures CellDelivers(order, Eval(lang, env, fs, e))
    ensures StreamDelivers(order, EvalView(lang, env, fs, e))
  {
    var source := Eval(lang, env, fs, e.kids[0]);
    if source.Ok? && !source.value.Scalar? {
      var rows := if source.value.Collection? then source.value.rows else [source.value.row];
      FilterIsSub(lang, env, fs, e, rows);
      var kept := FilterRows(lang, env, fs, e, rows);
      assert Delivers(order, rows);
      if kept.Ok? { SubDelivers(order, kept.value, rows); }
      assert SelectRows(lang, env, fs, e) == kept;
    } else {
      assert SelectRows(lang, env, fs, e).Err?;
    }
    var selected := SelectRows(lang, env, fs, e);
    assert selected.Ok? ==> Delivers(order, selected.value);
    assert Eval(lang, env, fs, e) == EvalStream(lang, env, fs, e);
    assert EvalStream(lang, env, fs, e) ==
      if selected.Err? then Err(selected.error)
      else if e.ty.RowType? then ExactlyOne(selected.value, ScalarRowSelector) else Ok(Collection(selected.value));
    var scopes := EvalView(lang, env, fs, e.kids[0]);
    if scopes.Ok? {
      BindIsSub(lang, env, fs, e, scopes.value);
      var kept := BindScopes(lang, env, fs, e, scopes.value);
      if kept.Ok? { SubDelivers(order, RowsOf(kept.value), RowsOf(scopes.value)); }
    }
  }

  lemma CombineDelivers(lang: Lang, env: Env, fs: seq<Frame>, e: TypedExpr, order: SortOrder)
    requires e.WellFormed() && e.op.Combine? && e.op.combine != Union
    requires StreamDelivers(order, EvalView(lang, env, fs, e.kids[0]))
    ensures CellDelivers(order, Eval(lang, env, fs, e))
  {
    var left, right := EvalView(lang, env, fs, e.kids[0]), EvalView(lang, env, fs, e.kids[1]);
    if left.Ok? && right.Ok? {
      var inside := e.op.combine == Intersect;
      KeepIsSub(left.value, Ids(right.value), inside);
      SubDelivers(order, Keep(left.value, Ids(right.value), inside), RowsOf(left.value));
    }
    assert Eval(lang, env, fs, e) == EvalStream(lang, env, fs, e);
  }

  lemma BranchesDeliver(lang: Lang, env: Env, fs: seq<Frame>, e: TypedExpr, a: nat, b: nat, views: ViewOrders)
    requires e.WellFormed() && ((e.op.Ternary? && a == 1 && b == 2) || (e.op.Fallback? && a == 0 && b == 1))
    requires BranchesPredicted(e, a, b, views)
    requires CellDelivers(OrderOf(e.kids[a], views), Eval(lang, env, fs, e.kids[a]))
    requires CellDelivers(OrderOf(e.kids[b], views), Eval(lang, env, fs, e.kids[b]))
    ensures CellDelivers(OrderOf(e, views), Eval(lang, env, fs, e))
  {
    assert Eval(lang, env, fs, e) == EvalControl(lang, env, fs, e);
    assert e.kids[a].op.EmptyView? ==> Eval(lang, env, fs, e.kids[a]) == Ok(Collection([]));
    assert e.kids[b].op.EmptyView? ==> Eval(lang, env, fs, e.kids[b]) == Ok(Collection([]));
  }

  // ---- the gap -----------------------------------------------------------

  lemma PrefixOf(order: SortOrder, rows: seq<Row>, keys: seq<Value>, id: RowId) returns (cut: nat)
    requires Delivers(order, rows) && |keys| == |order.descending|
    ensures SplitsAt(order, rows, keys, id, cut)
  {
    if order.Ranks(rows) {
      cut := BeforeIsAPrefix(order, rows, keys, id);
    } else {
      cut := if order.IsBefore(rows[0].sort, rows[0].id, keys, id) then 1 else 0;
    }
  }

  /** What a predicted expression delivers, as a view and as a value, is split by every
      gap coordinate: under the predicted order the rows before it are exactly a prefix. */
  lemma GapSplitsDelivery(lang: Lang, env: Env, fs: seq<Frame>, e: TypedExpr, views: ViewOrders, keys: seq<Value>, id: RowId)
    returns (viewCut: nat, valueCut: nat)
    requires e.WellFormed() && Predicted(e, views) && ViewsHold(env, fs, views)
    requires |keys| == |OrderOf(e, views).descending|
    ensures EvalView(lang, env, fs, e).Ok? ==>
      SplitsAt(OrderOf(e, views), RowsOf(EvalView(lang, env, fs, e).value), keys, id, viewCut)
    ensures var cell := Eval(lang, env, fs, e);
      cell.Ok? && cell.value.Collection? ==> SplitsAt(OrderOf(e, views), cell.value.rows, keys, id, valueCut)
  {
    DeliveredInOrder(lang, env, fs, e, views);
    var order := OrderOf(e, views);
    viewCut, valueCut := 0, 0;
    if EvalView(lang, env, fs, e).Ok? {
      viewCut := PrefixOf(order, RowsOf(EvalView(lang, env, fs, e).value), keys, id);
    }
    var cell := Eval(lang, env, fs, e);
    if cell.Ok? && cell.value.Collection? {
      valueCut := PrefixOf(order, cell.value.rows, keys, id);
    }
  }

  /** Of two delivered rows the later one never comes before the earlier; where their sort
      tuples are equal, their identities ascend, whatever the directions of the keys. */
  ghost predicate Ascends(descending: seq<bool>, rows: seq<Row>) {
    forall i, j :: 0 <= i < j < |rows| ==>
      && ((rows[i].sort == rows[j].sort && rows[i].id == rows[j].id)
          || RowBefore(descending, rows[i].sort, rows[i].id, rows[j].sort, rows[j].id))
      && (rows[i].sort == rows[j].sort ==> rows[i].id == rows[j].id || IdBefore(rows[i].id, rows[j].id))
  }

  lemma DeliversAscending(order: SortOrder, rows: seq<Row>)
    requires Delivers(order, rows)
    ensures Ascends(order.descending, rows)
  {
    forall i, j | 0 <= i < j < |rows|
      ensures (rows[i].sort == rows[j].sort && rows[i].id == rows[j].id)
           || RowBefore(order.descending, rows[i].sort, rows[i].id, rows[j].sort, rows[j].id)
      ensures rows[i].sort == rows[j].sort ==> rows[i].id == rows[j].id || IdBefore(rows[i].id, rows[j].id)
    {
      SortedAscend(order, rows, i, j);
    }
  }

  /** A predicted expression delivers its rows ascending in that sense. */
  lemma DeliveryAscends(lang: Lang, env: Env, fs: seq<Frame>, e: TypedExpr, views: ViewOrders)
    requires e.WellFormed() && Predicted(e, views) && ViewsHold(env, fs, views)
    ensures var stream := EvalView(lang, env, fs, e);
      stream.Ok? ==> Ascends(OrderOf(e, views).descending, RowsOf(stream.value))
    ensures var cell := Eval(lang, env, fs, e);
      cell.Ok? && cell.value.Collection? ==> Ascends(OrderOf(e, views).descending, cell.value.rows)
  {
    DeliveredInOrder(lang, env, fs, e, views);
    var stream, cell := EvalView(lang, env, fs, e), Eval(lang, env, fs, e);
    if stream.Ok? { DeliversAscending(OrderOf(e, views), RowsOf(stream.value)); }
    if cell.Ok? && cell.value.Collection? { DeliversAscending(OrderOf(e, views), cell.value.rows); }
  }

  /** The rows before the coordinate are the first `cut`. */
  ghost predicate SplitsAt(order: SortOrder, rows: seq<Row>, keys: seq<Value>, id: RowId, cut: nat) {
    && cut <= |rows|
    && forall i :: 0 <= i < |rows| ==> (order.IsBefore(rows[i].sort, rows[i].id, keys, id) <==> i < cut)
  }
}
