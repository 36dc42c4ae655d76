/** The evaluator (liasse-expr, eval/): every branch and error condition of the source,
    over primitives and an environment that stay arbitrary functions. */
module Evaluator {
  import opened Values
  import opened Rows
  import opened TypedExprs
  import opened Order

  datatype Rounding = HalfAwayFromZero | Declared(mode: nat)

  datatype TemporalQuery = AtInstant(t: int) | BetweenInstants(a: int, b: int) | AllExtant

  /** What the runtime supplies (env.rs). Every member is a pure lookup. */
  datatype Env = Env(
    root: Row,
    param: string -> Option<Cell>,
    structural: string -> Option<Cell>,
    imports: string -> Option<Cell>,
    binding: string -> Option<Cell>,
    now: int,
    uuid: nat -> Value,
    rounding: Rounding,
    temporal: (seq<Row>, Option<string>, TemporalQuery) -> Result<seq<Row>>,
    temporalByName: (string, TemporalQuery) -> Option<seq<Row>>,
    keyring: (seq<Row>, KeyringSelector) -> Result<seq<Row>>,
    placement: (Value, TypedExprs.BlobMember) -> Result<Cell>,
    host: (string, string, seq<Value>) -> Result<Value>)

  /** The language's own pure primitives, uninterpreted. */
  datatype Lang = Lang(
    arith: (ArithOp, NumClass, Value, Value, Rounding) -> Result<Value>,
    neg: (NumClass, Value) -> Result<Value>,
    compare: (Value, Value) -> Ordering,
    identity: Value -> Value,
    builtin: (BuiltinFn, Cell) -> Result<Value>,
    aggregate: (AggFunc, seq<Value>, ExprType, Rounding) -> Result<Value>,
    metadata: (Value, TypedExprs.BlobMember) -> Value,
    structOf: (seq<string>, seq<Value>) -> Value)

  /** One evaluation frame: the current `.` and the bindings visible in it. */
  datatype Frame = Frame(current: Cell, bindings: map<string, Cell>)

  /** A row with the bindings and the source-chain identity it was reached under. */
  datatype RowScope = RowScope(row: Row, binds: seq<(string, Cell)>, identity: RowId)

  function Bare(row: Row): RowScope { RowScope(row, [], row.id) }

  function BareAll(rows: seq<Row>): seq<RowScope> { seq(|rows|, i requires 0 <= i < |rows| => Bare(rows[i])) }

  function RowsOf(scopes: seq<RowScope>): seq<Row> {
    seq(|scopes|, i requires 0 <= i < |scopes| => scopes[i].row)
  }

  // ---- frames ------------------------------------------------------------

  function CurrentAt(fs: seq<Frame>, depth: nat): Result<Cell> {
    if depth < |fs| then Ok(fs[|fs| - 1 - depth].current)
    else Err(ShapeMismatch(ExpectedCurrent))
  }

  function Lookup(fs: seq<Frame>, name: string): Option<Cell> {
    if fs == [] then None
    else
      var top := fs[|fs| - 1];
      if name in top.bindings then Some(top.bindings[name]) else Lookup(fs[..|fs| - 1], name)
  }

  /** The `$name` cell of the nearest enclosing row that has one. */
  function RowStructural(fs: seq<Frame>, name: string): Option<Cell> {
    if fs == [] then None
    else
      var top := fs[|fs| - 1].current;
      if top.RowCell? && "$" + name in top.row.cells then Some(top.row.cells["$" + name])
      else RowStructural(fs[..|fs| - 1], name)
  }

  function Required(cell: Option<Cell>, kind: NameKind, name: string): Result<Cell> {
    match cell case Some(c) => Ok(c) case None => Err(UnboundName(kind, name))
  }

  function BindAll(bindings: map<string, Cell>, binds: seq<(string, Cell)>): map<string, Cell>
    decreases |binds|
  {
    if binds == [] then bindings else BindAll(bindings[binds[0].0 := binds[0].1], binds[1..])
  }

  function BindNames(binds: seq<(string, Cell)>): set<string> {
    set i | 0 <= i < |binds| :: binds[i].0
  }

  // ---- values ------------------------------------------------------------

  /** What a position that needs a scalar makes of another cell. */
  datatype Need = AScalar(expected: Expected) | AScalarOrKey(expected: Expected) | AnInstant

  function ToValue(cell: Cell, need: Need): Result<Value> {
    match need
    case AScalar(expected) => if cell.Scalar? then Ok(cell.value) else Err(ShapeMismatch(expected))
    case AScalarOrKey(expected) =>
      (match cell
       case Scalar(v) => Ok(v)
       case RowCell(row) => Ok(row.key)
       case Collection(_) => Err(ShapeMismatch(expected)))
    case AnInstant =>
      if cell.Scalar? && cell.value.Timestamp? then Ok(cell.value)
      else Err(ShapeMismatch(ExpectedInstant))
  }

  predicate IsTrue(cell: Cell) { cell == Scalar(Bool(true)) }

  function FieldOf(cell: Cell, name: string): Result<Cell> {
    if cell.RowCell? then
      if name in cell.row.cells then Ok(cell.row.cells[name]) else Err(ShapeMismatch(ExpectedRowWithField))
    else if cell.Scalar? && cell.value.Struct? then
      match StructField(cell.value.fields, name)
      case Some(v) => Ok(Scalar(v))
      case None => Err(ShapeMismatch(ExpectedStructWithField))
    else Err(ShapeMismatch(ExpectedRow))
  }

  function StructField(fields: seq<Values.Field>, name: string): Option<Value> {
    if fields == [] then None
    else if fields[0].name == name then Some(fields[0].value)
    else StructField(fields[1..], name)
  }

  /** A composite key operand in `$key` order. */
  function KeyTuple(order: seq<string>, v: Value): Value {
    match v
    case Struct(fields) =>
      Composite(seq(|order|, i requires 0 <= i < |order| =>
        match StructField(fields, order[i]) case Some(x) => x case None => NoneValue))
    case _ => v
  }

  function Verdict(op: CmpOp, o: Ordering): bool {
    match op
    case Eq => o == Equal
    case Ne => o != Equal
    case Lt => o == Less
    case Le => o != Greater
    case Gt => o == Greater
    case Ge => o != Less
  }

  predicate KeyMatches(lang: Lang, rowKey: Value, wanted: Value) {
    lang.identity(rowKey) == lang.identity(wanted)
  }

  function WithKey(lang: Lang, rows: seq<Row>, wanted: Value): seq<Row> {
    if rows == [] then []
    else (if KeyMatches(lang, rows[0].key, wanted) then [rows[0]] else []) + WithKey(lang, rows[1..], wanted)
  }

  /** The rows each wanted key selects, in operand order; a set contributes its members. */
  function WithKeys(lang: Lang, rows: seq<Row>, wanted: seq<Value>): seq<Row> {
    if wanted == [] then []
    else
      (if wanted[0].Set? then WithEach(lang, rows, wanted[0].members) else WithKey(lang, rows, lang.identity(wanted[0])))
      + WithKeys(lang, rows, wanted[1..])
  }

  function WithEach(lang: Lang, rows: seq<Row>, members: seq<Value>): seq<Row> {
    if members == [] then []
    else WithKey(lang, rows, lang.identity(members[0])) + WithEach(lang, rows, members[1..])
  }

  function Member(lang: Lang, value: Value, haystack: Cell): Result<Cell> {
    if haystack.Scalar? && haystack.value.Set? then Ok(Scalar(Bool(value in haystack.value.members)))
    else if haystack.Collection? then
      Ok(Scalar(Bool(exists i :: 0 <= i < |haystack.rows| && KeyMatches(lang, haystack.rows[i].key, value))))
    else Err(ShapeMismatch(ExpectedSetOrView))
  }

  /** The values an aggregate folds: absent inputs are skipped. */
  function FieldValues(scopes: seq<RowScope>, field: string): Result<seq<Value>> {
    if scopes == [] then Ok([])
    else
      var cells := scopes[0].row.cells;
      if field !in cells || cells[field] == Scalar(NoneValue) then FieldValues(scopes[1..], field)
      else if !cells[field].Scalar? then Err(ShapeMismatch(ExpectedScalarField))
      else
        var rest :- FieldValues(scopes[1..], field);
        Ok([cells[field].value] + rest)
  }

  function AggregateOf(lang: Lang, env: Env, ty: ExprType, func: AggFunc, field: Option<string>, scopes: seq<RowScope>)
    : Result<Cell>
  {
    if func == Count then Ok(Scalar(Int(|scopes|)))
    else if field.None? then Err(ShapeMismatch(ExpectedAggregatedField))
    else
      var values :- FieldValues(scopes, field.value);
      var v :- lang.aggregate(func, values, ty, if func == Avg then env.rounding else HalfAwayFromZero);
      Ok(Scalar(v))
  }

  // ---- views -------------------------------------------------------------

  function Ids(scopes: seq<RowScope>): set<RowId> {
    set i | 0 <= i < |scopes| :: scopes[i].identity
  }

  /** The rows of `scopes` whose identity is in `ids` (or is not). */
  function Keep(scopes: seq<RowScope>, ids: set<RowId>, inside: bool): seq<Row> {
    if scopes == [] then []
    else (if (scopes[0].identity in ids) == inside then [scopes[0].row] else []) + Keep(scopes[1..], ids, inside)
  }

  /** The right rows a union appends: those whose identity has not been seen. */
  function Unseen(scopes: seq<RowScope>, seen: set<RowId>): seq<Row> {
    if scopes == [] then []
    else if scopes[0].identity in seen then Unseen(scopes[1..], seen)
    else [scopes[0].row] + Unseen(scopes[1..], seen + {scopes[0].identity})
  }

  function CombineRows(op: CombineOp, left: seq<RowScope>, right: seq<RowScope>): seq<Row> {
    match op
    case Union => RowsOf(left) + Unseen(right, Ids(left))
    case Intersect => Keep(left, Ids(right), true)
    case Difference => Keep(left, Ids(right), false)
  }

  function Inner(scope: RowScope, baseName: Option<string>, member: string, rows: seq<Row>): seq<RowScope> {
    seq(|rows|, i requires 0 <= i < |rows| =>
      RowScope(rows[i],
               scope.binds
               + (if baseName.Some? then [(baseName.value, RowCell(scope.row))] else [])
               + [(member, RowCell(rows[i]))],
               scope.identity + rows[i].id))
  }

  /** Flatten `member` across the outer rows. */
  function Flatten(outer: seq<RowScope>, baseName: Option<string>, member: string): Result<seq<RowScope>> {
    if outer == [] then Ok([])
    else
      var cells := outer[0].row.cells;
      if member !in cells then Flatten(outer[1..], baseName, member)
      else if !cells[member].Collection? then Err(ShapeMismatch(ExpectedNestedCollection))
      else
        var rest :- Flatten(outer[1..], baseName, member);
        Ok(Inner(outer[0], baseName, member, cells[member].rows) + rest)
  }

  function Bound(rows: seq<Row>, skip: Option<nat>, limit: Option<nat>): seq<Row> {
    var from := if skip.Some? then skip.value else 0;
    var rest := if from <= |rows| then rows[from..] else [];
    if limit.Some? && limit.value < |rest| then rest[..limit.value] else rest
  }

  /** Order ranked rows and attach their sort tuples; without a sort the stream order
      and the empty tuple stay. */
  function Ordered(descending: seq<bool>, ranked: seq<Ranked>): seq<Row> {
    if descending == [] then seq(|ranked|, i requires 0 <= i < |ranked| => ranked[i].row)
    else
      var sorted := SortRanked(SortOrder(descending), ranked);
      seq(|sorted|, i requires 0 <= i < |sorted| => sorted[i].row.(sort := sorted[i].keys))
  }

  datatype Group = Group(key: seq<Value>, members: seq<RowScope>)

  /** Add one row to its group, keeping groups ascending by key. */
  function AddToGroup(groups: seq<Group>, key: seq<Value>, scope: RowScope): seq<Group> {
    if groups == [] then [Group(key, [scope])]
    else match CmpValues(key, groups[0].key)
      case Less => [Group(key, [scope])] + groups
      case Equal => [Group(key, groups[0].members + [scope])] + groups[1..]
      case Greater => [groups[0]] + AddToGroup(groups[1..], key, scope)
  }

  function Grouped(scopes: seq<RowScope>, keys: seq<seq<Value>>): seq<Group>
    requires |scopes| == |keys|
  {
    if scopes == [] then []
    else AddToGroup(Grouped(scopes[..|scopes| - 1], keys[..|keys| - 1]), keys[|keys| - 1], scopes[|scopes| - 1])
  }

  function SyntheticKey(key: seq<Value>): Value {
    if |key| == 1 then key[0] else Composite(key)
  }

  /** The frame of one projected row: the row is `.`, its source-chain bindings and the
      group are in scope. */
  function ProjectFrame(scope: RowScope, group: Option<Cell>): Frame {
    var bound := BindAll(map[], scope.binds);
    Frame(RowCell(scope.row), if group.Some? then bound["group" := group.value] else bound)
  }

  /** The names an output never shadows. */
  function LoopBinds(scope: RowScope, group: Option<Cell>): set<string> {
    BindNames(scope.binds) + (if group.Some? then {"group"} else {})
  }

  function BindOutput(frame: Frame, loop: set<string>, name: string, cell: Cell): Frame {
    if name in loop then frame else frame.(bindings := frame.bindings[name := cell])
  }

  /** The frame of the sort keys: the projected cells are visible too. */
  function SortFrame(scope: RowScope, group: Option<Cell>, projected: Row): Frame {
    var frame := ProjectFrame(scope, group);
    var loop := LoopBinds(scope, group);
    frame.(bindings := frame.bindings + (map n | n in projected.cells && n !in loop :: projected.cells[n]))
  }

  function GroupKeyOf(key: seq<string>, values: map<string, Cell>): seq<Value> {
    if key == [] then []
    else (if key[0] in values && values[key[0]].Scalar? then [values[key[0]].value] else [])
         + GroupKeyOf(key[1..], values)
  }

  function AsView(cell: Cell): Result<seq<RowScope>> {
    match cell
    case Collection(rows) => Ok(BareAll(rows))
    case RowCell(row) => Ok([Bare(row)])
    case Scalar(_) => Err(ShapeMismatch(ExpectedView))
  }

  function GroupCell(group: Group): Cell { Collection(RowsOf(group.members)) }

  function ExactlyOne(rows: seq<Row>, context: Selection): Result<Cell> {
    if |rows| == 1 then Ok(RowCell(rows[0])) else Err(Cardinality(context, |rows|))
  }

  // ---- the evaluator -----------------------------------------------------

  /** How a node's operands are consumed. */
  datatype Shape =
    | Leaf               // no operand
    | Strict(need: Need) // every operand in order, each as a value
    | OnBase             // the first operand as a cell
    | Control            // operands on demand
    | Stream             // operands as row streams

  function ShapeOf(op: Op): Shape {
    match op
    case Literal(_) | Root | Current | Parent(_) | Param(_) | Structural(_) | Import(_)
       | ScopeBinding(_) | LocalBinding(_) | EmptyView | Now | Uuid(_) => Leaf
    case Neg(_) | Not | CompositeKey(_) | Arith(_, _) | Compare(_) => Strict(AScalar(ExpectedScalar))
    case List => Strict(AScalar(ExpectedListElement))
    case StructOf(_) => Strict(AScalar(ExpectedStructField))
    case HostCall(_, _) => Strict(AScalarOrKey(ExpectedHostArgument))
    case Field(_) | Key | BlobMember(_) => OnBase
    case Logic(_) | In | Fallback | Ternary | Builtin(_) => Control
    case Traverse(_) | Keyring(_) | Aggregate(_, _) | Combine(_) | SelectKeys | SelectBind(_, _)
       | Temporal(_) | Project(_, _, _, _, _, _) => Stream
  }

  function EvalLeaf(env: Env, fs: seq<Frame>, op: Op): Result<Cell>
    requires ShapeOf(op).Leaf?
  {
    match op
    case Literal(v) => Ok(Scalar(v))
    case Root => Ok(RowCell(env.root))
    case Current => CurrentAt(fs, 0)
    case Parent(depth) => CurrentAt(fs, depth)
    case Param(name) => Required(env.param(name), AParameter, name)
    case Structural(name) =>
      if env.structural(name).Some? then Ok(env.structural(name).value)
      else Required(RowStructural(fs, name), AStructural, name)
    case Import(name) => Required(env.imports(name), AnImport, name)
    case ScopeBinding(name) => Required(env.binding(name), ABinding, name)
    case LocalBinding(name) => Required(Lookup(fs, name), ABinding, name)
    case EmptyView => Ok(Collection([]))
    case Now => Ok(Scalar(Timestamp(env.now)))
    case Uuid(site) => Ok(Scalar(env.uuid(site)))
  }

  /** Only decimal division and `avg` divide under the declared rounding mode. */
  predicate ReadsRounding(op: Op) {
    (op.Arith? && op.op == Div && op.cls == DecimalClass) || (op.Aggregate? && op.func == Avg)
  }

  function OnValues(lang: Lang, env: Env, op: Op, vs: seq<Value>): Result<Value>
    requires ShapeOf(op).Strict? && (Arity(op).Some? ==> |vs| == Arity(op).value)
  {
    match op
    case Neg(cls) => lang.neg(cls, vs[0])
    case Not => Ok(Bool(vs[0] != Bool(true)))
    case CompositeKey(order) => Ok(KeyTuple(order, vs[0]))
    case Arith(arith, cls) =>
      lang.arith(arith, cls, vs[0], vs[1], if ReadsRounding(op) then env.rounding else HalfAwayFromZero)
    case Compare(cmp) => Ok(Bool(Verdict(cmp, lang.compare(vs[0], vs[1]))))
    case List => Ok(Set(SetOf(vs)))
    case StructOf(names) => Ok(lang.structOf(names, vs))
    case HostCall(namespace, function_) => env.host(namespace, function_, vs)
  }

  function OnCell(lang: Lang, env: Env, op: Op, base: Cell): Result<Cell>
    requires ShapeOf(op).OnBase?
  {
    match op
    case Field(name) => FieldOf(base, name)
    case Key => if base.RowCell? then Ok(Scalar(base.row.key)) else Err(ShapeMismatch(ExpectedKeyedRow))
    case BlobMember(member) =>
      if !(base.Scalar? && base.value.Other? && base.value.kind == Blob) then Err(ShapeMismatch(ExpectedBlob))
      else if member in {Satisfied, Stored, Surplus} then env.placement(base.value, member)
      else Ok(Scalar(lang.metadata(base.value, member)))
  }

  function Eval(lang: Lang, env: Env, fs: seq<Frame>, e: TypedExpr): Result<Cell>
    requires e.WellFormed()
    decreases e, 5, 0
  {
    match ShapeOf(e.op)
    case Leaf => EvalLeaf(env, fs, e.op)
    case Strict(need) =>
      var vs :- EvalEach(lang, env, fs, e, 0, |e.kids|, need);
      var v :- OnValues(lang, env, e.op, vs);
      Ok(Scalar(v))
    case OnBase =>
      var base :- Eval(lang, env, fs, e.kids[0]);
      OnCell(lang, env, e.op, base)
    case Control => EvalControl(lang, env, fs, e)
    case Stream => EvalStream(lang, env, fs, e)
  }

  function EvalControl(lang: Lang, env: Env, fs: seq<Frame>, e: TypedExpr): Result<Cell>
    requires e.WellFormed() && ShapeOf(e.op).Control?
    decreases e, 4, 0
  {
    match e.op
    case Logic(op) =>
      var l :- EvalEach(lang, env, fs, e, 0, 1, AScalar(ExpectedScalar));
      var left := l[0] == Bool(true);
      if op == And && !left then Ok(Scalar(Bool(false)))
      else if op == Or && left then Ok(Scalar(Bool(true)))
      else
        var r :- EvalEach(lang, env, fs, e, 1, 2, AScalar(ExpectedScalar));
        Ok(Scalar(Bool(r[0] == Bool(true))))
    case In =>
      var v :- EvalEach(lang, env, fs, e, 0, 1, AScalarOrKey(ExpectedScalarOrRow));
      var haystack :- Eval(lang, env, fs, e.kids[1]);
      Member(lang, v[0], haystack)
    case Fallback =>
      var value :- Eval(lang, env, fs, e.kids[0]);
      if value == Collection([]) || value == Scalar(NoneValue) then Eval(lang, env, fs, e.kids[1]) else Ok(value)
    case Ternary =>
      var c :- EvalEach(lang, env, fs, e, 0, 1, AScalar(ExpectedScalar));
      if c[0] == Bool(true) then Eval(lang, env, fs, e.kids[1]) else Eval(lang, env, fs, e.kids[2])
    case Builtin(func) =>
      if e.kids == [] then Err(ShapeMismatch(ExpectedArgument))
      else
        var arg :- Eval(lang, env, fs, e.kids[0]);
        var v :- lang.builtin(func, arg);
        Ok(Scalar(v))
  }

  function EvalStream(lang: Lang, env: Env, fs: seq<Frame>, e: TypedExpr): Result<Cell>
    requires e.WellFormed() && ShapeOf(e.op).Stream?
    decreases e, 4, 0
  {
    match e.op
    case Traverse(_) =>
      var scopes :- EvalTraverse(lang, env, fs, e);
      Ok(Collection(RowsOf(scopes)))
    case Keyring(selector) =>
      var scopes :- EvalView(lang, env, fs, e.kids[0]);
      var versions :- env.keyring(RowsOf(scopes), selector);
      if e.ty.RowType? then ExactlyOne(versions, ActiveKeyringVersion) else Ok(Collection(versions))
    case Aggregate(func, field) =>
      var scopes :- EvalView(lang, env, fs, e.kids[0]);
      AggregateOf(lang, env, e.ty, func, field, scopes)
    case Combine(op) =>
      var left :- EvalView(lang, env, fs, e.kids[0]);
      var right :- EvalView(lang, env, fs, e.kids[1]);
      Ok(Collection(CombineRows(op, left, right)))
    case SelectKeys | SelectBind(_, _) =>
      var rows :- SelectRows(lang, env, fs, e);
      if e.ty.RowType? then ExactlyOne(rows, ScalarRowSelector) else Ok(Collection(rows))
    case Temporal(_) => EvalTemporal(lang, env, fs, e)
    case Project(_, _, _, _, _, _) =>
      if e.ty.RowType? then
        var source :- Eval(lang, env, fs, e.kids[0]);
        if !source.RowCell? then Err(ShapeMismatch(ExpectedRow))
        else
          var row :- ProjectRow(lang, env, fs, e, Bare(source.row), None);
          Ok(RowCell(row))
      else
        var scopes :- EvalView(lang, env, fs, e.kids[0]);
        var rows :- ProjectScopes(lang, env, fs, e, scopes);
        Ok(Collection(rows))
  }

  function QueryOf(form: TemporalForm, instants: seq<Value>): TemporalQuery
    requires Arity(Temporal(form)) == Some(|instants| + 1)
    requires forall i :: 0 <= i < |instants| ==> instants[i].Timestamp?
  {
    match form
    case At => AtInstant(instants[0].ticks)
    case Between => BetweenInstants(instants[0].ticks, instants[1].ticks)
    case All => AllExtant
  }

  function EvalTemporal(lang: Lang, env: Env, fs: seq<Frame>, e: TypedExpr): Result<Cell>
    requires e.WellFormed() && e.op.Temporal?
    decreases e, 3, 0
  {
    var instants :- EvalEach(lang, env, fs, e, 1, |e.kids|, AnInstant);
    if e.op.form == Between && instants[1].ticks <= instants[0].ticks then Err(EmptyTemporalRange)
    else Recovered(lang, env, fs, e, QueryOf(e.op.form, instants))
  }

  /** By the base's name where the index has one, else by the identities of its rows. */
  function Recovered(lang: Lang, env: Env, fs: seq<Frame>, e: TypedExpr, query: TemporalQuery): Result<Cell>
    requires e.WellFormed() && e.op.Temporal?
    decreases e, 2, 0
  {
    var name := BindNameOf(e.kids[0]);
    if name.Some? && env.temporalByName(name.value, query).Some? then
      var scopes :- Rebase(lang, env, fs, e.kids[0], env.temporalByName(name.value, query).value);
      Ok(Collection(RowsOf(scopes)))
    else
      var scopes :- EvalView(lang, env, fs, e.kids[0]);
      var rows :- env.temporal(RowsOf(scopes), name, query);
      Ok(Collection(rows))
  }

  /** Operands `from` up to `to`, each as a value. */
  function EvalEach(lang: Lang, env: Env, fs: seq<Frame>, e: TypedExpr, from: nat, to: nat, need: Need)
    : (r: Result<seq<Value>>)
    requires e.WellFormed() && from <= to <= |e.kids|
    ensures r.Ok? ==> |r.value| == to - from
    ensures r.Ok? && need == AnInstant ==> forall i :: 0 <= i < |r.value| ==> r.value[i].Timestamp?
    decreases e, 0, to - from
  {
    if from == to then Ok([])
    else
      var cell :- Eval(lang, env, fs, e.kids[from]);
      var v :- ToValue(cell, need);
      var rest :- EvalEach(lang, env, fs, e, from + 1, to, need);
      Ok([v] + rest)
  }

  /** A view expression as a stream of rows with their binding context. */
  function EvalView(lang: Lang, env: Env, fs: seq<Frame>, e: TypedExpr): Result<seq<RowScope>>
    requires e.WellFormed()
    decreases e, 6, 0
  {
    if e.op.Traverse? then EvalTraverse(lang, env, fs, e)
    else if e.op.SelectBind? then
      var scopes :- EvalView(lang, env, fs, e.kids[0]);
      BindScopes(lang, env, fs, e, scopes)
    else if e.op.SelectKeys? then
      var rows :- SelectRows(lang, env, fs, e);
      Ok(BareAll(rows))
    else if e.op.Project? then
      var scopes :- EvalView(lang, env, fs, e.kids[0]);
      var rows :- ProjectScopes(lang, env, fs, e, scopes);
      Ok(BareAll(rows))
    else
      var cell :- Eval(lang, env, fs, e);
      AsView(cell)
  }

  function EvalTraverse(lang: Lang, env: Env, fs: seq<Frame>, e: TypedExpr): Result<seq<RowScope>>
    requires e.WellFormed() && e.op.Traverse?
    decreases e, 1, 0
  {
    var outer :- EvalView(lang, env, fs, e.kids[0]);
    Flatten(outer, BindNameOf(e.kids[0]), e.op.member)
  }

  function SelectRows(lang: Lang, env: Env, fs: seq<Frame>, e: TypedExpr): Result<seq<Row>>
    requires e.WellFormed() && (e.op.SelectKeys? || e.op.SelectBind?)
    decreases e, 2, 0
  {
    var source :- Eval(lang, env, fs, e.kids[0]);
    if source.Scalar? then Err(ShapeMismatch(ExpectedCollection))
    else
      var rows := if source.Collection? then source.rows else [source.row];
      if e.op.SelectKeys? then
        var keys :- EvalEach(lang, env, fs, e, 1, |e.kids|, AScalar(ExpectedScalarKey));
        Ok(WithKeys(lang, rows, keys))
      else FilterRows(lang, env, fs, e, rows)
  }

  /** `[:name | condition]` outside a view position: `.` is the row under test. */
  function FilterRows(lang: Lang, env: Env, fs: seq<Frame>, e: TypedExpr, rows: seq<Row>): Result<seq<Row>>
    requires e.WellFormed() && e.op.SelectBind?
    decreases e, 0, |rows|
  {
    if !e.op.filtered || rows == [] then Ok(rows)
    else
      var frame := Frame(RowCell(rows[0]), map[e.op.name := RowCell(rows[0])]);
      var verdict :- Eval(lang, env, fs + [frame], e.kids[1]);
      var rest :- FilterRows(lang, env, fs, e, rows[1..]);
      Ok((if IsTrue(verdict) then [rows[0]] else []) + rest)
  }

  function OuterCurrent(fs: seq<Frame>): Cell {
    if CurrentAt(fs, 0).Ok? then CurrentAt(fs, 0).value else RowCell(Row([Occurrence(0)], NoneValue, map[], []))
  }

  function FilterFrame(fs: seq<Frame>, scope: RowScope, name: string): Frame {
    Frame(OuterCurrent(fs), BindAll(map[], scope.binds)[name := RowCell(scope.row)])
  }

  /** `[:name | condition]` in a view position: `.` stays the enclosing receiver. */
  function BindScopes(lang: Lang, env: Env, fs: seq<Frame>, e: TypedExpr, scopes: seq<RowScope>): Result<seq<RowScope>>
    requires e.WellFormed() && e.op.SelectBind?
    decreases e, 0, |scopes|
  {
    if scopes == [] then Ok([])
    else
      var scope := scopes[0];
      var kept := scope.(binds := scope.binds + [(e.op.name, RowCell(scope.row))]);
      if !e.op.filtered then
        var rest :- BindScopes(lang, env, fs, e, scopes[1..]);
        Ok([kept] + rest)
      else
        var verdict :- Eval(lang, env, fs + [FilterFrame(fs, scope, e.op.name)], e.kids[1]);
        var rest :- BindScopes(lang, env, fs, e, scopes[1..]);
        Ok((if IsTrue(verdict) then [kept] else []) + rest)
  }

  /** Run a temporal base's own filter and projection over recovered rows. */
  function Rebase(lang: Lang, env: Env, fs: seq<Frame>, base: TypedExpr, rows: seq<Row>): Result<seq<RowScope>>
    requires base.WellFormed()
    decreases base, 3, 0
  {
    if base.op.SelectBind? then
      var scopes :- Rebase(lang, env, fs, base.kids[0], rows);
      BindScopes(lang, env, fs, base, scopes)
    else if base.op.SelectKeys? then
      var scopes :- Rebase(lang, env, fs, base.kids[0], rows);
      var keys :- EvalEach(lang, env, fs, base, 1, |base.kids|, AScalar(ExpectedScalarKey));
      Ok(BareAll(WithKeys(lang, RowsOf(scopes), keys)))
    else if base.op.Project? then
      var scopes :- Rebase(lang, env, fs, base.kids[0], rows);
      var projected :- ProjectScopes(lang, env, fs, base, scopes);
      Ok(BareAll(projected))
    else Ok(BareAll(rows))
  }

  function ProjectScopes(lang: Lang, env: Env, fs: seq<Frame>, e: TypedExpr, scopes: seq<RowScope>): Result<seq<Row>>
    requires e.WellFormed() && e.op.Project?
    decreases e, 2, 0
  {
    var ranked :-
      if e.op.key == [] then RankRows(lang, env, fs, e, scopes)
      else
        var keys :- GroupKeys(lang, env, fs, e, scopes);
        RankGroups(lang, env, fs, e, Grouped(scopes, keys));
    Ok(Bound(Ordered(e.op.descending, ranked), e.op.skip, e.op.limit))
  }

  function RankRows(lang: Lang, env: Env, fs: seq<Frame>, e: TypedExpr, scopes: seq<RowScope>): Result<seq<Ranked>>
    requires e.WellFormed() && e.op.Project?
    decreases e, 1, |scopes|
  {
    if scopes == [] then Ok([])
    else
      var row :- ProjectRow(lang, env, fs, e, scopes[0], None);
      var keys :- SortKeys(lang, env, fs, e, scopes[0], None, row);
      var rest :- RankRows(lang, env, fs, e, scopes[1..]);
      Ok([Ranked(row, keys)] + rest)
  }

  function RankGroups(lang: Lang, env: Env, fs: seq<Frame>, e: TypedExpr, groups: seq<Group>): Result<seq<Ranked>>
    requires e.WellFormed() && e.op.Project?
    decreases e, 1, |groups|
  {
    if groups == [] then Ok([])
    else if groups[0].members == [] then RankGroups(lang, env, fs, e, groups[1..])
    else
      var group := groups[0];
      var row :- ProjectRow(lang, env, fs, e, group.members[0], Some(group));
      var keys :- SortKeys(lang, env, fs, e, group.members[0], Some(GroupCell(group)), row);
      var rest :- RankGroups(lang, env, fs, e, groups[1..]);
      Ok([Ranked(row, keys)] + rest)
  }

  function GroupKeys(lang: Lang, env: Env, fs: seq<Frame>, e: TypedExpr, scopes: seq<RowScope>)
    : (r: Result<seq<seq<Value>>>)
    requires e.WellFormed() && e.op.Project?
    ensures r.Ok? ==> |r.value| == |scopes|
    decreases e, 1, |scopes|
  {
    if scopes == [] then Ok([])
    else
      var values :- Outputs(lang, env, fs, ProjectFrame(scopes[0], None), LoopBinds(scopes[0], None), e, 0, true, map[]);
      var rest :- GroupKeys(lang, env, fs, e, scopes[1..]);
      Ok([GroupKeyOf(e.op.key, values)] + rest)
  }

  function ProjectRow(lang: Lang, env: Env, fs: seq<Frame>, e: TypedExpr, scope: RowScope, group: Option<Group>)
    : Result<Row>
    requires e.WellFormed() && e.op.Project?
    decreases e, 0, |e.op.outputs| + 2
  {
    var groupCell := if group.Some? then Some(GroupCell(group.value)) else None;
    var cells :- Outputs(lang, env, fs, ProjectFrame(scope, groupCell), LoopBinds(scope, groupCell), e, 0, false, map[]);
    if group.Some? then
      var key := SyntheticKey(group.value.key);
      Ok(Row([RowIdPart.Key(lang.identity(key))], key, cells, []))
    else Ok(Row(scope.identity, scope.row.key, cells, []))
  }

  /** The projection outputs from the `i`-th on, in dependency order: each is bound for
      the later ones unless it would shadow a row binding. Only the group-key outputs
      run when `keyOnly`, and those must be scalars; otherwise the quantity follows. */
  function Outputs(lang: Lang, env: Env, fs: seq<Frame>, frame: Frame, loop: set<string>, e: TypedExpr, i: nat,
                   keyOnly: bool, cells: map<string, Cell>): Result<map<string, Cell>>
    requires e.WellFormed() && e.op.Project? && i <= |e.op.outputs|
    decreases e, 0, |e.op.outputs| - i + 1
  {
    if i == |e.op.outputs| then
      if e.op.quantity && !keyOnly then
        var q :- Eval(lang, env, fs + [frame], e.kids[1 + i]);
        Ok(cells["$quantity" := q])
      else Ok(cells)
    else
      var name := e.op.outputs[i];
      if keyOnly && name !in e.op.key then Outputs(lang, env, fs, frame, loop, e, i + 1, keyOnly, cells)
      else
        var cell :- Eval(lang, env, fs + [frame], e.kids[1 + i]);
        if keyOnly && !cell.Scalar? then Err(ShapeMismatch(ExpectedKeyValue))
        else Outputs(lang, env, fs, BindOutput(frame, loop, name, cell), loop, e, i + 1, keyOnly, cells[name := cell])
  }

  function SortKeys(lang: Lang, env: Env, fs: seq<Frame>, e: TypedExpr, scope: RowScope, group: Option<Cell>, row: Row)
    : (r: Result<seq<Value>>)
    requires e.WellFormed() && e.op.Project?
    ensures r.Ok? ==> |r.value| == |e.op.descending|
    decreases e, 0, |e.kids| + 1
  {
    EvalEach(lang, env, fs + [SortFrame(scope, group, row)], e, SortStart(e.op), |e.kids|, AScalar(ExpectedSortKey))
  }
}
