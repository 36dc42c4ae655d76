/** Decomposing a flat `$view` into faces (liasse-expr, lower.rs), hoisting them under one
    counter, and running them row by row (liasse-pred, program.rs; liasse-store,
    view_program.rs). */
module Lowering {
  import opened Values
  import opened Rows
  import opened TypedExprs
  import opened Order
  import opened Evaluator
  import opened Pairing
  import opened Streaming
  import opened Simulation
  import opened Hoist
  import opened HoistMeaning
  import opened ViewMeaning

  datatype Output = Output(name: string, expr: TypedExpr)

  datatype FlatView = FlatView(
    collection: string, bind: Option<string>, filter: Option<TypedExpr>,
    outputs: seq<Output>, sort: seq<TypedExpr>, descending: seq<bool>,
    skip: Option<nat>, limit: Option<nat>)

  predicate IsRootReceiver(e: TypedExpr) { e.op.Current? || e.op.Root? }

  function CollectionName(e: TypedExpr): Option<string>
    requires e.WellFormed()
  {
    if e.op.Field? && IsRootReceiver(e.kids[0]) then Some(e.op.name) else None
  }

  function LowerFlatView(e: TypedExpr): Option<FlatView>
    requires e.WellFormed()
  {
    if !e.op.Project? || e.op.key != [] || e.op.quantity then None
    else
      var source := e.kids[0];
      assert source.WellFormed();
      var filtered := source.op.SelectBind?;
      var name := CollectionName(if filtered then source.kids[0] else source);
      if name.None? then None
      else
        var n := |e.op.outputs|;
        Some(FlatView(
          name.value,
          if filtered then Some(source.op.name) else None,
          if filtered && source.op.filtered then Some(source.kids[1]) else None,
          seq(n, i requires 0 <= i < n => Output(e.op.outputs[i], e.kids[1 + i])),
          e.kids[SortStart(e.op)..], e.op.descending, e.op.skip, e.op.limit))
  }

  /** `.name` or `/name`. */
  ghost predicate TopLevel(e: TypedExpr, name: string) {
    exists ty, base: TypedExpr :: (base.op == Current || base.op == Root) && e == Node(ty, Op.Field(name), [base])
  }

  /** A projection without `$key` and `$quantity` over a top-level collection, or over one
      filter of such a collection. */
  ghost predicate IsFlat(e: TypedExpr)
    requires e.WellFormed()
  {
    && e.op.Project? && e.op.key == [] && !e.op.quantity
    && ((exists name :: TopLevel(e.kids[0], name))
        || (e.kids[0].op.SelectBind? && e.kids[0].WellFormed() && exists name :: TopLevel(e.kids[0].kids[0], name)))
  }

  lemma TopLevelExactly(e: TypedExpr, name: string)
    requires e.WellFormed()
    ensures CollectionName(e) == Some(name) <==> TopLevel(e, name)
  {
    if CollectionName(e) == Some(name) { assert e == Node(e.ty, Op.Field(name), [e.kids[0]]); }
  }

  /** Exactly these decompose, filtered or not, sorted and bounded or not; all others are left
      to the interpreter. */
  lemma DecomposesExactly(e: TypedExpr)
    requires e.WellFormed()
    ensures LowerFlatView(e).Some? <==> IsFlat(e)
  {
    if e.op.Project? {
      var source := e.kids[0];
      forall name
        ensures CollectionName(source) == Some(name) <==> TopLevel(source, name)
        ensures source.op.SelectBind? ==> (CollectionName(source.kids[0]) == Some(name) <==> TopLevel(source.kids[0], name))
      {
        TopLevelExactly(source, name);
        if source.op.SelectBind? { TopLevelExactly(source.kids[0], name); }
      }
    }
  }

  // ---- hoisting every face under one counter -----------------------------

  ghost function HoistAll(exprs: seq<TypedExpr>, refs: CandidateRefs, next: nat): (r: (seq<TypedExpr>, seq<Entry>))
    requires forall i :: 0 <= i < |exprs| ==> exprs[i].WellFormed()
    ensures |r.0| == |exprs| && forall i :: 0 <= i < |exprs| ==> r.0[i].WellFormed()
    ensures forall i :: 0 <= i < |r.1| ==> r.1[i].subtree.WellFormed()
  {
    if exprs == [] then ([], [])
    else
      var h := HoistNode(exprs[0], refs, next);
      var (rest, entries) := HoistAll(exprs[1..], refs, next + |h.entries|);
      ([h.residual] + rest, h.entries + entries)
  }

  function Names(bind: Option<string>): set<string> { if bind.Some? then {bind.value} else {} }

  function OutputNames(flat: FlatView): set<string> { set i | 0 <= i < |flat.outputs| :: flat.outputs[i].name }

  function OutputExprs(flat: FlatView): seq<TypedExpr> {
    seq(|flat.outputs|, i requires 0 <= i < |flat.outputs| => flat.outputs[i].expr)
  }

  ghost predicate FlatWellFormed(flat: FlatView) {
    && (flat.filter.Some? ==> flat.filter.value.WellFormed())
    && (forall i :: 0 <= i < |flat.outputs| ==> flat.outputs[i].expr.WellFormed())
    && (forall i :: 0 <= i < |flat.sort| ==> flat.sort[i].WellFormed())
  }

  /** The residual faces of a view read. */
  datatype Faces = Faces(admit: Option<TypedExpr>, outputs: seq<TypedExpr>, sort: seq<TypedExpr>)

  function FilterExprs(flat: FlatView): seq<TypedExpr> {
    if flat.filter.Some? then [flat.filter.value] else []
  }

  /** In a filter only the bind is the candidate; in an output `.` is too, and in a sort
      key so are the outputs. Each part continues the counter of the one before. */
  ghost function AdmitPart(flat: FlatView): (seq<TypedExpr>, seq<Entry>)
    requires FlatWellFormed(flat)
  {
    HoistAll(FilterExprs(flat), CandidateRefs(false, Names(flat.bind)), 0)
  }

  ghost function OutputPart(flat: FlatView): (seq<TypedExpr>, seq<Entry>)
    requires FlatWellFormed(flat)
  {
    HoistAll(OutputExprs(flat), CandidateRefs(true, Names(flat.bind)), |AdmitPart(flat).1|)
  }

  ghost function SortPart(flat: FlatView): (seq<TypedExpr>, seq<Entry>)
    requires FlatWellFormed(flat)
  {
    HoistAll(flat.sort, CandidateRefs(true, Names(flat.bind) + OutputNames(flat)),
             |AdmitPart(flat).1| + |OutputPart(flat).1|)
  }

  ghost predicate FacesWellFormed(faces: Faces) {
    && (faces.admit.Some? ==> faces.admit.value.WellFormed())
    && (forall i :: 0 <= i < |faces.outputs| ==> faces.outputs[i].WellFormed())
    && (forall i :: 0 <= i < |faces.sort| ==> faces.sort[i].WellFormed())
  }

  ghost function LowerFaces(flat: FlatView): (faces: Faces)
    requires FlatWellFormed(flat)
    ensures FacesWellFormed(faces)
  {
    Faces(if flat.filter.Some? then Some(AdmitPart(flat).0[0]) else None, OutputPart(flat).0, SortPart(flat).0)
  }

  ghost function LowerEntries(flat: FlatView): seq<Entry>
    requires FlatWellFormed(flat)
  {
    AdmitPart(flat).1 + OutputPart(flat).1 + SortPart(flat).1
  }

  lemma {:induction false} HoistAllNumbered(exprs: seq<TypedExpr>, refs: CandidateRefs, next: nat)
    requires forall i :: 0 <= i < |exprs| ==> exprs[i].WellFormed()
    ensures Numbered(HoistAll(exprs, refs, next).1, next)
  {
    if exprs != [] {
      var first := HoistNode(exprs[0], refs, next).entries;
      EntriesAreNumbered(exprs[0], refs, next);
      HoistAllNumbered(exprs[1..], refs, next + |first|);
      NumberedJoin(first, HoistAll(exprs[1..], refs, next + |first|).1, next);
    }
  }

  ghost predicate Numbered(entries: seq<Entry>, next: nat) {
    forall i :: 0 <= i < |entries| ==> entries[i].name == SyntheticName(next + i)
  }

  lemma NumberedJoin(a: seq<Entry>, b: seq<Entry>, next: nat)
    requires Numbered(a, next) && Numbered(b, next + |a|)
    ensures Numbered(a + b, next)
  {
    forall i | 0 <= i < |a + b|
      ensures (a + b)[i].name == SyntheticName(next + i)
    {
      if i >= |a| {
        assert (a + b)[i] == b[i - |a|] && next + |a| + (i - |a|) == next + i;
      }
    }
  }

  lemma NumberedDiffer(all: seq<Entry>)
    requires Numbered(all, 0)
    ensures DistinctNames(all)
  {
    forall i, j | 0 <= i < j < |all|
      ensures all[i].name != all[j].name
    {
      if all[i].name == all[j].name { SyntheticNamesDiffer(i, j); }
    }
  }

  /** No two entries of one program share a name, whichever faces they come from. */
  lemma LoweredNamesDiffer(flat: FlatView)
    requires FlatWellFormed(flat)
    ensures DistinctNames(LowerEntries(flat))
    ensures forall i :: 0 <= i < |LowerEntries(flat)| ==> LowerEntries(flat)[i].subtree.WellFormed()
  {
    HoistAllNumbered(FilterExprs(flat), CandidateRefs(false, Names(flat.bind)), 0);
    HoistAllNumbered(OutputExprs(flat), CandidateRefs(true, Names(flat.bind)), |AdmitPart(flat).1|);
    HoistAllNumbered(flat.sort, CandidateRefs(true, Names(flat.bind) + OutputNames(flat)),
                     |AdmitPart(flat).1| + |OutputPart(flat).1|);
    NumberedJoin(AdmitPart(flat).1, OutputPart(flat).1, 0);
    NumberedJoin(AdmitPart(flat).1 + OutputPart(flat).1, SortPart(flat).1, 0);
    NumberedDiffer(LowerEntries(flat));
  }

  lemma {:induction false} HoistAllFills(exprs: seq<TypedExpr>, refs: CandidateRefs, next: nat, sub: map<string, TypedExpr>)
    requires forall i :: 0 <= i < |exprs| ==> exprs[i].WellFormed() && Avoids(exprs[i], sub.Keys)
    requires AllWellFormed(sub) && Covers(sub, HoistAll(exprs, refs, next).1)
    ensures forall i :: 0 <= i < |exprs| ==> Fill(HoistAll(exprs, refs, next).0[i], sub) == exprs[i]
  {
    if exprs != [] {
      var h := HoistNode(exprs[0], refs, next);
      var rest := HoistAll(exprs[1..], refs, next + |h.entries|).1;
      CoversParts(sub, h.entries, rest);
      FillUndoesHoist(exprs[0], refs, next, sub);
      HoistAllFills(exprs[1..], refs, next + |h.entries|, sub);
    }
  }

  /** Each face is the original expression with entries replaced. */
  ghost predicate FacesFill(faces: Faces, flat: FlatView, sub: map<string, TypedExpr>)
    requires AllWellFormed(sub)
  {
    && FacesWellFormed(faces)
    && faces.admit.Some? == flat.filter.Some?
    && (faces.admit.Some? ==> Fill(faces.admit.value, sub) == flat.filter.value)
    && |faces.outputs| == |flat.outputs|
    && (forall i :: 0 <= i < |faces.outputs| ==> Fill(faces.outputs[i], sub) == flat.outputs[i].expr)
    && |faces.sort| == |flat.sort|
    && (forall i :: 0 <= i < |faces.sort| ==> Fill(faces.sort[i], sub) == flat.sort[i])
  }

  ghost predicate FlatAvoids(flat: FlatView, names: set<string>) {
    && (flat.filter.Some? ==> Avoids(flat.filter.value, names))
    && (forall i :: 0 <= i < |flat.outputs| ==> Avoids(flat.outputs[i].expr, names))
    && (forall i :: 0 <= i < |flat.sort| ==> Avoids(flat.sort[i], names))
  }

  lemma LoweredFacesFill(flat: FlatView, sub: map<string, TypedExpr>)
    requires FlatWellFormed(flat) && AllWellFormed(sub) && FlatAvoids(flat, sub.Keys)
    requires Covers(sub, LowerEntries(flat))
    ensures FacesFill(LowerFaces(flat), flat, sub)
  {
    CoversParts(sub, AdmitPart(flat).1 + OutputPart(flat).1, SortPart(flat).1);
    CoversParts(sub, AdmitPart(flat).1, OutputPart(flat).1);
    HoistAllFills(FilterExprs(flat), CandidateRefs(false, Names(flat.bind)), 0, sub);
    HoistAllFills(OutputExprs(flat), CandidateRefs(true, Names(flat.bind)), |AdmitPart(flat).1|, sub);
    HoistAllFills(flat.sort, CandidateRefs(true, Names(flat.bind) + OutputNames(flat)),
                  |AdmitPart(flat).1| + |OutputPart(flat).1|, sub);
    assert forall i :: 0 <= i < |flat.outputs| ==> OutputExprs(flat)[i] == flat.outputs[i].expr;
  }

  // ---- running the faces -------------------------------------------------

  /** The minimal environment a face runs in (penv.rs). */
  function ProgEnv(hoisted: map<string, Cell>, bind: Option<string>, candidate: Cell): Env {
    Env(Row([Occurrence(0)], NoneValue, map[], []),
        (name: string) => None, (name: string) => None, (name: string) => None,
        (name: string) => if bind == Some(name) then Some(candidate)
                          else if name in hoisted then Some(hoisted[name]) else None,
        0, (site: nat) => Other(Values.Uuid, 0), HalfAwayFromZero,
        (rows: seq<Row>, name: Option<string>, query: TemporalQuery) => Err(Refused(0)),
        (name: string, query: TemporalQuery) => None,
        (rows: seq<Row>, selector: KeyringSelector) => Err(Refused(1)),
        (value: Value, member: TypedExprs.BlobMember) => Err(Refused(2)),
        (namespace: string, function_: string, args: seq<Value>) => Err(Refused(3)))
  }

  datatype Program = Program(faces: Faces, names: seq<string>, descending: seq<bool>, hoisted: map<string, Cell>,
                             bind: Option<string>, skip: Option<nat>, limit: Option<nat>)
  {
    ghost predicate WellFormed() {
      FacesWellFormed(faces) && |faces.outputs| == |names|
    }

    function BaseFrame(row: Row): Frame {
      Frame(RowCell(row), if bind.Some? then map[bind.value := RowCell(row)] else map[])
    }

    function EnvFor(row: Row): Env { ProgEnv(hoisted, bind, RowCell(row)) }
  }

  ghost function Admits(lang: Lang, p: Program, row: Row): Result<bool>
    requires p.WellFormed()
  {
    if p.faces.admit.None? then Ok(true)
    else
      var verdict :- Eval(lang, p.EnvFor(row), [p.BaseFrame(row)], p.faces.admit.value);
      Ok(IsTrue(verdict))
  }

  /** The output cells from the `i`-th on, each bound for the later ones. */
  ghost function ProjectCells(lang: Lang, p: Program, row: Row, frame: Frame, i: nat, cells: map<string, Cell>)
    : Result<map<string, Cell>>
    requires p.WellFormed() && i <= |p.names|
    decreases |p.names| - i
  {
    if i == |p.names| then Ok(cells)
    else
      var cell :- Eval(lang, p.EnvFor(row), [frame], p.faces.outputs[i]);
      ProjectCells(lang, p, row, BindOutput(frame, Names(p.bind), p.names[i], cell), i + 1, cells[p.names[i] := cell])
  }

  ghost function SortTuple(lang: Lang, p: Program, row: Row, frame: Frame, i: nat): Result<seq<Value>>
    requires p.WellFormed() && i <= |p.faces.sort|
    decreases |p.faces.sort| - i
  {
    if i == |p.faces.sort| then Ok([])
    else
      var cell :- Eval(lang, p.EnvFor(row), [frame], p.faces.sort[i]);
      var v :- ToValue(cell, AScalar(ExpectedSortKey));
      var rest :- SortTuple(lang, p, row, frame, i + 1);
      Ok([v] + rest)
  }

  function WithCells(frame: Frame, bind: Option<string>, cells: map<string, Cell>): Frame {
    frame.(bindings := frame.bindings + (map n | n in cells && n !in Names(bind) :: cells[n]))
  }

  ghost function RankRow(lang: Lang, p: Program, row: Row): Result<Ranked>
    requires p.WellFormed()
  {
    var cells :- ProjectCells(lang, p, row, p.BaseFrame(row), 0, map[]);
    var keys :- SortTuple(lang, p, row, WithCells(p.BaseFrame(row), p.bind, cells), 0);
    Ok(Ranked(Row(row.id, row.key, cells, []), keys))
  }

  /** Admit, project and rank each row in turn (scan_collection). */
  ghost function Scan(lang: Lang, p: Program, rows: seq<Row>): Result<seq<Ranked>>
    requires p.WellFormed()
  {
    if rows == [] then Ok([])
    else
      var admitted :- Admits(lang, p, rows[0]);
      if !admitted then Scan(lang, p, rows[1..])
      else
        var ranked :- RankRow(lang, p, rows[0]);
        var rest :- Scan(lang, p, rows[1..]);
        Ok([ranked] + rest)
  }

  ghost function Run(lang: Lang, p: Program, rows: seq<Row>): Result<seq<Row>>
    requires p.WellFormed()
  {
    var ranked :- Scan(lang, p, rows);
    Ok(Bound(Ordered(p.descending, ranked), p.skip, p.limit))
  }

  /** A run ranks what it scans, orders it as declared, and delivers what the bounds leave. */
  lemma RunDelivers(lang: Lang, p: Program, rows: seq<Row>) returns (ordered: seq<Row>)
    requires p.WellFormed() && Run(lang, p, rows).Ok?
    ensures Scan(lang, p, rows).Ok? && OrderedFrom(p.descending, Scan(lang, p, rows).value, ordered)
    ensures Bounded(ordered, Run(lang, p, rows).value, p.skip, p.limit)
  {
    var ranked := Scan(lang, p, rows).value;
    ordered := Ordered(p.descending, ranked);
    OrderedDelivers(p.descending, ranked);
    BoundDelivers(ordered, p.skip, p.limit);
  }

  // ---- the faces deliver what the expression does ------------------------

  /** The receiver a view is evaluated at: the package root, alone. */
  function Receiver(root: Row): seq<Frame> { [Frame(RowCell(root), map[])] }

  function ProgramOf(flat: FlatView, faces: Faces, hoisted: map<string, Cell>): Program {
    Program(faces, seq(|flat.outputs|, i requires 0 <= i < |flat.outputs| => flat.outputs[i].name),
            flat.descending, hoisted, flat.bind, flat.skip, flat.limit)
  }

  function LocalNames(flat: FlatView): set<string> { Names(flat.bind) + OutputNames(flat) }

  function FaceCtx(env: Env, flat: FlatView, sub: map<string, TypedExpr>, hoisted: map<string, Cell>, row: Row): Ctx {
    Ctx(ProgEnv(hoisted, flat.bind, RowCell(row)), env, sub)
  }

  /** The program runs a filter with the candidate as `.` where the original has the
      receiver, which its entries may read. */
  function FilterPlace(flat: FlatView): Place {
    Place(Shared(AllBut({}), Only({})), Shared(AllBut(Names(flat.bind)), Only({0})), AsValue)
  }

  /** An output or sort key has the candidate as `.`, which its entries may not read. */
  function OutputPlace(flat: FlatView): Place {
    Place(Shared(AllBut({}), Only({0})), Shared(AllBut(LocalNames(flat)), Only({})), AsValue)
  }

  /** Checkable per candidate before it is evaluated. */
  ghost predicate FacesTransfer(env: Env, flat: FlatView, faces: Faces, sub: map<string, TypedExpr>, hoisted: map<string, Cell>, row: Row)
    requires AllWellFormed(sub) && FacesWellFormed(faces)
  {
    var c := FaceCtx(env, flat, sub, hoisted, row);
    && (faces.admit.Some? ==> Transfers(c, faces.admit.value, FilterPlace(flat)))
    && (forall i :: 0 <= i < |faces.outputs| ==> Transfers(c, faces.outputs[i], OutputPlace(flat)))
    && (forall i :: 0 <= i < |faces.sort| ==> Transfers(c, faces.sort[i], OutputPlace(flat)))
  }

  /** Everything the row-by-row comparison rests on. */
  ghost predicate Ready(lang: Lang, env: Env, root: Row, flat: FlatView, faces: Faces, sub: map<string, TypedExpr>,
                        hoisted: map<string, Cell>, row: Row) {
    && AllWellFormed(sub) && FacesFill(faces, flat, sub) && FlatWellFormed(flat)
    && FacesTransfer(env, flat, faces, sub, hoisted, row)
    && Seeded(lang, ProgEnv(hoisted, flat.bind, RowCell(row)), env, Receiver(root), sub)
  }

  lemma SameVerdict(lang: Lang, env: Env, root: Row, flat: FlatView, faces: Faces, sub: map<string, TypedExpr>,
                    hoisted: map<string, Cell>, row: Row)
    requires Ready(lang, env, root, flat, faces, sub, hoisted, row)
    requires flat.filter.Some? && flat.bind.Some?
    ensures var p := ProgramOf(flat, faces, hoisted);
      Eval(lang, p.EnvFor(row), [p.BaseFrame(row)], faces.admit.value)
      == Eval(lang, env, Receiver(root) + [FilterFrame(Receiver(root), Bare(row), flat.bind.value)], flat.filter.value)
  {
    var p := ProgramOf(flat, faces, hoisted);
    var c := FaceCtx(env, flat, sub, hoisted, row);
    var fs0 := Receiver(root);
    var frame := FilterFrame(fs0, Bare(row), flat.bind.value);
    PreevaluationServes(lang, c, fs0);
    assert frame.bindings == p.BaseFrame(row).bindings;
    assert [] + [p.BaseFrame(row)] == [p.BaseFrame(row)];
    PushedReads([], p.BaseFrame(row));
    PushedReads(fs0, frame);
    ReceiverReads(root);
    SimEval(lang, c, Stacks(fs0, [p.BaseFrame(row)], fs0 + [frame]), faces.admit.value, FilterPlace(flat));
  }

  lemma ReceiverReads(root: Row)
    ensures CurrentAt(Receiver(root), 0) == Ok(RowCell(root))
    ensures forall n :: Lookup(Receiver(root), n) == None
  {
    assert Receiver(root)[..0] == [];
  }

  /** A face and the operand it came from have one value in every frame that both sides
      build for the candidate `row`. */
  ghost predicate Matches(lang: Lang, env: Env, root: Row, p: Program, names: set<string>, row: Row,
                          face: TypedExpr, original: TypedExpr)
    requires face.WellFormed() && original.WellFormed()
  {
    forall frame: Frame :: frame.bindings.Keys <= names ==>
      Eval(lang, p.EnvFor(row), [frame], face) == Eval(lang, env, Receiver(root) + [frame], original)
  }

  lemma FaceMatches(lang: Lang, env: Env, root: Row, flat: FlatView, faces: Faces, sub: map<string, TypedExpr>,
                    hoisted: map<string, Cell>, row: Row, face: TypedExpr)
    requires Ready(lang, env, root, flat, faces, sub, hoisted, row)
    requires face.WellFormed() && Transfers(FaceCtx(env, flat, sub, hoisted, row), face, OutputPlace(flat))
    ensures Matches(lang, env, root, ProgramOf(flat, faces, hoisted), LocalNames(flat), row, face, Fill(face, sub))
  {
    var c := FaceCtx(env, flat, sub, hoisted, row);
    var fs0 := Receiver(root);
    PreevaluationServes(lang, c, fs0);
    forall frame: Frame | frame.bindings.Keys <= LocalNames(flat)
      ensures Eval(lang, c.env1, [frame], face) == Eval(lang, env, fs0 + [frame], Fill(face, sub))
    {
      assert [] + [frame] == [frame];
      PushedReads([], frame);
      PushedReads(fs0, frame);
      ReceiverReads(root);
      SimEval(lang, c, Stacks(fs0, [frame], fs0 + [frame]), face, OutputPlace(flat));
    }
  }

  /** The faces of `p` match the operands of the projection `e`. */
  ghost predicate FacesMatch(lang: Lang, env: Env, root: Row, p: Program, names: set<string>, row: Row, e: TypedExpr) {
    && p.WellFormed() && e.WellFormed() && e.op.Project? && !e.op.quantity
    && p.names == e.op.outputs && Names(p.bind) + (set n | n in p.names) <= names
    && |p.faces.sort| == |e.op.descending|
    && (forall i :: 0 <= i < |p.names| ==> Matches(lang, env, root, p, names, row, p.faces.outputs[i], e.kids[1 + i]))
    && (forall i :: 0 <= i < |p.faces.sort| ==>
          Matches(lang, env, root, p, names, row, p.faces.sort[i], e.kids[SortStart(e.op) + i]))
  }

  lemma LoweredFrom(e: TypedExpr, flat: FlatView)
    requires e.WellFormed() && LowerFlatView(e) == Some(flat)
    ensures e.op.Project? && e.op.key == [] && !e.op.quantity && flat.descending == e.op.descending
    ensures flat.outputs == seq(|e.op.outputs|, i requires 0 <= i < |e.op.outputs| => Output(e.op.outputs[i], e.kids[1 + i]))
    ensures flat.sort == e.kids[SortStart(e.op)..]
    ensures flat.filter.Some? ==> flat.filter.value.WellFormed()
  {
    var source := e.kids[0];
    assert source.WellFormed();
    assert source.op.SelectBind? && source.op.filtered ==> source.kids[1].WellFormed();
  }

  /** What a decomposition keeps of the projection it came from. */
  lemma LoweredParts(e: TypedExpr, flat: FlatView)
    requires e.WellFormed() && LowerFlatView(e) == Some(flat)
    ensures FlatWellFormed(flat) && e.op.Project? && e.op.key == [] && !e.op.quantity
    ensures |flat.outputs| == |e.op.outputs| && |flat.sort| == |flat.descending| && flat.descending == e.op.descending
    ensures forall i :: 0 <= i < |flat.outputs| ==> flat.outputs[i] == Output(e.op.outputs[i], e.kids[1 + i])
    ensures forall i :: 0 <= i < |flat.sort| ==> flat.sort[i] == e.kids[SortStart(e.op) + i]
  {
    LoweredFrom(e, flat);
  }

  lemma NamesLowered(e: TypedExpr, flat: FlatView, faces: Faces, hoisted: map<string, Cell>)
    requires e.WellFormed() && LowerFlatView(e) == Some(flat)
    ensures ProgramOf(flat, faces, hoisted).names == e.op.outputs
    ensures Names(flat.bind) + (set n | n in e.op.outputs) <= LocalNames(flat)
  {
    LoweredParts(e, flat);
    forall n | n in e.op.outputs
      ensures n in OutputNames(flat)
    {
      var i :| 0 <= i < |e.op.outputs| && e.op.outputs[i] == n;
      assert flat.outputs[i].name == n;
    }
  }

  lemma ReadyFacesMatch(lang: Lang, env: Env, root: Row, e: TypedExpr, flat: FlatView, faces: Faces, sub: map<string, TypedExpr>,
                        hoisted: map<string, Cell>, row: Row)
    requires Ready(lang, env, root, flat, faces, sub, hoisted, row)
    requires e.WellFormed() && LowerFlatView(e) == Some(flat)
    ensures FacesMatch(lang, env, root, ProgramOf(flat, faces, hoisted), LocalNames(flat), row, e)
  {
    var p, names := ProgramOf(flat, faces, hoisted), LocalNames(flat);
    LoweredParts(e, flat);
    NamesLowered(e, flat, faces, hoisted);
    forall face: TypedExpr | face.WellFormed() && Transfers(FaceCtx(env, flat, sub, hoisted, row), face, OutputPlace(flat))
      ensures Matches(lang, env, root, p, names, row, face, Fill(face, sub))
    {
      FaceMatches(lang, env, root, flat, faces, sub, hoisted, row, face);
    }
  }

  /** The row binding a kept candidate projects under. */
  function ScopeOf(bind: Option<string>, row: Row): RowScope {
    RowScope(row, if bind.Some? then [(bind.value, RowCell(row))] else [], row.id)
  }

  lemma ScopeFrames(p: Program, row: Row)
    ensures ProjectFrame(ScopeOf(p.bind, row), None) == p.BaseFrame(row)
    ensures LoopBinds(ScopeOf(p.bind, row), None) == Names(p.bind)
  {
    var scope := ScopeOf(p.bind, row);
    if p.bind.Some? {
      assert BindAll(map[], scope.binds) == map[p.bind.value := RowCell(row)] by {
        assert scope.binds[1..] == [];
        assert BindAll(map[p.bind.value := RowCell(row)], []) == map[p.bind.value := RowCell(row)];
      }
      assert BindNames(scope.binds) == {p.bind.value} by { assert scope.binds[0].0 == p.bind.value; }
    }
  }

  /** The `i`-th output face and output operand have one value in every frame of `names`. */
  ghost predicate OutputMatches(lang: Lang, p: Program, row: Row, env: Env, fs: seq<Frame>, e: TypedExpr, names: set<string>, i: nat)
    requires p.WellFormed() && e.WellFormed() && e.op.Project? && p.names == e.op.outputs && i < |p.names|
  {
    forall frame: Frame :: frame.bindings.Keys <= names ==>
      Eval(lang, p.EnvFor(row), [frame], p.faces.outputs[i]) == Eval(lang, env, fs + [frame], e.kids[1 + i])
  }

  ghost predicate OutputsMatch(lang: Lang, p: Program, row: Row, env: Env, fs: seq<Frame>, e: TypedExpr, names: set<string>)
    requires p.WellFormed() && e.WellFormed() && e.op.Project? && p.names == e.op.outputs
  {
    (forall j :: 0 <= j < |p.names| ==> p.names[j] in names)
    && forall j :: 0 <= j < |p.names| ==> OutputMatches(lang, p, row, env, fs, e, names, j)
  }

  /** From the `i`-th output on, the program and the evaluator compute the same cells. */
  ghost predicate CellsAgree(lang: Lang, p: Program, row: Row, env: Env, fs: seq<Frame>, e: TypedExpr, names: set<string>,
                             frame: Frame, i: nat, cells: map<string, Cell>)
    requires p.WellFormed() && e.WellFormed() && e.op.Project? && p.names == e.op.outputs && i <= |p.names|
  {
    var r := ProjectCells(lang, p, row, frame, i, cells);
    && r == Outputs(lang, env, fs, frame, Names(p.bind), e, i, false, cells)
    && (r.Ok? ==> r.value.Keys <= names)
  }

  lemma BoundWithin(frame: Frame, loop: set<string>, name: string, cell: Cell, names: set<string>, cells: map<string, Cell>)
    requires frame.bindings.Keys <= names && cells.Keys <= names && name in names
    ensures BindOutput(frame, loop, name, cell).bindings.Keys <= names && cells[name := cell].Keys <= names
  {
  }

  lemma {:induction false} SameOutputs(lang: Lang, p: Program, row: Row, env: Env, fs: seq<Frame>, e: TypedExpr, names: set<string>,
                                       frame: Frame, i: nat, cells: map<string, Cell>)
    requires p.WellFormed() && e.WellFormed() && e.op.Project? && !e.op.quantity && p.names == e.op.outputs && i <= |p.names|
    requires OutputsMatch(lang, p, row, env, fs, e, names)
    requires frame.bindings.Keys <= names && cells.Keys <= names
    ensures CellsAgree(lang, p, row, env, fs, e, names, frame, i, cells)
    decreases |p.names| - i
  {
    if i == |p.names| {
      LastCell(lang, p, row, env, fs, e, names, frame, cells);
    } else {
      forall cell: Cell
        ensures CellsAgree(lang, p, row, env, fs, e, names, BindOutput(frame, Names(p.bind), p.names[i], cell), i + 1,
                           cells[p.names[i] := cell])
      {
        BoundWithin(frame, Names(p.bind), p.names[i], cell, names, cells);
        SameOutputs(lang, p, row, env, fs, e, names, BindOutput(frame, Names(p.bind), p.names[i], cell), i + 1, cells[p.names[i] := cell]);
      }
      NextCell(lang, p, row, env, fs, e, names, frame, i, cells);
    }
  }

  lemma LastCell(lang: Lang, p: Program, row: Row, env: Env, fs: seq<Frame>, e: TypedExpr, names: set<string>,
                 frame: Frame, cells: map<string, Cell>)
    requires p.WellFormed() && e.WellFormed() && e.op.Project? && !e.op.quantity && p.names == e.op.outputs && cells.Keys <= names
    ensures CellsAgree(lang, p, row, env, fs, e, names, frame, |p.names|, cells)
  {
  }

  lemma NextCell(lang: Lang, p: Program, row: Row, env: Env, fs: seq<Frame>, e: TypedExpr, names: set<string>,
                 frame: Frame, i: nat, cells: map<string, Cell>)
    requires p.WellFormed() && e.WellFormed() && e.op.Project? && p.names == e.op.outputs && i < |p.names|
    requires OutputsMatch(lang, p, row, env, fs, e, names) && frame.bindings.Keys <= names
    requires forall cell: Cell ::
      CellsAgree(lang, p, row, env, fs, e, names, BindOutput(frame, Names(p.bind), p.names[i], cell), i + 1, cells[p.names[i] := cell])
    ensures CellsAgree(lang, p, row, env, fs, e, names, frame, i, cells)
  {
    assert OutputMatches(lang, p, row, env, fs, e, names, i);
    var cell := Eval(lang, p.EnvFor(row), [frame], p.faces.outputs[i]);
    if cell.Ok? {
      assert CellsAgree(lang, p, row, env, fs, e, names, BindOutput(frame, Names(p.bind), p.names[i], cell.value), i + 1,
                        cells[p.names[i] := cell.value]);
    }
  }

  lemma FacesOutputsMatch(lang: Lang, env: Env, root: Row, e: TypedExpr, p: Program, names: set<string>, row: Row)
    requires FacesMatch(lang, env, root, p, names, row, e)
    ensures OutputsMatch(lang, p, row, env, Receiver(root), e, names)
  {
    forall j | 0 <= j < |p.names|
      ensures p.names[j] in names && OutputMatches(lang, p, row, env, Receiver(root), e, names, j)
    {
      assert Matches(lang, env, root, p, names, row, p.faces.outputs[j], e.kids[1 + j]);
      assert p.names[j] in (set n | n in p.names);
    }
  }

  lemma TupleStep(lang: Lang, p: Program, row: Row, frame: Frame, i: nat)
    requires p.WellFormed() && i < |p.faces.sort|
    ensures SortTuple(lang, p, row, frame, i)
         == Consed(Eval(lang, p.EnvFor(row), [frame], p.faces.sort[i]), AScalar(ExpectedSortKey), SortTuple(lang, p, row, frame, i + 1))
  {
  }

  /** The `i`-th sort face and sort operand have one value in these frames. */
  ghost predicate KeyMatches(lang: Lang, p: Program, row: Row, frame: Frame, env: Env, fs: seq<Frame>, e: TypedExpr, i: nat)
    requires p.WellFormed() && e.WellFormed() && i < |p.faces.sort| && e.op.Project? && |e.kids| == SortStart(e.op) + |p.faces.sort|
  {
    Eval(lang, p.EnvFor(row), [frame], p.faces.sort[i]) == Eval(lang, env, fs, e.kids[SortStart(e.op) + i])
  }

  lemma {:induction false} SameSortTuple(lang: Lang, p: Program, row: Row, frame: Frame, env: Env, fs: seq<Frame>, e: TypedExpr, i: nat)
    requires p.WellFormed() && e.WellFormed() && i <= |p.faces.sort| && e.op.Project? && |e.kids| == SortStart(e.op) + |p.faces.sort|
    requires forall j :: 0 <= j < |p.faces.sort| ==> KeyMatches(lang, p, row, frame, env, fs, e, j)
    ensures SortTuple(lang, p, row, frame, i)
         == EvalEach(lang, env, fs, e, SortStart(e.op) + i, |e.kids|, AScalar(ExpectedSortKey))
    decreases |p.faces.sort| - i
  {
    if i < |p.faces.sort| {
      SameSortTuple(lang, p, row, frame, env, fs, e, i + 1);
      assert KeyMatches(lang, p, row, frame, env, fs, e, i);
      NextSortKey(lang, p, row, frame, i, env, fs, e);
    }
  }

  lemma SortKeysMatch(lang: Lang, env: Env, root: Row, e: TypedExpr, p: Program, names: set<string>, row: Row, frame: Frame)
    requires FacesMatch(lang, env, root, p, names, row, e) && frame.bindings.Keys <= names
    ensures forall j :: 0 <= j < |p.faces.sort| ==> KeyMatches(lang, p, row, frame, env, Receiver(root) + [frame], e, j)
  {
    forall j | 0 <= j < |p.faces.sort|
      ensures KeyMatches(lang, p, row, frame, env, Receiver(root) + [frame], e, j)
    {
      assert Matches(lang, env, root, p, names, row, p.faces.sort[j], e.kids[SortStart(e.op) + j]);
    }
  }

  lemma NextSortKey(lang: Lang, p: Program, row: Row, frame: Frame, i: nat, env: Env, fs: seq<Frame>, e: TypedExpr)
    requires p.WellFormed() && i < |p.faces.sort| && e.WellFormed() && e.op.Project?
    requires |e.kids| == SortStart(e.op) + |p.faces.sort|
    requires Eval(lang, p.EnvFor(row), [frame], p.faces.sort[i]) == Eval(lang, env, fs, e.kids[SortStart(e.op) + i])
    requires SortTuple(lang, p, row, frame, i + 1)
          == EvalEach(lang, env, fs, e, SortStart(e.op) + i + 1, |e.kids|, AScalar(ExpectedSortKey))
    ensures SortTuple(lang, p, row, frame, i)
         == EvalEach(lang, env, fs, e, SortStart(e.op) + i, |e.kids|, AScalar(ExpectedSortKey))
  {
    TupleStep(lang, p, row, frame, i);
    EachStep(lang, env, fs, e, SortStart(e.op) + i, |e.kids|, AScalar(ExpectedSortKey));
  }

  lemma SameSortKeys(lang: Lang, env: Env, root: Row, e: TypedExpr, p: Program, names: set<string>, row: Row, cells: map<string, Cell>)
    requires FacesMatch(lang, env, root, p, names, row, e) && cells.Keys <= names
    ensures SortTuple(lang, p, row, WithCells(p.BaseFrame(row), p.bind, cells), 0)
         == SortKeys(lang, env, Receiver(root), e, ScopeOf(p.bind, row), None, Row(row.id, row.key, cells, []))
  {
    var frame := WithCells(p.BaseFrame(row), p.bind, cells);
    ScopeFrames(p, row);
    assert SortFrame(ScopeOf(p.bind, row), None, Row(row.id, row.key, cells, [])) == frame;
    SortKeysMatch(lang, env, root, e, p, names, row, frame);
    SameSortTuple(lang, p, row, frame, env, Receiver(root) + [frame], e, 0);
  }

  lemma SameRank(lang: Lang, env: Env, root: Row, e: TypedExpr, p: Program, names: set<string>, row: Row)
    requires FacesMatch(lang, env, root, p, names, row, e)
    ensures RankRow(lang, p, row) == RankOne(lang, env, Receiver(root), e, ScopeOf(p.bind, row), None)
  {
    ScopeFrames(p, row);
    FacesOutputsMatch(lang, env, root, e, p, names, row);
    SameOutputs(lang, p, row, env, Receiver(root), e, names, p.BaseFrame(row), 0, map[]);
    var cells := ProjectCells(lang, p, row, p.BaseFrame(row), 0, map[]);
    if cells.Ok? {
      SameSortKeys(lang, env, root, e, p, names, row, cells.value);
    }
  }

  // ---- the whole read ----------------------------------------------------

  /** The filter's verdict on one candidate, at the receiver. */
  ghost function Verdict(lang: Lang, env: Env, root: Row, flat: FlatView, row: Row): Result<Cell>
    requires FlatWellFormed(flat)
  {
    if flat.filter.None? || flat.bind.None? then Ok(Scalar(Bool(true)))
    else Eval(lang, env, Receiver(root) + [FilterFrame(Receiver(root), Bare(row), flat.bind.value)], flat.filter.value)
  }

  /** The kept scopes of the source, one candidate after the other. */
  ghost function Kept(lang: Lang, env: Env, root: Row, flat: FlatView, rows: seq<Row>): Result<seq<RowScope>>
    requires FlatWellFormed(flat)
  {
    if rows == [] then Ok([])
    else
      var verdict :- Verdict(lang, env, root, flat, rows[0]);
      var rest :- Kept(lang, env, root, flat, rows[1..]);
      Ok((if IsTrue(verdict) then [ScopeOf(flat.bind, rows[0])] else []) + rest)
  }

  lemma {:induction false} KeptBinds(lang: Lang, env: Env, root: Row, source: TypedExpr, flat: FlatView, rows: seq<Row>)
    requires source.WellFormed() && source.op.SelectBind? && FlatWellFormed(flat)
    requires flat.bind == Some(source.op.name)
    requires flat.filter == if source.op.filtered then Some(source.kids[1]) else None
    ensures BindScopes(lang, env, Receiver(root), source, BareAll(rows)) == Kept(lang, env, root, flat, rows)
    decreases |rows|
  {
    if rows != [] {
      assert BareAll(rows)[1..] == BareAll(rows[1..]);
      assert Bare(rows[0]).binds + [(source.op.name, RowCell(rows[0]))] == ScopeOf(flat.bind, rows[0]).binds;
      KeptBinds(lang, env, root, source, flat, rows[1..]);
    }
  }

  lemma {:induction false} KeptBare(lang: Lang, env: Env, root: Row, flat: FlatView, rows: seq<Row>)
    requires FlatWellFormed(flat) && flat.bind.None?
    ensures Kept(lang, env, root, flat, rows) == Ok(BareAll(rows))
  {
    if rows == [] {
      assert BareAll(rows) == [];
    } else {
      KeptBare(lang, env, root, flat, rows[1..]);
      assert ScopeOf(flat.bind, rows[0]) == Bare(rows[0]);
      assert [Bare(rows[0])] + BareAll(rows[1..]) == BareAll(rows);
    }
  }

  lemma FieldStream(lang: Lang, env: Env, root: Row, field: TypedExpr, collection: string, rows: seq<Row>)
    requires field.WellFormed() && field.op == Op.Field(collection) && IsRootReceiver(field.kids[0])
    requires env.root == root && collection in root.cells && root.cells[collection] == Collection(rows)
    ensures EvalView(lang, env, Receiver(root), field) == Ok(BareAll(rows))
  {
    var fs := Receiver(root);
    assert Eval(lang, env, fs, field.kids[0]) == Ok(RowCell(root));
    assert Eval(lang, env, fs, field) == Ok(Collection(rows));
  }

  function SourceField(source: TypedExpr): TypedExpr
    requires source.WellFormed()
  {
    if source.op.SelectBind? then source.kids[0] else source
  }

  lemma LoweredSource(e: TypedExpr, flat: FlatView)
    requires e.WellFormed() && LowerFlatView(e) == Some(flat)
    ensures e.op.Project? && e.kids[0].WellFormed()
    ensures var field := SourceField(e.kids[0]);
      field.WellFormed() && field.op == Op.Field(flat.collection) && IsRootReceiver(field.kids[0])
    ensures e.kids[0].op.SelectBind? ==> flat.bind == Some(e.kids[0].op.name)
    ensures e.kids[0].op.SelectBind? ==> flat.filter == if e.kids[0].op.filtered then Some(e.kids[0].kids[1]) else None
    ensures !e.kids[0].op.SelectBind? ==> flat.bind.None? && flat.filter.None?
  {
    assert e.kids[0].WellFormed();
    assert SourceField(e.kids[0]).WellFormed();
  }

  lemma BoundStream(lang: Lang, env: Env, root: Row, source: TypedExpr, flat: FlatView, rows: seq<Row>)
    requires source.WellFormed() && source.op.SelectBind? && FlatWellFormed(flat)
    requires flat.bind == Some(source.op.name)
    requires flat.filter == if source.op.filtered then Some(source.kids[1]) else None
    requires EvalView(lang, env, Receiver(root), source.kids[0]) == Ok(BareAll(rows))
    ensures EvalView(lang, env, Receiver(root), source) == Kept(lang, env, root, flat, rows)
  {
    KeptBinds(lang, env, root, source, flat, rows);
  }

  /** The source of a flat view streams the kept rows of its collection. */
  lemma SourceStream(lang: Lang, env: Env, root: Row, e: TypedExpr, flat: FlatView, rows: seq<Row>)
    requires e.WellFormed() && LowerFlatView(e) == Some(flat) && FlatWellFormed(flat)
    requires env.root == root && flat.collection in root.cells && root.cells[flat.collection] == Collection(rows)
    ensures EvalView(lang, env, Receiver(root), e.kids[0]) == Kept(lang, env, root, flat, rows)
  {
    var source := e.kids[0];
    LoweredSource(e, flat);
    FieldStream(lang, env, root, SourceField(source), flat.collection, rows);
    if source.op.SelectBind? {
      BoundStream(lang, env, root, source, flat, rows);
    } else {
      KeptBare(lang, env, root, flat, rows);
    }
  }

  /** The program and the evaluator agree on one candidate. */
  ghost predicate RowAgrees(lang: Lang, env: Env, root: Row, e: TypedExpr, flat: FlatView, p: Program, row: Row)
    requires e.WellFormed() && e.op.Project? && FlatWellFormed(flat) && p.WellFormed()
  {
    && Admits(lang, p, row) == (var v :- Verdict(lang, env, root, flat, row); Ok(IsTrue(v)))
    && RankRow(lang, p, row) == RankOne(lang, env, Receiver(root), e, ScopeOf(flat.bind, row), None)
  }

  lemma ReadyRowAgrees(lang: Lang, env: Env, root: Row, e: TypedExpr, flat: FlatView, faces: Faces,
                       sub: map<string, TypedExpr>, hoisted: map<string, Cell>, row: Row)
    requires Ready(lang, env, root, flat, faces, sub, hoisted, row)
    requires e.WellFormed() && LowerFlatView(e) == Some(flat)
    ensures e.op.Project? && ProgramOf(flat, faces, hoisted).WellFormed()
    ensures RowAgrees(lang, env, root, e, flat, ProgramOf(flat, faces, hoisted), row)
  {
    ReadyFacesMatch(lang, env, root, e, flat, faces, sub, hoisted, row);
    SameRank(lang, env, root, e, ProgramOf(flat, faces, hoisted), LocalNames(flat), row);
    AdmitsAgrees(lang, env, root, e, flat, faces, sub, hoisted, row);
  }

  lemma AdmitsAgrees(lang: Lang, env: Env, root: Row, e: TypedExpr, flat: FlatView, faces: Faces,
                     sub: map<string, TypedExpr>, hoisted: map<string, Cell>, row: Row)
    requires Ready(lang, env, root, flat, faces, sub, hoisted, row)
    requires e.WellFormed() && LowerFlatView(e) == Some(flat)
    ensures ProgramOf(flat, faces, hoisted).WellFormed()
    ensures Admits(lang, ProgramOf(flat, faces, hoisted), row) == (var v :- Verdict(lang, env, root, flat, row); Ok(IsTrue(v)))
  {
    if flat.filter.Some? { SameVerdict(lang, env, root, flat, faces, sub, hoisted, row); }
  }

  lemma RankRowsStep(lang: Lang, env: Env, root: Row, e: TypedExpr, scope: RowScope, rest: seq<RowScope>)
    requires e.WellFormed() && e.op.Project?
    ensures RankRows(lang, env, Receiver(root), e, [scope] + rest)
         == (var ranked :- RankOne(lang, env, Receiver(root), e, scope, None);
             var others :- RankRows(lang, env, Receiver(root), e, rest);
             Ok([ranked] + others))
  {
    assert ([scope] + rest)[1..] == rest;
    RowsStep(lang, env, Receiver(root), e, [scope] + rest);
  }

  /** The scopes kept before the first failing verdict; all of them when none fails. */
  ghost function KeptBefore(lang: Lang, env: Env, root: Row, flat: FlatView, rows: seq<Row>): seq<RowScope>
    requires FlatWellFormed(flat)
  {
    if rows == [] then []
    else
      match Verdict(lang, env, root, flat, rows[0])
      case Err(_) => []
      case Ok(verdict) =>
        (if IsTrue(verdict) then [ScopeOf(flat.bind, rows[0])] else []) + KeptBefore(lang, env, root, flat, rows[1..])
  }

  lemma {:induction false} KeptIsAll(lang: Lang, env: Env, root: Row, flat: FlatView, rows: seq<Row>)
    requires FlatWellFormed(flat) && Kept(lang, env, root, flat, rows).Ok?
    ensures Kept(lang, env, root, flat, rows).value == KeptBefore(lang, env, root, flat, rows)
  {
    if rows != [] { KeptIsAll(lang, env, root, flat, rows[1..]); }
  }

  /** What ranking row by row makes of the evaluator's two passes: a row kept before a
      failing verdict is ranked first. */
  ghost function Interleaved(kept: Result<seq<RowScope>>, early: Result<seq<Ranked>>): Result<seq<Ranked>> {
    if early.Ok? && kept.Err? then Err(kept.error) else early
  }

  /** Same verdicts and same ranks, so the same ranked rows or the same first fault. */
  lemma {:induction false} SameScan(lang: Lang, env: Env, root: Row, e: TypedExpr, flat: FlatView, p: Program, rows: seq<Row>)
    requires e.WellFormed() && e.op.Project? && FlatWellFormed(flat) && p.WellFormed()
    requires forall i :: 0 <= i < |rows| ==> RowAgrees(lang, env, root, e, flat, p, rows[i])
    ensures Scan(lang, p, rows)
         == Interleaved(Kept(lang, env, root, flat, rows),
                        RankRows(lang, env, Receiver(root), e, KeptBefore(lang, env, root, flat, rows)))
    decreases |rows|
  {
    if rows != [] {
      assert RowAgrees(lang, env, root, e, flat, p, rows[0]);
      SameScan(lang, env, root, e, flat, p, rows[1..]);
      var verdict := Verdict(lang, env, root, flat, rows[0]);
      var rest := KeptBefore(lang, env, root, flat, rows[1..]);
      if verdict.Ok? {
        if IsTrue(verdict.value) {
          RankRowsStep(lang, env, root, e, ScopeOf(flat.bind, rows[0]), rest);
        } else {
          assert [] + rest == rest;
        }
      }
    }
  }

  /** The hoisted values are the entries' values at the receiver. */
  ghost predicate Preevaluated(lang: Lang, env: Env, root: Row, sub: map<string, TypedExpr>, hoisted: map<string, Cell>)
    requires AllWellFormed(sub)
  {
    forall n :: n in sub ==> n in hoisted && Eval(lang, env, Receiver(root), sub[n]) == Ok(hoisted[n])
  }

  /** The rows of a stream, or its error. */
  function Delivered(scopes: Result<seq<RowScope>>): Result<seq<Row>> {
    var rows :- scopes;
    Ok(RowsOf(rows))
  }

  /** Lowering a flat view preserves meaning: hoisting its faces under one counter, running
      them over the collection's rows, ordering and bounding gives the rows the expression
      delivers at the root receiver, or its error. The one difference is between errors:
      the evaluator decides every verdict first, so when a verdict fails after a kept row
      that cannot be projected, the program reports that row. */
  lemma LoweringPreservesMeaning(lang: Lang, env: Env, root: Row, e: TypedExpr, flat: FlatView, rows: seq<Row>,
                                 sub: map<string, TypedExpr>, hoisted: map<string, Cell>)
    requires e.WellFormed() && LowerFlatView(e) == Some(flat) && FlatWellFormed(flat)
    requires env.root == root && flat.collection in root.cells && root.cells[flat.collection] == Collection(rows)
    requires sub == EntryMap(LowerEntries(flat)) && AllWellFormed(sub)
    requires FlatAvoids(flat, sub.Keys) && Names(flat.bind) !! sub.Keys
    requires Preevaluated(lang, env, root, sub, hoisted)
    requires forall i :: 0 <= i < |rows| ==> FacesTransfer(env, flat, LowerFaces(flat), sub, hoisted, rows[i])
    ensures ProgramOf(flat, LowerFaces(flat), hoisted).WellFormed()
    ensures var kept := Kept(lang, env, root, flat, rows);
      var early := RankRows(lang, env, Receiver(root), e, KeptBefore(lang, env, root, flat, rows));
      Run(lang, ProgramOf(flat, LowerFaces(flat), hoisted), rows)
      == if kept.Err? && early.Err? then Err(early.error) else Delivered(EvalView(lang, env, Receiver(root), e))
    ensures Run(lang, ProgramOf(flat, LowerFaces(flat), hoisted), rows).Ok? <==> EvalView(lang, env, Receiver(root), e).Ok?
  {
    var faces := LowerFaces(flat);
    var p := ProgramOf(flat, faces, hoisted);
    LoweredParts(e, flat);
    LoweredNamesDiffer(flat);
    EntryMapCovers(LowerEntries(flat));
    LoweredFacesFill(flat, sub);
    forall i | 0 <= i < |rows|
      ensures RowAgrees(lang, env, root, e, flat, p, rows[i])
    {
      SeededAtReceiver(lang, env, root, flat, sub, hoisted, rows[i]);
      ReadyRowAgrees(lang, env, root, e, flat, faces, sub, hoisted, rows[i]);
    }
    SourceStream(lang, env, root, e, flat, rows);
    SameScan(lang, env, root, e, flat, p, rows);
    if Kept(lang, env, root, flat, rows).Ok? { KeptIsAll(lang, env, root, flat, rows); }
    SameDelivery(lang, env, root, e, p, rows, Kept(lang, env, root, flat, rows), KeptBefore(lang, env, root, flat, rows));
  }

  lemma SeededAtReceiver(lang: Lang, env: Env, root: Row, flat: FlatView, sub: map<string, TypedExpr>,
                         hoisted: map<string, Cell>, row: Row)
    requires AllWellFormed(sub) && Preevaluated(lang, env, root, sub, hoisted) && Names(flat.bind) !! sub.Keys
    ensures Seeded(lang, ProgEnv(hoisted, flat.bind, RowCell(row)), env, Receiver(root), sub)
  {
    forall n
      ensures Holds(lang, env, Receiver(root), sub, n, ProgEnv(hoisted, flat.bind, RowCell(row)).binding(n))
    {
    }
  }

  /** The same ranked rows are ordered and bounded alike. */
  lemma SameDelivery(lang: Lang, env: Env, root: Row, e: TypedExpr, p: Program, rows: seq<Row>,
                     kept: Result<seq<RowScope>>, before: seq<RowScope>)
    requires e.WellFormed() && e.op.Project? && e.op.key == [] && p.WellFormed()
    requires p.descending == e.op.descending && p.skip == e.op.skip && p.limit == e.op.limit
    requires EvalView(lang, env, Receiver(root), e.kids[0]) == kept && (kept.Ok? ==> kept.value == before)
    requires Scan(lang, p, rows) == Interleaved(kept, RankRows(lang, env, Receiver(root), e, before))
    ensures var early := RankRows(lang, env, Receiver(root), e, before);
      Run(lang, p, rows)
      == if kept.Err? && early.Err? then Err(early.error) else Delivered(EvalView(lang, env, Receiver(root), e))
    ensures Run(lang, p, rows).Ok? <==> EvalView(lang, env, Receiver(root), e).Ok?
  {
    if kept.Ok? { ProjectedDelivery(lang, env, root, e, before); }
  }

  /** A projection delivers what it makes of the source's stream. */
  lemma ProjectedDelivery(lang: Lang, env: Env, root: Row, e: TypedExpr, scopes: seq<RowScope>)
    requires e.WellFormed() && e.op.Project? && e.op.key == []
    requires EvalView(lang, env, Receiver(root), e.kids[0]) == Ok(scopes)
    ensures Delivered(EvalView(lang, env, Receiver(root), e))
         == (var ranked :- RankRows(lang, env, Receiver(root), e, scopes);
             Ok(Bound(Ordered(e.op.descending, ranked), e.op.skip, e.op.limit)))
  {
    ProjectsRanked(lang, env, Receiver(root), e, scopes);
    var projected := ProjectScopes(lang, env, Receiver(root), e, scopes);
    assert EvalView(lang, env, Receiver(root), e) == if projected.Err? then Err(projected.error) else Ok(BareAll(projected.value));
    if projected.Ok? {
      assert RowsOf(BareAll(projected.value)) == projected.value;
    }
  }

  lemma ProjectsRanked(lang: Lang, env: Env, fs: seq<Frame>, e: TypedExpr, scopes: seq<RowScope>)
    requires e.WellFormed() && e.op.Project? && e.op.key == []
    ensures ProjectScopes(lang, env, fs, e, scopes)
         == (var ranked :- RankRows(lang, env, fs, e, scopes);
             Ok(Bound(Ordered(e.op.descending, ranked), e.op.skip, e.op.limit)))
  {
  }

  // ---- names a face binds itself -----------------------------------------

  function FieldOfLeaf(name: string, op: Op): TypedExpr { Node(ViewType, Op.Field(name), [Node(RowType, op, [])]) }

  /** `.lines[:x | x.active]`. */
  function ActiveLines(): TypedExpr {
    Node(ViewType, Op.SelectBind("x", true), [FieldOfLeaf("lines", Current), FieldOfLeaf("active", LocalBinding("x"))])
  }

  function CountActive(): TypedExpr { Node(ScalarType(false), Op.Aggregate(Count, None), [ActiveLines()]) }

  /** `.items { n: count(.lines[:x | x.active]) }`. */
  function CountingView(): FlatView {
    FlatView("items", None, None, [Output("n", CountActive())], [], [], None, None)
  }

  lemma FieldStays(name: string, op: Op)
    requires op.Current? || op.LocalBinding?
    ensures FieldOfLeaf(name, op).WellFormed() && !HasExternal(FieldOfLeaf(name, op))
  {
    assert !HasExternal(FieldOfLeaf(name, op).kids[0]);
  }

  lemma CountActiveStays(refs: CandidateRefs)
    ensures CountActive().WellFormed() && Extracted(CountActive(), refs)
  {
    FieldStays("lines", Current);
    FieldStays("active", LocalBinding("x"));
    assert !HasExternal(ActiveLines());
    NothingToHoist(CountActive(), refs);
  }

  lemma CountingFaces()
    ensures FlatWellFormed(CountingView()) && LowerFaces(CountingView()) == Faces(None, [CountActive()], [])
  {
    var flat := CountingView();
    var refs := CandidateRefs(true, Names(flat.bind));
    CountActiveStays(refs);
    assert OutputExprs(flat) == [CountActive()] && [CountActive()][1..] == [];
    assert AdmitPart(flat).1 == [];
    assert Stays(CountActive(), refs, 0);
    assert HoistAll([], refs, 0).0 == [];
    assert OutputPart(flat).0 == [CountActive()] + [];
    assert SortPart(flat).0 == [];
  }

  lemma FieldTransfers(c: Ctx, name: string, op: Op, p: Place)
    requires c.sub == map[] && (if op.Current? then p.between.depths.Has(0) else op.LocalBinding? && p.between.names.Has(op.name))
    ensures FieldOfLeaf(name, op).WellFormed() && Transfers(c, FieldOfLeaf(name, op), p)
  {
    var e := FieldOfLeaf(name, op);
    assert Transfers(c, e.kids[0], PlaceAt(c.sub, e, 0, p));
  }

  lemma ActiveLinesTransfer(c: Ctx, p: Place)
    requires c.sub == map[] && p.between.depths.Has(0)
    ensures ActiveLines().WellFormed() && Transfers(c, ActiveLines(), p)
  {
    var e := ActiveLines();
    FieldTransfers(c, "lines", Current, PlaceAt(c.sub, e, 0, p));
    assert PlaceAt(c.sub, e, 1, p).between.names.Has("x");
    FieldTransfers(c, "active", LocalBinding("x"), PlaceAt(c.sub, e, 1, p));
  }

  /** A face may use names that it binds itself: they are no side condition. */
  lemma OwnNamesTransfer(env: Env, hoisted: map<string, Cell>, row: Row)
    ensures FlatWellFormed(CountingView())
    ensures FacesTransfer(env, CountingView(), LowerFaces(CountingView()), map[], hoisted, row)
  {
    CountingFaces();
    CountActiveTransfers(FaceCtx(env, CountingView(), map[], hoisted, row), OutputPlace(CountingView()));
  }

  lemma CountActiveTransfers(c: Ctx, p: Place)
    requires c.sub == map[] && p.between.depths.Has(0)
    ensures CountActive().WellFormed() && Transfers(c, CountActive(), p)
  {
    ActiveLinesTransfer(c, PlaceAt(c.sub, CountActive(), 0, p));
  }
}
