/** The connection replica (liasse-connect-wasm, replica.rs) over its per-subscription
    stores (liasse-wire, store.rs and patch.rs). */
module Replica {
  import opened Values

  /** A JSON value, as its canonical text. */
  type Payload = string

  datatype WireRow = WireRow(occ: string, value: Payload)

  datatype PatchOp =
    | InsertRow(at: nat, occ: string, value: Payload)
    | RemoveRow(occ: string)
    | MoveRow(occ: string, dest: nat)
    | UpdateRow(occ: string, value: Payload)
    | Rekey(occ: string, key: Payload)

  datatype ReplicaError =
    | Codec
    | NotSubscribed(sub: string)
    | NotInitialized
    | ShapeMismatch
    | NotLive
    | UnknownOccurrence(occ: string)
    | PositionOutOfRange(position: nat, length: nat)
    | DuplicateOccurrence(occ: string)

  datatype Outcome<+T> = Ok(value: T) | Err(error: ReplicaError) {
    predicate IsFailure() { Err? }
    function PropagateFailure<U>(): Outcome<U>
      requires Err?
    {
      Err(error)
    }
    function Extract(): T
      requires Ok?
    {
      value
    }
  }

  // ---- patches -----------------------------------------------------------

  function Position(rows: seq<WireRow>, occ: string): (r: Outcome<nat>)
    ensures r.Ok? ==> r.value < |rows| && rows[r.value].occ == occ
    ensures r.Ok? ==> forall i :: 0 <= i < r.value ==> rows[i].occ != occ
    ensures r.Err? ==> r == Err(UnknownOccurrence(occ)) && forall i :: 0 <= i < |rows| ==> rows[i].occ != occ
  {
    if rows == [] then Err(UnknownOccurrence(occ))
    else if rows[0].occ == occ then Ok(0)
    else
      var at :- Position(rows[1..], occ);
      Ok(at + 1)
  }

  function RemoveAt(rows: seq<WireRow>, at: nat): seq<WireRow>
    requires at < |rows|
  {
    rows[..at] + rows[at + 1..]
  }

  function InsertAt(rows: seq<WireRow>, at: nat, row: WireRow): seq<WireRow>
    requires at <= |rows|
  {
    rows[..at] + [row] + rows[at..]
  }

  function ApplyOp(rows: seq<WireRow>, op: PatchOp): Outcome<seq<WireRow>> {
    match op
    case RemoveRow(occ) =>
      var at :- Position(rows, occ);
      Ok(RemoveAt(rows, at))
    case UpdateRow(occ, value) =>
      var at :- Position(rows, occ);
      Ok(rows[at := WireRow(occ, value)])
    case MoveRow(occ, dest) =>
      var at :- Position(rows, occ);
      var rest := RemoveAt(rows, at);
      if dest > |rest| then Err(PositionOutOfRange(dest, |rest|)) else Ok(InsertAt(rest, dest, rows[at]))
    case InsertRow(at, occ, value) =>
      if Position(rows, occ).Ok? then Err(DuplicateOccurrence(occ))
      else if at > |rows| then Err(PositionOutOfRange(at, |rows|))
      else Ok(InsertAt(rows, at, WireRow(occ, value)))
    case Rekey(occ, _) =>
      var at :- Position(rows, occ);
      Ok(rows)
  }

  function ApplyOps(rows: seq<WireRow>, ops: seq<PatchOp>): Outcome<seq<WireRow>> {
    if ops == [] then Ok(rows)
    else
      var before :- ApplyOps(rows, ops[..|ops| - 1]);
      ApplyOp(before, ops[|ops| - 1])
  }

  lemma {:induction false} FailureStays(rows: seq<WireRow>, ops: seq<PatchOp>, n: nat)
    requires n <= |ops| && ApplyOps(rows, ops[..n]).Err?
    ensures ApplyOps(rows, ops) == ApplyOps(rows, ops[..n])
    decreases |ops|
  {
    if n == |ops| {
      assert ops[..n] == ops;
    } else {
      assert ops[..|ops| - 1][..n] == ops[..n];
      FailureStays(rows, ops[..|ops| - 1], n);
    }
  }

  /** The index-checked application: operation by operation, the first failure wins. */
  method ApplyPatch(prev: seq<WireRow>, ops: seq<PatchOp>) returns (r: Outcome<seq<WireRow>>)
    ensures r == ApplyOps(prev, ops)
  {
    var rows := prev;
    for n := 0 to |ops|
      invariant ApplyOps(prev, ops[..n]) == Ok(rows)
    {
      assert ops[..n + 1][..n] == ops[..n];
      var next := ApplyOp(rows, ops[n]);
      if next.Err? {
        FailureStays(prev, ops, n + 1);
        return next;
      }
      rows := next.value;
    }
    assert ops[..|ops|] == ops;
    return Ok(rows);
  }

  ghost predicate Distinct(rows: seq<WireRow>) {
    forall i, j :: 0 <= i < j < |rows| ==> rows[i].occ != rows[j].occ
  }

  /** Tokens stay distinct, and the tokens held are the old ones but for the one inserted
      or removed. */
  lemma OpKeepsDistinct(rows: seq<WireRow>, op: PatchOp)
    requires Distinct(rows) && ApplyOp(rows, op).Ok?
    ensures Distinct(ApplyOp(rows, op).value)
    ensures forall occ :: Holds(ApplyOp(rows, op).value, occ) <==> (if occ == op.occ then !op.RemoveRow? else Holds(rows, occ))
  {
    var next := ApplyOp(rows, op).value;
    if op.InsertRow? {
      HoldsInserted(rows, op.at, WireRow(op.occ, op.value));
    } else {
      var at := Position(rows, op.occ).value;
      HoldsRemoved(rows, at);
      if op.MoveRow? {
        HoldsInserted(RemoveAt(rows, at), op.dest, rows[at]);
      } else if op.UpdateRow? {
        forall occ
          ensures Holds(next, occ) <==> Holds(rows, occ)
        {
          if i :| 0 <= i < |rows| && rows[i].occ == occ { assert next[i].occ == occ; }
          if i :| 0 <= i < |next| && next[i].occ == occ { assert rows[i].occ == occ; }
        }
        assert Holds(rows, op.occ);
      } else if op.Rekey? {
        assert Holds(rows, op.occ);
      }
    }
  }

  ghost predicate Holds(rows: seq<WireRow>, occ: string) {
    exists i :: 0 <= i < |rows| && rows[i].occ == occ
  }

  lemma HoldsRemoved(rows: seq<WireRow>, at: nat)
    requires Distinct(rows) && at < |rows|
    ensures Distinct(RemoveAt(rows, at))
    ensures forall occ :: Holds(RemoveAt(rows, at), occ) <==> occ != rows[at].occ && Holds(rows, occ)
  {
    var rest := RemoveAt(rows, at);
    assert forall i :: 0 <= i < |rest| ==> rest[i] == rows[if i < at then i else i + 1];
    forall occ | Holds(rows, occ) && occ != rows[at].occ
      ensures Holds(rest, occ)
    {
      var i :| 0 <= i < |rows| && rows[i].occ == occ;
      assert rest[if i < at then i else i - 1].occ == occ;
    }
  }

  lemma DistinctInserted(rows: seq<WireRow>, at: nat, row: WireRow)
    requires Distinct(rows) && at <= |rows| && !Holds(rows, row.occ)
    ensures Distinct(InsertAt(rows, at, row))
  {
    var more := InsertAt(rows, at, row);
    forall i, j | 0 <= i < j < |more|
      ensures more[i].occ != more[j].occ
    {
      var k := if i < at then i else i - 1;
      var l := if j < at then j else j - 1;
      assert i != at ==> more[i] == rows[k];
      assert j != at ==> more[j] == rows[l];
    }
  }

  lemma HoldsInserted(rows: seq<WireRow>, at: nat, row: WireRow)
    requires Distinct(rows) && at <= |rows| && !Holds(rows, row.occ)
    ensures Distinct(InsertAt(rows, at, row))
    ensures forall occ :: Holds(InsertAt(rows, at, row), occ) <==> occ == row.occ || Holds(rows, occ)
  {
    DistinctInserted(rows, at, row);
    forall occ
      ensures Holds(InsertAt(rows, at, row), occ) <==> occ == row.occ || Holds(rows, occ)
    {
      InsertedHolds(rows, at, row, occ);
    }
  }

  lemma InsertedHolds(rows: seq<WireRow>, at: nat, row: WireRow, occ: string)
    requires at <= |rows|
    ensures Holds(InsertAt(rows, at, row), occ) <==> occ == row.occ || Holds(rows, occ)
  {
    var more := InsertAt(rows, at, row);
    assert more[at] == row;
    if i :| 0 <= i < |rows| && rows[i].occ == occ {
      assert more[if i < at then i else i + 1] == rows[i];
    }
    if i :| 0 <= i < |more| && more[i].occ == occ {
      assert i != at ==> more[i] == rows[if i < at then i else i - 1];
    }
  }

  lemma {:induction false} PatchKeepsDistinct(rows: seq<WireRow>, ops: seq<PatchOp>)
    requires Distinct(rows) && ApplyOps(rows, ops).Ok?
    ensures Distinct(ApplyOps(rows, ops).value)
  {
    if ops != [] {
      PatchKeepsDistinct(rows, ops[..|ops| - 1]);
      OpKeepsDistinct(ApplyOps(rows, ops[..|ops| - 1]).value, ops[|ops| - 1]);
    }
  }

  // ---- one subscription --------------------------------------------------

  datatype Phase = Pending | RowStream(rows: seq<WireRow>) | ScalarValue(value: Payload) | Closed(reason: string) | WasReset(why: string)

  datatype Store = Store(phase: Phase, frontier: Option<string>) {
    predicate IsLive() { phase.Pending? || phase.RowStream? || phase.ScalarValue? }

    function Init(rows: seq<WireRow>, ft: string): Outcome<Store> {
      if IsLive() then Ok(Store(RowStream(rows), Some(ft))) else Err(NotLive)
    }

    function Scalar(value: Payload, ft: string): Outcome<Store> {
      if IsLive() then Ok(Store(ScalarValue(value), Some(ft))) else Err(NotLive)
    }

    function Patch(ops: seq<PatchOp>, ft: string): Outcome<Store> {
      match phase
      case RowStream(rows) =>
        var next :- ApplyOps(rows, ops);
        Ok(Store(RowStream(next), Some(ft)))
      case ScalarValue(_) => Err(ShapeMismatch)
      case Pending => Err(NotInitialized)
      case Closed(_) => Err(NotLive)
      case WasReset(_) => Err(NotLive)
    }

    function AdvanceFrontier(ft: string): Outcome<Store> {
      if IsLive() then Ok(Store(phase, Some(ft))) else Err(NotLive)
    }

    function Close(reason: string): Store { Store(Closed(reason), frontier) }

    function Rows(): seq<WireRow> { if phase.RowStream? then phase.rows else [] }

    function Value(): Option<Payload> { if phase.ScalarValue? then Some(phase.value) else None }
  }

  const FRESH := Store(Pending, None)

  // ---- the connection ----------------------------------------------------

  datatype Frame =
    | InitFrame(sub: string, rows: seq<WireRow>)
    | ScalarFrame(sub: string, value: Payload)
    | PatchFrame(sub: string, ops: seq<PatchOp>)
    | CloseFrame(sub: string, reason: string)
    | FrontierFrame
    | ResetFrame(why: string)
    | FaultFrame(code: string, message: string)

  /** One event of the stream: its decoded frame, `None` when it is malformed, and its
      event id, empty when it carries none. */
  datatype Message = Message(frame: Option<Frame>, ft: string)

  datatype Applied =
    | RowsNow(patched: bool, sub: string, ft: string, rows: seq<WireRow>)
    | ScalarNow(sub: string, ft: string, value: Option<Payload>)
    | ClosedNow(sub: string, reason: string)
    | FrontierNow(ft: string)
    | ResetNow(why: string)
    | FaultNow(code: string, message: string)

  datatype State = State(subs: map<string, Store>, frontier: Option<string>)

  const EMPTY := State(map[], None)

  function EntryOf(subs: map<string, Store>, sub: string): Store { if sub in subs then subs[sub] else FRESH }

  /** The connection-wide frontier: a live store takes it, an ended one refuses it. */
  function Advanced(store: Store, ft: string): Store {
    match store.AdvanceFrontier(ft) case Ok(next) => next case Err(_) => store
  }

  function AdvanceAll(subs: map<string, Store>, ft: string): map<string, Store> {
    map sub | sub in subs :: Advanced(subs[sub], ft)
  }

  datatype Stepped = Stepped(state: State, result: Outcome<Applied>)

  /** What one message does to the connection, and what it reports. */
  function Step(s: State, msg: Message): Stepped {
    if msg.frame.None? then Stepped(s, Err(Codec))
    else
      var ft := msg.ft;
      match msg.frame.value
      case InitFrame(sub, rows) =>
        (match EntryOf(s.subs, sub).Init(rows, ft)
         case Ok(store) => Stepped(State(s.subs[sub := store], Some(ft)), Ok(RowsNow(false, sub, ft, store.Rows())))
         case Err(e) => Stepped(State(s.subs[sub := EntryOf(s.subs, sub)], s.frontier), Err(e)))
      case ScalarFrame(sub, value) =>
        (match EntryOf(s.subs, sub).Scalar(value, ft)
         case Ok(store) => Stepped(State(s.subs[sub := store], Some(ft)), Ok(ScalarNow(sub, ft, store.Value())))
         case Err(e) => Stepped(State(s.subs[sub := EntryOf(s.subs, sub)], s.frontier), Err(e)))
      case PatchFrame(sub, ops) =>
        if sub !in s.subs then Stepped(s, Err(NotSubscribed(sub)))
        else (
          match s.subs[sub].Patch(ops, ft)
          case Ok(store) => Stepped(State(s.subs[sub := store], Some(ft)), Ok(RowsNow(true, sub, ft, store.Rows())))
          case Err(e) => Stepped(s, Err(e)))
      case CloseFrame(sub, reason) =>
        Stepped(State(s.subs[sub := EntryOf(s.subs, sub).Close(reason)], if ft != "" then Some(ft) else s.frontier),
                Ok(ClosedNow(sub, reason)))
      case FrontierFrame => Stepped(State(AdvanceAll(s.subs, ft), Some(ft)), Ok(FrontierNow(ft)))
      case ResetFrame(why) => Stepped(EMPTY, Ok(ResetNow(why)))
      case FaultFrame(code, message) => Stepped(s, Ok(FaultNow(code, message)))
  }

  class ClientReplica {
    var subs: map<string, Store>
    var frontier: Option<string>

    function Current(): State
      reads this
    {
      State(subs, frontier)
    }

    constructor ()
      ensures Current() == EMPTY
    {
      subs, frontier := map[], None;
    }

    method Apply(msg: Message) returns (r: Outcome<Applied>)
      modifies this
      ensures Current() == Step(old(Current()), msg).state
      ensures r == Step(old(Current()), msg).result
    {
      if msg.frame.None? {
        return Err(Codec);
      }
      var ft := msg.ft;
      match msg.frame.value {
        case InitFrame(sub, rows) =>
          var store := OrDefault(sub).Init(rows, ft);
          subs := subs[sub := if store.Ok? then store.value else OrDefault(sub)];
          if store.Err? {
            return Err(store.error);
          }
          frontier := Some(ft);
          return Ok(RowsNow(false, sub, ft, RowsOf(sub)));
        case ScalarFrame(sub, value) =>
          var store := OrDefault(sub).Scalar(value, ft);
          subs := subs[sub := if store.Ok? then store.value else OrDefault(sub)];
          if store.Err? {
            return Err(store.error);
          }
          frontier := Some(ft);
          return Ok(ScalarNow(sub, ft, ScalarOf(sub)));
        case PatchFrame(sub, ops) =>
          if sub !in subs {
            return Err(NotSubscribed(sub));
          }
          var store := subs[sub].Patch(ops, ft);
          if store.Err? {
            return Err(store.error);
          }
          subs := subs[sub := store.value];
          frontier := Some(ft);
          return Ok(RowsNow(true, sub, ft, RowsOf(sub)));
        case CloseFrame(sub, reason) =>
          subs := subs[sub := OrDefault(sub).Close(reason)];
          if ft != "" {
            frontier := Some(ft);
          }
          return Ok(ClosedNow(sub, reason));
        case FrontierFrame =>
          AdvanceEvery(ft);
          frontier := Some(ft);
          return Ok(FrontierNow(ft));
        case ResetFrame(why) =>
          subs := map[];
          frontier := None;
          return Ok(ResetNow(why));
        case FaultFrame(code, message) =>
          return Ok(FaultNow(code, message));
      }
    }

    method AdvanceEvery(ft: string)
      modifies this`subs
      ensures subs == AdvanceAll(old(subs), ft)
    {
      var rest := subs.Keys;
      while rest != {}
        invariant subs.Keys == old(subs).Keys && rest <= subs.Keys
        invariant forall sub :: sub in subs ==> subs[sub] == if sub in rest then old(subs)[sub] else Advanced(old(subs)[sub], ft)
      {
        var sub :| sub in rest;
        var advanced := subs[sub].AdvanceFrontier(ft);
        if advanced.Ok? {
          subs := subs[sub := advanced.value];
        }
        rest := rest - {sub};
      }
    }

    function OrDefault(sub: string): Store
      reads this
    {
      EntryOf(subs, sub)
    }

    function RowsOf(sub: string): seq<WireRow>
      reads this
    {
      if sub in subs then subs[sub].Rows() else []
    }

    function ScalarOf(sub: string): Option<Payload>
      reads this
    {
      if sub in subs then subs[sub].Value() else None
    }
  }

  // ---- what is reported --------------------------------------------------

  predicate Live(subs: map<string, Store>, sub: string) {
    sub in subs ==> subs[sub].phase.Pending? || subs[sub].phase.RowStream? || subs[sub].phase.ScalarValue?
  }

  /** Only this subscription's store changed. */
  ghost predicate OnlyAt(before: map<string, Store>, after: map<string, Store>, sub: string) {
    after.Keys == before.Keys + {sub} && forall other :: other in before && other != sub ==> after[other] == before[other]
  }

  /** The subscription holds the reported rows at the reported frontier: those of the frame,
      or those its patch makes of the rows it held. */
  ghost predicate RowsReported(s: State, msg: Message, t: State, patched: bool, sub: string, ft: string, rows: seq<WireRow>) {
    && msg.frame.Some? && ft == msg.ft && OnlyAt(s.subs, t.subs, sub)
    && t.subs[sub] == Store(RowStream(rows), Some(ft)) && t.frontier == Some(ft)
    && if patched then
         msg.frame.value.PatchFrame? && msg.frame.value.sub == sub && sub in s.subs && s.subs[sub].phase.RowStream?
         && ApplyOps(s.subs[sub].phase.rows, msg.frame.value.ops) == Ok(rows)
       else msg.frame.value == InitFrame(sub, rows) && Live(s.subs, sub)
  }

  ghost predicate ScalarReported(s: State, msg: Message, t: State, sub: string, ft: string, value: Option<Payload>) {
    && value.Some? && msg.frame == Some(ScalarFrame(sub, value.value)) && ft == msg.ft && Live(s.subs, sub)
    && OnlyAt(s.subs, t.subs, sub) && t.subs[sub] == Store(ScalarValue(value.value), Some(ft)) && t.frontier == Some(ft)
  }

  ghost predicate CloseReported(s: State, msg: Message, t: State, sub: string, reason: string) {
    && msg.frame == Some(CloseFrame(sub, reason)) && OnlyAt(s.subs, t.subs, sub)
    && t.subs[sub] == Store(Closed(reason), if sub in s.subs then s.subs[sub].frontier else None)
    && t.frontier == if msg.ft == "" then s.frontier else Some(msg.ft)
  }

  /** Every store that still runs is at the new frontier, with what it held. */
  ghost predicate FrontierReported(s: State, msg: Message, t: State, ft: string) {
    && msg.frame == Some(FrontierFrame) && ft == msg.ft && t.frontier == Some(ft) && t.subs.Keys == s.subs.Keys
    && forall sub :: sub in s.subs ==> t.subs[sub] == Store(s.subs[sub].phase, if Live(s.subs, sub) then Some(ft) else s.subs[sub].frontier)
  }

  /** Why a frame is refused. */
  ghost predicate Refusal(s: State, msg: Message, e: ReplicaError) {
    match msg.frame
    case None => e == Codec
    case Some(InitFrame(sub, _)) => !Live(s.subs, sub) && e == NotLive
    case Some(ScalarFrame(sub, _)) => !Live(s.subs, sub) && e == NotLive
    case Some(PatchFrame(sub, ops)) =>
      if sub !in s.subs then e == NotSubscribed(sub)
      else (
        match s.subs[sub].phase
        case Pending => e == NotInitialized
        case ScalarValue(_) => e == ShapeMismatch
        case RowStream(rows) => ApplyOps(rows, ops) == Err(e)
        case Closed(_) => e == NotLive
        case WasReset(_) => e == NotLive)
    case Some(_) => false
  }

  /** What a report says of the state it comes with. */
  ghost predicate Tells(s: State, msg: Message, t: State, result: Outcome<Applied>) {
    match result
    case Ok(RowsNow(patched, sub, ft, rows)) => RowsReported(s, msg, t, patched, sub, ft, rows)
    case Ok(ScalarNow(sub, ft, value)) => ScalarReported(s, msg, t, sub, ft, value)
    case Ok(ClosedNow(sub, reason)) => CloseReported(s, msg, t, sub, reason)
    case Ok(FrontierNow(ft)) => FrontierReported(s, msg, t, ft)
    case Ok(ResetNow(why)) => msg.frame == Some(ResetFrame(why)) && t == State(map[], None)
    case Ok(FaultNow(code, message)) => msg.frame == Some(FaultFrame(code, message)) && t == s
    case Err(e) => Refusal(s, msg, e)
  }

  /** Every report tells the state the connection is in after the message. */
  lemma ReportsTell(s: State, msg: Message)
    ensures Tells(s, msg, Step(s, msg).state, Step(s, msg).result)
  {
  }

  // ---- whole runs --------------------------------------------------------

  function Run(s: State, msgs: seq<Message>): State {
    if msgs == [] then s else Step(Run(s, msgs[..|msgs| - 1]), msgs[|msgs| - 1]).state
  }

  lemma RunStep(s: State, msgs: seq<Message>, i: nat)
    requires i < |msgs|
    ensures Run(s, msgs[..i + 1]) == Step(Run(s, msgs[..i]), msgs[i]).state
  {
    assert msgs[..i + 1][..i] == msgs[..i];
  }

  /** What the `i`-th message reports. */
  function Report(s: State, msgs: seq<Message>, i: nat): Outcome<Applied>
    requires i < |msgs|
  {
    Step(Run(s, msgs[..i]), msgs[i]).result
  }

  /** No later report is about this subscription, and none drops the connection. */
  ghost predicate SilentAfter(s: State, msgs: seq<Message>, i: nat, sub: string) {
    forall j :: i < j < |msgs| ==>
      match Report(s, msgs, j)
      case Ok(RowsNow(_, other, _, _)) => other != sub
      case Ok(ScalarNow(other, _, _)) => other != sub
      case Ok(ClosedNow(other, _)) => other != sub
      case Ok(ResetNow(_)) => false
      case _ => true
  }

  lemma SilenceKeeps(s: State, msgs: seq<Message>, i: nat, j: nat, sub: string)
    requires i < j < |msgs| && SilentAfter(s, msgs, i, sub) && sub in Run(s, msgs[..j]).subs
    ensures sub in Run(s, msgs[..j + 1]).subs && Run(s, msgs[..j + 1]).subs[sub].phase == Run(s, msgs[..j]).subs[sub].phase
  {
    RunStep(s, msgs, j);
    ReportsTell(Run(s, msgs[..j]), msgs[j]);
    if Report(s, msgs, j).Err? { FailureChangesNothing(Run(s, msgs[..j]), msgs[j]); }
  }

  lemma {:induction false} SilenceKeepsTo(s: State, msgs: seq<Message>, i: nat, n: nat, sub: string, rows: seq<WireRow>)
    requires i < n <= |msgs| && SilentAfter(s, msgs, i, sub)
    requires sub in Run(s, msgs[..i + 1]).subs && Run(s, msgs[..i + 1]).subs[sub].phase == RowStream(rows)
    ensures sub in Run(s, msgs[..n]).subs && Run(s, msgs[..n]).subs[sub].phase == RowStream(rows)
    decreases n
  {
    if i < n - 1 {
      SilenceKeepsTo(s, msgs, i, n - 1, sub, rows);
      SilenceKeeps(s, msgs, i, n - 1, sub);
    }
  }

  /** The reports are enough to render by: each tells the state it comes with, and the rows
      last reported for a subscription are the rows it holds, whatever else happens, until it
      is reported again or the connection is reset. */
  lemma LastReportHolds(s: State, msgs: seq<Message>, i: nat)
    requires i < |msgs|
    ensures Tells(Run(s, msgs[..i]), msgs[i], Run(s, msgs[..i + 1]), Report(s, msgs, i))
    ensures forall patched, sub, ft, rows :: Report(s, msgs, i) == Ok(RowsNow(patched, sub, ft, rows)) && SilentAfter(s, msgs, i, sub) ==>
      sub in Run(s, msgs).subs && Run(s, msgs).subs[sub].phase == RowStream(rows)
  {
    RunStep(s, msgs, i);
    ReportsTell(Run(s, msgs[..i]), msgs[i]);
    assert msgs[..|msgs|] == msgs;
    forall patched, sub, ft, rows | Report(s, msgs, i) == Ok(RowsNow(patched, sub, ft, rows)) && SilentAfter(s, msgs, i, sub)
      ensures sub in Run(s, msgs).subs && Run(s, msgs).subs[sub].phase == RowStream(rows)
    {
      SilenceKeepsTo(s, msgs, i, |msgs|, sub, rows);
    }
  }

  /** A message that fails changes nothing. */
  lemma FailureChangesNothing(s: State, msg: Message)
    requires Step(s, msg).result.Err?
    ensures Step(s, msg).state == s
  {
    if msg.frame.Some? && (msg.frame.value.InitFrame? || msg.frame.value.ScalarFrame?) {
      assert EntryOf(s.subs, msg.frame.value.sub) != FRESH;
      assert s.subs[msg.frame.value.sub := EntryOf(s.subs, msg.frame.value.sub)] == s.subs;
    }
  }

  /** The messages one subscription is concerned with: its own frames, and the frontier and
      reset frames of the whole connection. */
  predicate Concerns(msg: Message, sub: string) {
    msg.frame.Some? &&
    match msg.frame.value
    case InitFrame(s, _) => s == sub
    case ScalarFrame(s, _) => s == sub
    case PatchFrame(s, _) => s == sub
    case CloseFrame(s, _) => s == sub
    case FrontierFrame => true
    case ResetFrame(_) => true
    case FaultFrame(_, _) => false
  }

  function Only(msgs: seq<Message>, sub: string): seq<Message> {
    if msgs == [] then []
    else
      var last := msgs[|msgs| - 1];
      Only(msgs[..|msgs| - 1], sub) + (if Concerns(last, sub) then [last] else [])
  }

  function StoreOf(s: State, sub: string): Option<Store> { if sub in s.subs then Some(s.subs[sub]) else None }

  lemma StepIsLocal(s: State, t: State, msg: Message, sub: string)
    requires StoreOf(s, sub) == StoreOf(t, sub)
    ensures StoreOf(Step(s, msg).state, sub) == if Concerns(msg, sub) then StoreOf(Step(t, msg).state, sub) else StoreOf(t, sub)
  {
  }

  /** Demultiplexing is exact: after any sequence of messages, failing and malformed ones
      included, a subscription's store is that of a client fed only what concerns it. */
  lemma {:induction false} DemultiplexingIsExact(s: State, t: State, msgs: seq<Message>, sub: string)
    requires StoreOf(s, sub) == StoreOf(t, sub)
    ensures StoreOf(Run(s, msgs), sub) == StoreOf(Run(t, Only(msgs, sub)), sub)
  {
    if msgs != [] {
      var init, last := msgs[..|msgs| - 1], msgs[|msgs| - 1];
      DemultiplexingIsExact(s, t, init, sub);
      StepIsLocal(Run(s, init), Run(t, Only(init, sub)), last, sub);
      var kept := Only(init, sub) + [last];
      assert kept[..|kept| - 1] == Only(init, sub);
      assert Only(init, sub) + [] == Only(init, sub);
    }
  }

  /** The message succeeds and carries the connection to a new frontier. */
  predicate Moves(s: State, msg: Message) {
    && Step(s, msg).result.Ok?
    && match msg.frame.value
       case InitFrame(_, _) => true
       case ScalarFrame(_, _) => true
       case PatchFrame(_, _) => true
       case CloseFrame(_, _) => msg.ft != ""
       case FrontierFrame => true
       case ResetFrame(_) => false
       case FaultFrame(_, _) => false
  }

  predicate IsReset(msg: Message) { msg.frame.Some? && msg.frame.value.ResetFrame? }

  /** From the `i`-th message on, nothing moves the frontier. */
  ghost predicate QuietAfter(s: State, msgs: seq<Message>, i: nat) {
    forall j :: i <= j < |msgs| ==> !Moves(Run(s, msgs[..j]), msgs[j]) && !IsReset(msgs[j])
  }

  /** The retained connection frontier is the id of the last message that moved it: a reset
      clears it, and a failing frame, a fault or a bare close leaves it alone. */
  lemma {:induction false} FrontierFollows(s: State, msgs: seq<Message>, i: nat)
    requires i <= |msgs| && QuietAfter(s, msgs, i)
    ensures Run(s, msgs).frontier == Run(s, msgs[..i]).frontier
    ensures i > 0 && Moves(Run(s, msgs[..i - 1]), msgs[i - 1]) ==> Run(s, msgs).frontier == Some(msgs[i - 1].ft)
    ensures i > 0 && IsReset(msgs[i - 1]) ==> Run(s, msgs).frontier == None
  {
    if i < |msgs| {
      var init, last := msgs[..|msgs| - 1], msgs[|msgs| - 1];
      forall j | i <= j < |init|
        ensures !Moves(Run(s, init[..j]), init[j]) && !IsReset(init[j])
      {
        assert init[..j] == msgs[..j];
      }
      FrontierFollows(s, init, i);
      assert init[..i] == msgs[..i] && (i > 0 ==> init[..i - 1] == msgs[..i - 1]);
      if Step(Run(s, init), last).result.Err? { FailureChangesNothing(Run(s, init), last); }
    } else {
      assert msgs[..i] == msgs;
      assert i > 0 ==> msgs[..i][..i - 1] == msgs[..i - 1];
    }
  }

  // ---- invariants --------------------------------------------------------

  ghost predicate TokensDistinct(s: State) {
    forall sub :: sub in s.subs ==> Distinct(s.subs[sub].Rows())
  }

  /** Occurrence tokens stay unique in every subscription as long as initial sets are. */
  lemma {:induction false} TokensStayDistinct(s: State, msgs: seq<Message>)
    requires TokensDistinct(s)
    requires forall i :: 0 <= i < |msgs| && msgs[i].frame.Some? && msgs[i].frame.value.InitFrame? ==> Distinct(msgs[i].frame.value.rows)
    ensures TokensDistinct(Run(s, msgs))
  {
    if msgs != [] {
      var init, last := msgs[..|msgs| - 1], msgs[|msgs| - 1];
      TokensStayDistinct(s, init);
      StepKeepsDistinct(Run(s, init), last);
    }
  }

  lemma StepKeepsDistinct(s: State, msg: Message)
    requires TokensDistinct(s)
    requires msg.frame.Some? && msg.frame.value.InitFrame? ==> Distinct(msg.frame.value.rows)
    ensures TokensDistinct(Step(s, msg).state)
  {
    if msg.frame.Some? && msg.frame.value.PatchFrame? {
      var sub := msg.frame.value.sub;
      if sub in s.subs && s.subs[sub].phase.RowStream? && ApplyOps(s.subs[sub].phase.rows, msg.frame.value.ops).Ok? {
        assert s.subs[sub].Rows() == s.subs[sub].phase.rows;
        PatchKeepsDistinct(s.subs[sub].phase.rows, msg.frame.value.ops);
      }
    }
  }

  /** A closed subscription stays closed until the connection is reset, and nothing is
      delivered to it. */
  lemma {:induction false} ClosedStaysClosed(s: State, msgs: seq<Message>, sub: string)
    requires sub in s.subs && s.subs[sub].phase.Closed?
    requires forall i :: 0 <= i < |msgs| ==> !IsReset(msgs[i])
    ensures var after := Run(s, msgs); sub in after.subs && after.subs[sub].phase.Closed? && after.subs[sub].frontier == s.subs[sub].frontier
  {
    if msgs != [] {
      ClosedStaysClosed(s, msgs[..|msgs| - 1], sub);
      assert !IsReset(msgs[|msgs| - 1]);
    }
  }
}
