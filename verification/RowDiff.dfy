/** The patch between two row sets (liasse-connect, core/frames.rs), undone by the client's
    application of it (liasse-wire, patch.rs), and what each operation of a patch does. */
module RowDiff {
  import opened Values
  import opened Replica

  // ---- what an operation does --------------------------------------------

  /** `b` is `a` without what stands at `i`. */
  ghost predicate Without(a: seq<WireRow>, i: nat, b: seq<WireRow>) {
    && i < |a| && |a| == |b| + 1
    && forall k :: 0 <= k < |b| ==> b[k] == a[if k < i then k else k + 1]
  }

  /** The row at `i` is the first that carries `occ`. */
  ghost predicate FirstWith(rows: seq<WireRow>, occ: string, i: nat) {
    i < |rows| && rows[i].occ == occ && forall j :: 0 <= j < i ==> rows[j].occ != occ
  }

  /** What `op` makes of `rows`: the row of its token is taken out, given a value or put at a
      place, every other row keeps its value and its order, and what cannot be done is
      refused for its reason. */
  ghost predicate Does(rows: seq<WireRow>, op: PatchOp, outcome: Outcome<seq<WireRow>>) {
    if op.InsertRow? then
      if Holds(rows, op.occ) then outcome == Err(DuplicateOccurrence(op.occ))
      else if op.at > |rows| then outcome == Err(PositionOutOfRange(op.at, |rows|))
      else outcome.Ok? && Without(outcome.value, op.at, rows) && outcome.value[op.at] == WireRow(op.occ, op.value)
    else if !Holds(rows, op.occ) then outcome == Err(UnknownOccurrence(op.occ))
    else exists i: nat :: FirstWith(rows, op.occ, i) && DoesAt(rows, op, i, outcome)
  }

  ghost predicate DoesAt(rows: seq<WireRow>, op: PatchOp, i: nat, outcome: Outcome<seq<WireRow>>)
    requires FirstWith(rows, op.occ, i)
  {
    match op
    case RemoveRow(_) => outcome.Ok? && Without(rows, i, outcome.value)
    case UpdateRow(occ, value) =>
      && outcome.Ok? && |outcome.value| == |rows|
      && forall k :: 0 <= k < |rows| ==> outcome.value[k] == if k == i then WireRow(occ, value) else rows[k]
    case MoveRow(_, dest) =>
      if dest >= |rows| then outcome == Err(PositionOutOfRange(dest, |rows| - 1))
      else outcome.Ok? && exists rest :: Without(rows, i, rest) && Without(outcome.value, dest, rest) && outcome.value[dest] == rows[i]
    case Rekey(_, _) => outcome == Ok(rows)
    case InsertRow(_, _, _) => false
  }

  lemma RemovedIsWithout(rows: seq<WireRow>, i: nat)
    requires i < |rows|
    ensures Without(rows, i, RemoveAt(rows, i))
  {
  }

  lemma WithoutInserted(rows: seq<WireRow>, i: nat, row: WireRow)
    requires i <= |rows|
    ensures Without(InsertAt(rows, i, row), i, rows) && InsertAt(rows, i, row)[i] == row
  {
  }

  lemma OpDoes(rows: seq<WireRow>, op: PatchOp)
    ensures Does(rows, op, ApplyOp(rows, op))
  {
    var at := Position(rows, op.occ);
    if at.Ok? { assert Holds(rows, op.occ) && FirstWith(rows, op.occ, at.value); }
    match op
    case InsertRow(i, occ, value) =>
      if at.Err? && i <= |rows| { WithoutInserted(rows, i, WireRow(occ, value)); }
    case RemoveRow(_) =>
      if at.Ok? { RemovedIsWithout(rows, at.value); }
    case MoveRow(_, dest) =>
      if at.Ok? {
        RemovedIsWithout(rows, at.value);
        if dest < |rows| { WithoutInserted(RemoveAt(rows, at.value), dest, rows[at.value]); }
      }
    case _ =>
  }

  // ---- the diff ----------------------------------------------------------

  function Find(rows: seq<WireRow>, occ: string): (r: Option<WireRow>)
    ensures r.Some? ==> r.value in rows && r.value.occ == occ
    ensures r.None? ==> !Holds(rows, occ)
  {
    if rows == [] then None
    else if rows[0].occ == occ then Some(rows[0])
    else Find(rows[1..], occ)
  }

  function IndexOf(occs: seq<string>, occ: string): (r: Option<nat>)
    ensures r.Some? ==> r.value < |occs| && occs[r.value] == occ
    ensures r.None? ==> occ !in occs
  {
    if occs == [] then None
    else if occs[0] == occ then Some(0)
    else
      var rest := IndexOf(occs[1..], occ);
      if rest.Some? then Some(rest.value + 1) else None
  }

  function Occs(rows: seq<WireRow>): seq<string> { seq(|rows|, i requires 0 <= i < |rows| => rows[i].occ) }

  ghost predicate AllIn(rows: seq<WireRow>, next: seq<WireRow>) { forall i :: 0 <= i < |rows| ==> rows[i] in next }

  lemma AppendOp(prev: seq<WireRow>, ops: seq<PatchOp>, op: PatchOp)
    ensures ApplyOps(prev, ops + [op]) == (var rows :- ApplyOps(prev, ops); ApplyOp(rows, op))
  {
    assert (ops + [op])[..|ops|] == ops;
  }

  lemma PositionIs(rows: seq<WireRow>, i: nat)
    requires Distinct(rows) && i < |rows|
    ensures Position(rows, rows[i].occ) == Ok(i)
  {
  }

  /** One row, one value: two rows of `next` with one token are the same. */
  lemma SameRow(next: seq<WireRow>, a: WireRow, b: WireRow)
    requires Distinct(next) && a in next && b in next && a.occ == b.occ
    ensures a == b
  {
  }

  /** Before row `n` of the first pass: `settled` survivors hold their new values, the rest
      is as it was. */
  ghost predicate Swept(prev: seq<WireRow>, next: seq<WireRow>, n: nat, ops: seq<PatchOp>, working: seq<string>, settled: seq<WireRow>)
    requires n <= |prev|
  {
    && ApplyOps(prev, ops) == Ok(settled + prev[n..]) && Distinct(settled + prev[n..])
    && working == Occs(settled) && AllIn(settled, next)
  }

  /** The same, when the tokens to start from are distinct. */
  ghost predicate SweptSoFar(prev: seq<WireRow>, next: seq<WireRow>, n: nat, ops: seq<PatchOp>, working: seq<string>, settled: seq<WireRow>)
    requires n <= |prev|
  {
    Distinct(prev) ==> Swept(prev, next, n, ops, working, settled)
  }

  /** One row of the first pass. */
  lemma SweepsOn(prev: seq<WireRow>, next: seq<WireRow>, n: nat, ops: seq<PatchOp>, working: seq<string>, settled: seq<WireRow>, after: Option<WireRow>)
    requires n < |prev| && SweptSoFar(prev, next, n, ops, working, settled)
    requires after.Some? ==> after.value in next && after.value.occ == prev[n].occ
    ensures after.None? ==> SweptSoFar(prev, next, n + 1, ops + [RemoveRow(prev[n].occ)], working, settled)
    ensures after.Some? && after.value.value != prev[n].value ==>
      SweptSoFar(prev, next, n + 1, ops + [UpdateRow(after.value.occ, after.value.value)], working + [prev[n].occ], settled + [after.value])
    ensures after.Some? && after.value.value == prev[n].value ==>
      SweptSoFar(prev, next, n + 1, ops, working + [prev[n].occ], settled + [prev[n]])
  {
    if Distinct(prev) {
      if after.None? {
        SweepDrops(prev, next, n, ops, working, settled);
      } else if after.value.value != prev[n].value {
        SweepUpdates(prev, next, n, ops, working, settled, after.value);
      } else {
        assert prev[n] == after.value;
        SweepKeeps(prev, next, n, ops, working, settled);
      }
    }
  }

  lemma SweepDrops(prev: seq<WireRow>, next: seq<WireRow>, n: nat, ops: seq<PatchOp>, working: seq<string>, settled: seq<WireRow>)
    requires n < |prev| && Swept(prev, next, n, ops, working, settled)
    ensures Swept(prev, next, n + 1, ops + [RemoveRow(prev[n].occ)], working, settled)
  {
    var rows := settled + prev[n..];
    assert rows[|settled|] == prev[n];
    PositionIs(rows, |settled|);
    AppendOp(prev, ops, RemoveRow(prev[n].occ));
    HoldsRemoved(rows, |settled|);
    assert RemoveAt(rows, |settled|) == settled + prev[n + 1..];
  }

  lemma SweepUpdates(prev: seq<WireRow>, next: seq<WireRow>, n: nat, ops: seq<PatchOp>, working: seq<string>, settled: seq<WireRow>,
                     after: WireRow)
    requires n < |prev| && Swept(prev, next, n, ops, working, settled) && after in next && after.occ == prev[n].occ
    ensures Swept(prev, next, n + 1, ops + [UpdateRow(after.occ, after.value)], working + [after.occ], settled + [after])
  {
    var rows, op := settled + prev[n..], UpdateRow(after.occ, after.value);
    assert rows[|settled|] == prev[n];
    PositionIs(rows, |settled|);
    AppendOp(prev, ops, op);
    assert ApplyOp(rows, op) == Ok(rows[|settled| := after]);
    OpKeepsDistinct(rows, op);
    UpdatedRows(prev, n, settled, after);
    SettlesOne(settled, after, next);
  }

  lemma UpdatedRows(prev: seq<WireRow>, n: nat, settled: seq<WireRow>, after: WireRow)
    requires n < |prev|
    ensures (settled + prev[n..])[|settled| := after] == settled + [after] + prev[n + 1..]
  {
  }

  lemma SettlesOne(settled: seq<WireRow>, row: WireRow, next: seq<WireRow>)
    requires AllIn(settled, next) && row in next
    ensures AllIn(settled + [row], next) && Occs(settled + [row]) == Occs(settled) + [row.occ]
  {
  }

  lemma SweepKeeps(prev: seq<WireRow>, next: seq<WireRow>, n: nat, ops: seq<PatchOp>, working: seq<string>, settled: seq<WireRow>)
    requires n < |prev| && Swept(prev, next, n, ops, working, settled) && prev[n] in next
    ensures Swept(prev, next, n + 1, ops, working + [prev[n].occ], settled + [prev[n]])
  {
    assert settled + prev[n..] == settled + [prev[n]] + prev[n + 1..];
    SettlesOne(settled, prev[n], next);
  }

  /** Before place `i` of the second pass: the first `i` rows are those of `next`, and the
      rows after them are rows of `next` too. */
  ghost predicate Placed(prev: seq<WireRow>, next: seq<WireRow>, i: nat, ops: seq<PatchOp>, working: seq<string>, rows: seq<WireRow>)
    requires i <= |next|
  {
    && ApplyOps(prev, ops) == Ok(rows) && Distinct(rows) && working == Occs(rows) && AllIn(rows, next)
    && i <= |rows| && rows[..i] == next[..i]
  }

  /** `occ` put in at `i`, or at the end. */
  function Inserted(occs: seq<string>, i: nat, occ: string): seq<string> {
    if i <= |occs| then occs[..i] + [occ] + occs[i..] else occs + [occ]
  }

  /** The same, when `next` repeats no token and the first pass has left it so. */
  ghost predicate PlacedSoFar(sets: bool, prev: seq<WireRow>, next: seq<WireRow>, i: nat, ops: seq<PatchOp>, working: seq<string>, rows: seq<WireRow>)
    requires i <= |next|
  {
    sets ==> Distinct(next) && Placed(prev, next, i, ops, working, rows)
  }

  /** What the rows are after place `i`. */
  function After(rows: seq<WireRow>, i: nat, at: Option<nat>, target: WireRow): seq<WireRow> {
    if at.Some? then if i < |rows| && at.value < |rows| then InsertAt(RemoveAt(rows, at.value), i, rows[at.value]) else rows
    else if i <= |rows| then InsertAt(rows, i, target) else rows
  }

  /** A place of the second pass that has to be filled: its row is moved there, or inserted. */
  lemma PlacesMoved(sets: bool, prev: seq<WireRow>, next: seq<WireRow>, i: nat, ops: seq<PatchOp>, working: seq<string>, rows: seq<WireRow>,
                    at: nat)
    requires i < |next| && PlacedSoFar(sets, prev, next, i, ops, working, rows) && at < |working| && working[at] == next[i].occ
    ensures PlacedSoFar(sets, prev, next, i + 1, ops + [MoveRow(next[i].occ, i)],
                        Inserted(working[..at] + working[at + 1..], i, next[i].occ), After(rows, i, Some(at), next[i]))
  {
    if sets { PlaceMoves(prev, next, i, ops, working, rows, at); }
  }

  lemma PlacesInserted(sets: bool, prev: seq<WireRow>, next: seq<WireRow>, i: nat, ops: seq<PatchOp>, working: seq<string>, rows: seq<WireRow>)
    requires i < |next| && PlacedSoFar(sets, prev, next, i, ops, working, rows) && next[i].occ !in working
    ensures PlacedSoFar(sets, prev, next, i + 1, ops + [InsertRow(i, next[i].occ, next[i].value)],
                        Inserted(working, i, next[i].occ), After(rows, i, None, next[i]))
  {
    if sets { PlaceInserts(prev, next, i, ops, working, rows); }
  }

  lemma PlaceStays(prev: seq<WireRow>, next: seq<WireRow>, i: nat, ops: seq<PatchOp>, working: seq<string>, rows: seq<WireRow>)
    requires Distinct(next) && i < |next| && Placed(prev, next, i, ops, working, rows)
    requires i < |working| && working[i] == next[i].occ
    ensures Placed(prev, next, i + 1, ops, working, rows)
  {
    SameRow(next, rows[i], next[i]);
    assert rows[..i + 1] == rows[..i] + [rows[i]] && next[..i + 1] == next[..i] + [next[i]];
  }

  lemma PlaceMoves(prev: seq<WireRow>, next: seq<WireRow>, i: nat, ops: seq<PatchOp>, working: seq<string>, rows: seq<WireRow>, at: nat)
    requires Distinct(next) && i < |next| && Placed(prev, next, i, ops, working, rows)
    requires at < |working| && working[at] == next[i].occ
    ensures i <= at
    ensures var rest := working[..at] + working[at + 1..];
      Placed(prev, next, i + 1, ops + [MoveRow(next[i].occ, i)], rest[..i] + [next[i].occ] + rest[i..],
             InsertAt(RemoveAt(rows, at), i, rows[at]))
  {
    SettledElsewhere(next, i, rows, at);
    SameRow(next, rows[at], next[i]);
    PositionIs(rows, at);
    var op, rest := MoveRow(next[i].occ, i), RemoveAt(rows, at);
    AppendOp(prev, ops, op);
    assert ApplyOp(rows, op) == Ok(InsertAt(rest, i, rows[at]));
    OpKeepsDistinct(rows, op);
    assert rest[..i] == rows[..i] by { assert forall k :: 0 <= k < i ==> rest[k] == rows[k]; }
    assert Occs(rest) == working[..at] + working[at + 1..];
    RestIsIn(rows, at, next);
    PutAt(rest, i, next);
    assert rows[at] == next[i];
  }

  lemma RestIsIn(rows: seq<WireRow>, at: nat, next: seq<WireRow>)
    requires at < |rows| && AllIn(rows, next)
    ensures AllIn(RemoveAt(rows, at), next)
  {
    var rest := RemoveAt(rows, at);
    forall k | 0 <= k < |rest|
      ensures rest[k] in next
    {
      assert rest[k] == rows[if k < at then k else k + 1];
    }
  }

  /** Putting the row that belongs at `i` there places one more. */
  lemma PutAt(rows: seq<WireRow>, i: nat, next: seq<WireRow>)
    requires i < |next| && i <= |rows| && rows[..i] == next[..i] && AllIn(rows, next)
    ensures var more := InsertAt(rows, i, next[i]);
      AllIn(more, next) && more[..i + 1] == next[..i + 1] && Occs(more) == Occs(rows)[..i] + [next[i].occ] + Occs(rows)[i..]
  {
    var more := InsertAt(rows, i, next[i]);
    assert more[..i + 1] == rows[..i] + [next[i]] && next[..i + 1] == next[..i] + [next[i]];
    forall k | 0 <= k < |more|
      ensures more[k] in next
    {
      assert more[k] == if k < i then rows[k] else if k == i then next[i] else rows[k - 1];
    }
  }

  /** The row sought for place `i` is not among those placed. */
  lemma SettledElsewhere(next: seq<WireRow>, i: nat, rows: seq<WireRow>, at: nat)
    requires Distinct(next) && i < |next| && i <= |rows| && rows[..i] == next[..i] && at < |rows| && rows[at].occ == next[i].occ
    ensures i <= at
  {
    assert forall k :: 0 <= k < i ==> rows[..i][k] == rows[k] && next[..i][k] == next[k];
  }

  lemma PlaceInserts(prev: seq<WireRow>, next: seq<WireRow>, i: nat, ops: seq<PatchOp>, working: seq<string>, rows: seq<WireRow>)
    requires Distinct(next) && i < |next| && Placed(prev, next, i, ops, working, rows) && next[i].occ !in working
    ensures i <= |working|
    ensures Placed(prev, next, i + 1, ops + [InsertRow(i, next[i].occ, next[i].value)],
                   working[..i] + [next[i].occ] + working[i..], InsertAt(rows, i, next[i]))
  {
    var op := InsertRow(i, next[i].occ, next[i].value);
    forall k | 0 <= k < |rows|
      ensures rows[k].occ != next[i].occ
    {
      assert working[k] in working;
    }
    AppendOp(prev, ops, op);
    OpKeepsDistinct(rows, op);
    PutAt(rows, i, next);
  }

  lemma ExtraRepeats(next: seq<WireRow>, rows: seq<WireRow>)
    requires |next| < |rows| && rows[..|next|] == next && AllIn(rows, next)
    ensures !Distinct(rows)
  {
    var j :| 0 <= j < |next| && next[j] == rows[|next|];
    assert rows[j] == rows[..|next|][j];
  }

  /** All placed: no row is left over. */
  lemma AllPlaced(prev: seq<WireRow>, next: seq<WireRow>, ops: seq<PatchOp>, working: seq<string>, rows: seq<WireRow>)
    requires Placed(prev, next, |next|, ops, working, rows)
    ensures ApplyOps(prev, ops) == Ok(next)
  {
    assert next[..|next|] == next;
    if |rows| > |next| { ExtraRepeats(next, rows); }
    assert rows[..|next|] == rows;
  }

  /** First pass: drop the departed, update the survivors whose value changed. */
  method Sweep(prev: seq<WireRow>, next: seq<WireRow>) returns (ops: seq<PatchOp>, working: seq<string>, ghost rows: seq<WireRow>)
    ensures SweptSoFar(prev, next, |prev|, ops, working, rows)
  {
    ops, working, rows := [], [], [];
    assert prev[0..] == prev && [] + prev == prev;
    for n := 0 to |prev|
      invariant SweptSoFar(prev, next, n, ops, working, rows)
    {
      var row := prev[n];
      var after := Find(next, row.occ);
      SweepsOn(prev, next, n, ops, working, rows, after);
      if after.None? {
        ops := ops + [RemoveRow(row.occ)];
      } else if after.value.value != row.value {
        working, rows := working + [row.occ], rows + [after.value];
        ops := ops + [UpdateRow(after.value.occ, after.value.value)];
      } else {
        working, rows := working + [row.occ], rows + [row];
      }
    }
  }

  /** Second pass: from left to right, bring the row of every place there. */
  method Place(ghost prev: seq<WireRow>, next: seq<WireRow>, swept: seq<PatchOp>, survivors: seq<string>, ghost settled: seq<WireRow>)
      returns (ops: seq<PatchOp>)
    ensures Distinct(next) && Placed(prev, next, 0, swept, survivors, settled) ==> ApplyOps(prev, ops) == Ok(next)
  {
    ops := swept;
    var working := survivors;
    ghost var sets := Distinct(next) && Placed(prev, next, 0, swept, survivors, settled);
    ghost var rows := settled;
    for i := 0 to |next|
      invariant PlacedSoFar(sets, prev, next, i, ops, working, rows)
    {
      var target := next[i];
      if i < |working| && working[i] == target.occ {
        if sets { PlaceStays(prev, next, i, ops, working, rows); }
        continue;
      }
      var at := IndexOf(working, target.occ);
      if at.Some? {
        PlacesMoved(sets, prev, next, i, ops, working, rows, at.value);
        working := Inserted(working[..at.value] + working[at.value + 1..], i, target.occ);
        ops := ops + [MoveRow(target.occ, i)];
      } else {
        PlacesInserted(sets, prev, next, i, ops, working, rows);
        working := Inserted(working, i, target.occ);
        ops := ops + [InsertRow(i, target.occ, target.value)];
      }
      rows := After(rows, i, at, target);
    }
    if sets { AllPlaced(prev, next, ops, working, rows); }
  }

  /** The patch from one row set to the next: applied to the first it gives exactly the
      second, tokens, values and order, for every pair of sets with distinct tokens; to a set
      that repeats a token no patch leads. */
  method DiffRows(prev: seq<WireRow>, next: seq<WireRow>) returns (ops: seq<PatchOp>)
    ensures Distinct(prev) ==> (ApplyOps(prev, ops) == Ok(next) <==> Distinct(next))
  {
    var swept, working;
    ghost var rows;
    swept, working, rows := Sweep(prev, next);
    assert prev[|prev|..] == [] && rows + [] == rows;
    ops := Place(prev, next, swept, working, rows);
    if Distinct(prev) && ApplyOps(prev, ops).Ok? { PatchKeepsDistinct(prev, ops); }
  }
}
