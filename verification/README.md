# Verified model of the expression compiler, model checker, artifact and connection layers

This project models, in Dafny, the parts of the repository whose correctness is a matter
of algorithms: the compiler that splits a view expression into per-row programs, the graph
and fixpoint passes of the package checker, the artifact container, and the stateful text
and stream protocols of a client connection. Each file is one module, named after what it
models.

**Expressions.** `Values`, `Rows` and `Order` give scalar values, row identities and the one
comparator sorted views use, and `Ascending` what ascending means without a comparator.
`TypedExprs` is the typed expression tree, one node per typed kind with its operands in order,
and `Evaluator` evaluates it over a stack of frames (a current value and local bindings each)
and an environment; arithmetic, aggregation, builtins, hosts and indices are uninterpreted
parameters. `ViewMeaning` says by position which rows the view operators deliver and what they
bind, `EvaluatorLaws` how choices, logic and comparisons behave. `Pairing` says what two frame
stacks or row streams have in common, `Streaming` that filters and projections of paired
streams come out paired, and `Simulation` when two evaluations agree: in other frames, in
another environment, or with subtrees replaced by bindings. `Hoist` is the hoisting pass and
its audit, `Candidates` what it means for a subtree not to reference the candidate,
`HoistMeaning` what hoisting preserves, `HoistLimits` and `StreamLimits` the inputs on which it
does not, `Lowering` the decomposition of a flat view and the row-by-row program that runs it,
`LoweredEntries` what such a program evaluates up front, `ResultOrder` the predicted delivery
order, and `Utf8` and `SortTupleBytes` the byte encoding of sort tuples.

**Model checker.** `Cycles` (dependency cycles), `Deletion` (deletion policies and transitive
deletability), `RefChains` (the refs it finds, by their places in the tree) and `Inference`
(types of computed values).

**Artifacts.** `RawScan` (the raw ZIP/ZIP64 directory scan), `Archive` (the container),
`Artifact` (opening), `Opening` (what it guarantees at every depth), `Build` and `BuiltParts`
(composing, and what is said of each part) and `BuildThenOpen` (the round trip over nested
modules).

**Connections.** `Replica` (the per-connection replica and its stores), `RowDiff` (the patch
between two row sets, which the replica applies), `Stream` (the reconnecting event stream),
`Token` (capability tokens), `Escape`, `KeyText`, `TypedKeys` and `Paths` (canonical identity
text), `JsonbText` (NUL-safe JSON text). `Text` and `Digits` are shared text helpers.

Objects whose methods update fields are classes (`Hoist.HoistCtx`, `Cycles.Search`,
`Deletion.RefCollector`, `Inference.Inference`, `Archive.ArchiveBuilder`,
`Build.ArtifactBuilder`, `Replica.ClientReplica`, `Stream.EventStream`, `KeyText.Flattener`);
loops are methods with invariants. Each is tied by its contract to a specification function
or a declarative predicate, about which the lemmas speak.

## What is assumed

Parameters stand for code outside the model, with these laws where a theorem needs them:
the ZIP library reads back the stored entries it wrote and encloses every relative name
without `..` and NUL (`Archive.FaithfulZip`); manifests and text come back from their bytes
(`Artifact.Faithful`); a token minter opens what it seals (`Token.FaithfulMinter`);
the canonical texts of opaque scalars tell the values of one type apart (`TypedKeys.TellsApart`).
Digests and the definition identity are arbitrary functions.

## Where the code is narrower than its promise

- Hoisting and lowering preserve meaning under side conditions, gathered in
  `Simulation.Transfers` and checkable before any evaluation. For each there is an input that
  needs it, most with the exact case in which the value changes. In `HoistLimits`: a `.` or a
  name that is rebound between the entry and where it was evaluated (`CurrentIsRebound`,
  `NameIsRebound`); a `$name` the environment does not serve, which falls back to the
  enclosing row and is hoisted all the same (`StructuralFallsBack`); a temporal selector's
  instant, which is not searched for candidate references (`TemporalInstantDiverges`); a short
  circuit, which may skip what is evaluated up front (`PreevaluationMayFail`); decimal
  division, which the audit lets pass although it reads the rounding mode
  (`RoundingEscapesTheAudit`); and a filter's own `.`, which becomes the candidate in the
  program that runs it (`FilterReceiverBecomesCandidate`). In `StreamLimits`, where an entry
  replaces a stream: a binding of its rows that is read (`RowBindingIsLost`); the field name a
  traversal binds for its base, which the synthetic name hides, although the checker puts that
  name in scope (`BaseNameIsLost`), and which a temporal selector asks its index by
  (`TemporalNameIsLost`); the joined identity of a `::`, which projected rows carry and set
  combinators compare (`ProjectedIdentityIsLost`, `CombinedIdentityIsLost`); and the `.` of a
  filter, which is the enclosing row in a stream and the row under test in a value
  (`FilterReadsItsRow`). What is not used is no condition (`UnreadBindingIsKept`,
  `HoistedStreamTransfers`, `FilterKeepsReceiver`). No condition on the shape of an expression
  alone can be exact: an entry that is never evaluated may be hoisted wrongly without harm
  (`DeadEntryIsHarmless`).
- Earlier outputs count as the candidate in a sort key, not in an output. An output that reads
  one next to something external is taken out whole and cannot be evaluated up front
  (`LoweredEntries.EarlierOutputIsTakenOut`).
- `order.rs` is a total order only at fixed key arity (`Order.ShortTuplesBreakTheOrder`).
- The prototype sort-tuple encoding is wrong when one text goes on past a NUL where another
  ends: a lone key exactly when it descends, an earlier key in either direction; and it drops
  integers outside 64 bits (`SortTupleBytes.NulBreaksTheOrder`, `NulBreaksEarlierKeys`,
  `WideIntegersVanish`).
- The comment in `infer.rs` says a sibling typed earlier in a pass is already visible to the
  next one; the code builds the shape's row once, before the first
  (`Inference.SiblingsAreNotSeen`). The model follows the code; the fixpoint is the same.
- `stream.ts` says the backoff ranges stay strictly increasing; they do for the first five
  attempts only (`Stream.BackoffGrows`).
- A frontier or occurrence token opens again exactly when the public id has no dot, and
  tokens that were never minted, such as an unpadded number, are accepted too
  (`Token.FrontierRoundTrips`, `Token.AcceptedExactly`). Operation scoping separates two
  secrets exactly unless one continues the other past a dot (`Token.ScopesCollideExactly`).
- A rendered path parses back exactly when no segment is empty text
  (`Paths.ParseInvertsDisplay`); the text does not tell a name from a key
  (`Paths.RolesAreNotInTheText`).
- A row program meets errors row by row, the evaluator decides every filter verdict first, so
  the two fail on the same inputs and report different errors exactly when a row kept before
  a failing verdict cannot be projected (`Lowering.SameScan`,
  `Lowering.LoweringPreservesMeaning`).

## Model

| member | source | states |
|---|---|---|
| Values.ValueStrict | crates/liasse-value/src/value.rs:350-388 | comparison answers equal exactly on equal values and swaps with its arguments |
| Values.ValueTransitive | crates/liasse-value/src/value.rs:350-388 | the cross-type order is transitive, through refs, structs, sets and composites |
| Rows.IdStrict | crates/liasse-expr/src/env.rs:35-86 | row identities compare equal exactly when they are the same, part by part |
| Rows.IdTransitive | crates/liasse-expr/src/env.rs:35-86 | the identity tiebreak is transitive |
| Values.TextAscends | crates/liasse-value/src/value.rs:350-388 | texts compare by the first Unicode scalar that differs, a proper prefix first |
| Ascending.ValueAscends | crates/liasse-value/src/value.rs:174-196 | a value is less exactly when its type comes first in the listed order, or within a type by truth, magnitude, scalars or the first part that differs |
| Ascending.ListsMakeSets | crates/liasse-expr/src/eval/mod.rs:386-396 | a list makes the set of its values, each once, ascending |
| Ascending.IdAscends | crates/liasse-expr/src/env.rs:35-86 | identities ascend exactly by the first part that differs, keys before positions, a proper prefix first |
| Order.CompareIsTotal | crates/liasse-expr/src/order.rs:54-72 | at fixed key arity the comparator is a strict total order on tuples with identities |
| Ascending.BeforeMeans | crates/liasse-expr/src/order.rs:54-87 | at every arity, one row is before another exactly when the first key that does not tie says so in its direction, or all keys tie and its identity ascends |
| Ascending.TiesAscend | crates/liasse-expr/src/order.rs:71-72 | rows with one sort tuple come in the order of their identities, whatever the directions |
| Ascending.SortIsStable | crates/liasse-expr/src/eval/views.rs:476-484 | rows at one coordinate stay in the order they came in |
| Order.ShortTuplesBreakTheOrder | crates/liasse-expr/src/order.rs:54-72 | with mixed arities three rows compare in a circle |
| Order.BeforeIsAPrefix | crates/liasse-expr/src/order.rs:79-87 | on rows in order, being before a gap coordinate holds on exactly a prefix |
| Order.InsertSorts | crates/liasse-expr/src/eval/views.rs:476-484 | inserting into ordered full-arity rows keeps them ordered |
| Order.SortRankedSorts | crates/liasse-expr/src/eval/views.rs:476-484 | ordering full-arity rows delivers them in comparator order |
| ViewMeaning.OrderedDelivers | crates/liasse-expr/src/eval/views.rs:227-232 | without sort keys the stream order stays; with them all rows come in the declared order, none before an earlier one, tied ones as they came, each with its sort tuple |
| ViewMeaning.ProjectionDelivers | crates/liasse-expr/src/eval/views.rs:163-226 | a projection delivers, past the skipped rows and up to the limit, the i-th row left of what it ranked and ordered |
| ViewMeaning.RowHolds | crates/liasse-expr/src/eval/views.rs:241-318 | a projected row holds its outputs, each evaluated with the row as `.`, the names it binds and the earlier outputs, which never hide a bound name; it keeps the source's identity and key, or takes its group's |
| ViewMeaning.FilterKeeps | crates/liasse-expr/src/eval/views.rs:61-97 | a filter keeps exactly the rows for which the condition is true, in order and bound to its name, or fails as its first failing row |
| ViewMeaning.GroupKeysRead | crates/liasse-expr/src/eval/views.rs:357-387 | a row's group key is made of exactly the key outputs, all scalars, evaluated over that row, in the declared order |
| ViewMeaning.GroupsPartition | crates/liasse-expr/src/eval/views.rs:195-226 | there is one group a key, keys ascending, holding exactly the rows of that key in stream order |
| ViewMeaning.CombinesByIdentity | crates/liasse-expr/src/eval/views.rs:389-432 | union appends the first right row of every identity the left has not; intersection and difference pick the left rows whose identity the right has, or has not |
| ViewMeaning.TraversalLists | crates/liasse-expr/src/eval/views.rs:101-127 | a traversal lists the inner rows of each outer row in turn, bound and identified through it, and fails exactly on a member that is no collection |
| ViewMeaning.KeysSelect | crates/liasse-expr/src/eval/mod.rs:330-362 | a key selection delivers, for each sought key in turn, the rows of that key in order, a set standing for its members |
| ViewMeaning.RebaseIsTheView | crates/liasse-expr/src/eval/temporal.rs:52-95 | over the rows its collection holds, the rebase of a temporal base is the base as a view |
| ViewMeaning.AggregatesPresent | crates/liasse-expr/src/eval/aggregate.rs:17-46 | an aggregate folds the present values in order, and fails exactly when one is no scalar |
| EvaluatorLaws.ChoiceLaws | crates/liasse-expr/src/eval/ops.rs:133-145 | a true condition chooses the first branch, and a negated one exchanges the branches |
| EvaluatorLaws.FallbackLaws | crates/liasse-expr/src/eval/ops.rs:146-165 | the empty view and the absent value fall back, everything else stays |
| EvaluatorLaws.LogicLaws | crates/liasse-expr/src/eval/ops.rs:82-100 | the units, zeros and De Morgan laws of the two logical operators, errors and short circuits included |
| EvaluatorLaws.ComparisonLaws | crates/liasse-expr/src/eval/ops.rs:62-80 | `=`, `<` and `>` hold exactly where the order answers equal, less and greater |
| EvaluatorLaws.OppositeLaw | crates/liasse-expr/src/eval/ops.rs:62-80 | every comparison is the negation of its opposite, failing operands included |
| Pairing.FlattenPair | crates/liasse-expr/src/eval/views.rs:101-127 | traversing two paired streams binds the level alike, loses the base's name where one side has none, and joins identities alike |
| Streaming.SameBindScopes | crates/liasse-expr/src/eval/views.rs:56-97 | filtering paired streams keeps the same rows when the condition agrees on paired rows |
| Streaming.SameProjectScopes | crates/liasse-expr/src/eval/views.rs:150-226 | plain and grouped projections of paired streams deliver equal rows when every operand agrees in paired frames |
| Streaming.ProjectsAlike | crates/liasse-expr/src/eval/aggregate.rs:20-40 | without a sort or a group, identities change nothing but the identities of the projected rows |
| Simulation.SimEval | crates/liasse-expr/src/eval/mod.rs:179-243 | an expression and the same expression with served bindings filled in evaluate alike wherever the static condition holds |
| Simulation.SimView | crates/liasse-expr/src/eval/views.rs:18-54 | as streams they deliver the same rows, bound alike outside the names that replaced streams have lost |
| Simulation.SimTemporal | crates/liasse-expr/src/eval/temporal.rs:18-112 | the same for temporal selectors and the rebasing of their rows |
| Simulation.SimProjectScopes | crates/liasse-expr/src/eval/views.rs:163-226 | the same for plain and grouped projections, ranked and bounded |
| Hoist.HoistCtx.Hoist | crates/liasse-expr/src/hoist.rs:100-113 | replaces a candidate-free subtree with an external by a synthetic binding, appending its entry and bumping the shared counter once per entry |
| Hoist.HoistCtx.Rebuild | crates/liasse-expr/src/hoist.rs:116-237 | hoists every operand in order on the one counter and keeps the node |
| Hoist.ExternalKindFinds | crates/liasse-expr/src/hoist.rs:260-300 | the external search answers exactly when some reached node is external |
| Hoist.EntriesAreNumbered | crates/liasse-expr/src/hoist.rs:100-113 | the entries of a hoist carry the counter's names in order |
| Hoist.SharedCounterNamesDiffer | crates/liasse-expr/src/hoist.rs:65-74 | two hoists that share a counter never share an entry name |
| Hoist.FillUndoesHoist | crates/liasse-expr/src/hoist.rs:100-237 | putting the entries back into the residual rebuilds the original tree exactly |
| Hoist.HoistingTwiceExtractsNothing | crates/liasse-expr/src/hoist.rs:100-237 | hoisting a residual again, at any counter, extracts nothing and changes nothing |
| Hoist.ResidualExternals | crates/liasse-expr/src/hoist.rs:241-380 | a residual keeps an external node exactly where a host, temporal, keyring or placement node references the candidate |
| Hoist.AuditIsExact | crates/liasse-expr/src/hoist.rs:86-91 | the audit of a residual refuses exactly the expressions with such a node |
| Candidates.LeavesAreExact | crates/liasse-expr/src/hoist.rs:248-254 | the search counts a leaf as the candidate exactly when two evaluations that differ in the candidate alone can give it different values |
| Candidates.CandidateFreeIsConstant | crates/liasse-expr/src/hoist.rs:241-246 | a subtree that does not reference the candidate, with such instants and served `$` names, has one value or error for every candidate |
| Candidates.EntriesAreConstant | crates/liasse-expr/src/hoist.rs:100-113 | every subtree the pass takes out is such a subtree |
| Candidates.SeededForEveryCandidate | crates/liasse-expr/src/hoist.rs:8-14 | entries evaluated once, for one candidate, are seeded for every other |
| Candidates.TakenOutExactly | crates/liasse-expr/src/hoist.rs:100-113 | below nothing taken out, a subtree is replaced by its entry exactly when it is candidate-free and external; any other keeps its node |
| Candidates.EntriesStand | crates/liasse-expr/src/hoist.rs:100-113 | every entry is the subtree at such a place |
| HoistMeaning.Coincide | crates/liasse-expr/src/eval/mod.rs:142-176 | an expression has one value in two frame stacks that share the names and the values of `.` it reads, whatever they hold under those it sets itself |
| HoistMeaning.ValueStreams | crates/liasse-expr/src/eval/views.rs:18-54 | a cell holding the value of a stream delivers its rows, without their bindings and joined identities, unless a filter reads its own row as `.` |
| HoistMeaning.HoistingPreservesMeaning | crates/liasse-expr/src/hoist.rs:65-113 | with every entry pre-evaluated and the static condition, residual and original have the same value or the same error, for every frame stack |
| HoistMeaning.HoistingPreservesRows | crates/liasse-expr/src/hoist.rs:65-113 | read as a view, the residual delivers the same rows or the same error |
| HoistMeaning.ClosedIsConstant | crates/liasse-expr/src/eval/mod.rs:142-176 | an expression that reads off the frames only what it pushed itself has one value in all of them |
| HoistMeaning.ClosedHoistingPreservesMeaning | crates/liasse-expr/src/hoist.rs:65-113 | when the entries are closed and no binding, joined identity or base name that a replaced stream lost is used, hoisting preserves meaning for every candidate |
| HoistMeaning.AuditedIsSelfContained | crates/liasse-expr/src/hoist.rs:76-91 | an audited residual has one value in any two environments that agree on bindings, and on the rounding mode if it divides decimals or averages |
| HoistLimits.HoistedWhole | crates/liasse-expr/src/hoist.rs:100-113 | an expression hoisted whole keeps its meaning in a frame stack exactly when its value there is the pre-evaluated one |
| HoistLimits.StructuralFallsBack | crates/liasse-expr/src/eval/mod.rs:245-252 | an unserved structural name is hoisted and reads the enclosing row: the residual is wrong exactly when the two rows differ in it |
| HoistLimits.TemporalInstantIsRead | crates/liasse-expr/src/eval/temporal.rs:99-119 | that selector's value depends on the candidate |
| HoistLimits.TemporalInstantDiverges | crates/liasse-expr/src/eval/temporal.rs:99-119 | pre-evaluated at one instant, its residual is wrong exactly at the instants with another recovery |
| HoistLimits.CurrentIsRebound | crates/liasse-expr/src/hoist.rs:241-254 | a host call on `.` inside a projection is hoisted in a filter, and its residual is wrong exactly when the call answers otherwise for the projected row |
| HoistLimits.NameIsRebound | crates/liasse-expr/src/hoist.rs:241-254 | a host call on an inner filter's own name is hoisted, and its residual is wrong exactly when the filter decides otherwise on its row |
| HoistLimits.GuardedIsHoisted | crates/liasse-expr/src/hoist.rs:100-113 | the guarded operand of a short circuit is hoisted like any other |
| HoistLimits.PreevaluationMayFail | crates/liasse-expr/src/eval/ops.rs:82-96 | the guard skips an operand whose evaluation up front fails |
| HoistLimits.RoundingEscapesTheAudit | crates/liasse-expr/src/hoist.rs:277-296 | decimal division passes the audit and is the same in two environments exactly when their modes give one quotient |
| HoistLimits.FilterReceiverBecomesCandidate | crates/liasse-pred/src/program.rs:159-175 | a filter's `.` is the root in the evaluator and the candidate in the program |
| HoistLimits.DeadEntryIsHarmless | crates/liasse-expr/src/eval/ops.rs:82-96 | the static condition is not necessary: an entry that breaks it and is never evaluated changes no value |
| StreamLimits.RowBindingIsLost | crates/liasse-expr/src/eval/views.rs:56-97 | a hoisted `[:i]` source yields its row without binding `i`: the residual is wrong exactly when an output reads `i` and no enclosing `i` is that row |
| StreamLimits.UnreadBindingIsKept | crates/liasse-expr/src/hoist.rs:100-113 | the same view reading another name meets the condition of closed hoisting |
| StreamLimits.BaseNameIsLost | crates/liasse-expr/src/check/views.rs:206-227 | a traversal over a hoisted collection no longer binds the collection's name: the residual is wrong exactly when the body reads it and no enclosing name is that row |
| StreamLimits.TemporalNameIsLost | crates/liasse-expr/src/eval/temporal.rs:18-58 | over a hoisted collection a temporal selector asks by identity: the residual is wrong exactly when the index answers otherwise by name |
| StreamLimits.ProjectedIdentityIsLost | crates/liasse-expr/src/eval/views.rs:119-124 | rows projected from a hoisted `::` carry their own identity: the residual is wrong exactly when the outer part is not empty, or the level's binding is read |
| StreamLimits.CombinedIdentityIsLost | crates/liasse-expr/src/eval/views.rs:119-124 | a difference with a hoisted `::` compares other identities: the residual is wrong exactly when one of joined and own identity is the other row's and one is not |
| StreamLimits.FilterReadsItsRow | crates/liasse-expr/src/eval/views.rs:67-86 | a hoisted filter that reads `.` is decided by its own row: the residual is wrong exactly when the enclosing row decides otherwise |
| StreamLimits.FilterKeepsReceiver | crates/liasse-expr/src/eval/views.rs:67-86 | an entry that reads `.` inside a filter of a stream is right, since `.` is the receiver there too |
| StreamLimits.HoistedStreamTransfers | crates/liasse-pred/src/program.rs:118-135 | a flat view with an output that projects a hoisted filter of another collection, without reading its binding, meets the condition of lowering |
| Lowering.LoweredParts | crates/liasse-expr/src/lower.rs:38-86 | a decomposition keeps outputs, sort keys, directions and operands of the projection, which is neither grouped nor quantified |
| Lowering.LoweredSource | crates/liasse-expr/src/lower.rs:61-86 | the source is a collection of the root receiver, bound and filtered as decomposed |
| Lowering.DecomposesExactly | crates/liasse-expr/src/lower.rs:38-86 | exactly the projections without key and quantity over a top-level collection, or one filter of it, decompose, sorted and bounded or not |
| Lowering.LoweredNamesDiffer | crates/liasse-pred/tests/parity.rs:252-295 | no two entries of one lowered program share a name, whichever faces they come from |
| Lowering.LoweredFacesFill | crates/liasse-pred/tests/parity.rs:252-295 | filling the entries into the faces gives back the decomposed expressions |
| Lowering.SameVerdict | crates/liasse-pred/src/program.rs:159-175 | the program admits a row exactly as the filter decides at the receiver |
| Lowering.SameOutputs | crates/liasse-pred/src/program.rs:118-135 | the program's cells are the projection's, each later output seeing the earlier ones |
| Lowering.SameSortTuple | crates/liasse-pred/src/program.rs:194-224 | the program's sort tuple is the evaluator's |
| Lowering.SourceStream | crates/liasse-expr/src/eval/views.rs:18-100 | the source of a flat view streams the kept rows of its collection, bound to the filter's name |
| Lowering.SameScan | crates/liasse-store/src/view_program.rs:196-221 | scanning row by row gives the rows the projection ranks, or the first fault of either pass in row order |
| Lowering.LoweringPreservesMeaning | crates/liasse-store/src/view_program.rs:333-372 | running the hoisted faces, ordering and bounding returns the rows the view delivers at the root, or its error, unless a row kept before a failing verdict fails first |
| Lowering.RunDelivers | crates/liasse-store/src/view_program.rs:329-352 | a run delivers, past the skipped rows and up to the limit, the i-th row left of what it scanned, ordered as declared |
| LoweredEntries.FilterEntriesAreConstant | crates/liasse-pred/tests/parity.rs:263-271 | what is evaluated up front for a filter is the same for every row its name stands for |
| LoweredEntries.OutputEntriesAreConstant | crates/liasse-pred/tests/parity.rs:275-282 | for an output it is the same for every row, which is `.` as well |
| LoweredEntries.SortEntriesAreConstant | crates/liasse-pred/tests/parity.rs:284-294 | for a sort key it is the same for every row and whatever its outputs are worth |
| LoweredEntries.EarlierOutputIsTakenOut | crates/liasse-pred/tests/parity.rs:275-282 | an output that adds an earlier output to something external is taken out whole and has no value up front, although the output has one wherever the sum has |
| Lowering.OwnNamesTransfer | crates/liasse-pred/src/program.rs:118-135 | a face that filters a nested collection under a name of its own meets the side conditions |
| ResultOrder.SubSorts | crates/liasse-expr/src/typed.rs:122-123 | dropping rows keeps the rest in order |
| ResultOrder.ProjectSorts | crates/liasse-expr/src/typed.rs:110-110 | a sorted projection delivers full tuples in its own order, skipped and limited |
| ResultOrder.DeliveredInOrder | crates/liasse-expr/src/typed.rs:108-142 | every expression of the predicted fragment delivers its rows under its predicted order with full sort tuples, as a value and as a view |
| ResultOrder.DeliveryAscends | crates/liasse-expr/src/typed.rs:108-143 | of two delivered rows the later is never before the earlier, and where their sort tuples are equal their identities ascend in every direction |
| ResultOrder.GapSplitsDelivery | crates/liasse-expr/src/typed.rs:103-108 | every gap coordinate splits what a predicted expression delivers: the rows before it are exactly a prefix |
| Utf8.TextDecides | crates/liasse-pg/design-prototype/lib.rs:157-167 | terminated UTF-8 is decided in text order by a byte both have, exactly unless the greater text goes on past a NUL where the lesser ends |
| Utf8.TextReads | crates/liasse-pg/design-prototype/lib.rs:158-164 | the bytes of a text read back, scalar by scalar, by the leading-byte rules of section 3 of RFC 3629 |
| SortTupleBytes.EvalDemoOrd | crates/liasse-pg/design-prototype/lib.rs:132-154 | pushes the encoding of each key in turn, by direction and presence |
| SortTupleBytes.IntegersRead | crates/liasse-pg/design-prototype/lib.rs:154-158 | an ascending 64-bit integer is a presence byte and its distance from the least one, most significant byte first |
| SortTupleBytes.FieldDecides | crates/liasse-pg/design-prototype/lib.rs:131-167 | one key's bytes are equal on equal values and decided in comparator order otherwise, for both directions and `none` |
| SortTupleBytes.EncodingRefinesCompare | crates/liasse-pg/design-prototype/lib.rs:131-167 | byte order of two encodings is the comparator on the keys, and equal bytes mean equal tuples |
| SortTupleBytes.NulBreaksTheOrder | crates/liasse-pg/design-prototype/lib.rs:157-167 | a lone text key is ordered rightly exactly when it ascends or neither text goes on past a NUL |
| SortTupleBytes.NulBreaksEarlierKeys | crates/liasse-pg/design-prototype/lib.rs:131-167 | before another present key, a text and itself with a NUL after it are ordered wrongly in either direction |
| SortTupleBytes.WideIntegersVanish | crates/liasse-pg/design-prototype/lib.rs:52-60 | an integer outside 64 bits is encoded as an absent key |
| Cycles.Search.VisitField | crates/liasse-model/src/check.rs:431-453 | a visit returns a field on a cycle, or finishes the field and keeps the active ones active, on every graph |
| Cycles.FindCycle | crates/liasse-model/src/check.rs:415-429 | none is returned exactly when the declared fields have no cycle, and then a topological order exists; any returned field lies on a cycle |
| Cycles.TopologicalMeansAcyclic | crates/liasse-model/src/check.rs:415-453 | a topological order of all fields excludes cycles |
| Deletion.RefCollector.Collect | crates/liasse-model/src/delete.rs:97-141 | one shared prefix, restored, and exactly the refs of the tree appended in order with their nearest collection |
| RefChains.RefsAreThePlaces | crates/liasse-model/src/delete.rs:97-141 | the walk lists the ref of every place of the tree once, in order, with its target, its set flag, and as owner the nearest collection around it or none |
| RefChains.NormalizeExactly | crates/liasse-model/src/delete.rs:309-314 | a normalized path is a slash and what stands between the outer white space and then the outer slashes |
| RefChains.CascadesExactly | crates/liasse-model/src/delete.rs:219-223 | a ref cascades exactly when its policy is that word between white space |
| RefChains.CrossesExactly | crates/liasse-model/src/delete.rs:57-58 | a ref crosses modules exactly when the first thing in its target that is no white space is `#` |
| Deletion.PolicyRejectionsExact | crates/liasse-model/src/delete.rs:144-170 | a declared policy is refused exactly when it is none of the four forms, or `none` on a required ref, and for that one reason |
| Deletion.DeletableTargets | crates/liasse-model/src/delete.rs:179-204 | the loop ends with the least set that holds the direct targets and is closed under row-removing cascades, which is what cascade chains reach |
| Deletion.Check | crates/liasse-model/src/delete.rs:48-84 | reports exactly the faults of the refs in their order: a refused policy, then a missing decision across a module boundary or on a target a cascade chain reaches; none exactly when the package is accepted |
| Deletion.RunsStayDeletable | crates/liasse-model/src/delete.rs:179-204 | every row a run of deletes and cascades removes is of a collection the analysis found |
| Deletion.NoUndecidedRefLosesItsTarget | crates/liasse-model/src/delete.rs:48-84 | in an accepted package no run removes a row that a ref without policy points at |
| Deletion.DeletableRowsCanGo | crates/liasse-model/src/delete.rs:179-204 | every collection found deletable loses a row in some run |
| Inference.RefineShapeGrows | crates/liasse-model/src/infer.rs:68-116 | a pass types pending fields of its own shape only and never changes a type |
| Inference.FieldsAreTheComputed | crates/liasse-model/src/infer.rs:158-172 | the fields to type are exactly the computed values of the tree, through structs and collections at any depth |
| Inference.SiblingsAreNotSeen | crates/liasse-model/src/infer.rs:82-104 | within a pass a pending field of a shape is typed exactly when it can be against the rows as they stood on entry |
| Inference.PendingShrinks | crates/liasse-model/src/infer.rs:50-61 | a pass that changes anything leaves strictly fewer fields pending |
| Inference.PendingCountBounds | crates/liasse-model/src/infer.rs:161-172 | the pending count bounds the pending fields |
| Inference.UnchangedIsStable | crates/liasse-model/src/infer.rs:50-61 | a pass that changes nothing leaves no field that could be typed |
| Inference.Inference.RefinePass | crates/liasse-model/src/infer.rs:68-116 | rewrites the types in place to one pass of the specification and reports whether anything changed |
| Inference.Inference.ComputedTypes | crates/liasse-model/src/infer.rs:44-62 | as many passes as fields pend reach a true fixpoint that keeps every earlier type, and for a monotone oracle the least closed typing |
| Inference.OrderDoesNotMatter | crates/liasse-model/src/infer.rs:44-116 | trees whose members differ in order only, at any depth, get the same least typing |
| RawScan.Slice | crates/liasse-artifact/src/raw.rs:26-29 | a range is read exactly when it lies in the buffer, and is an error otherwise |
| RawScan.FindEocd | crates/liasse-artifact/src/raw.rs:91-103 | finds the last end-record signature with room for a record, or there is none |
| RawScan.ReadRecord | crates/liasse-artifact/src/raw.rs:72-84 | succeeds exactly on a central header whose name lies in the buffer, and moves past its name, extra field and comment |
| RawScan.ReadsLittleEndian | crates/liasse-artifact/src/raw.rs:33-47 | words are read least significant byte first |
| RawScan.LocatesExactly | crates/liasse-artifact/src/raw.rs:103-134 | the directory is located exactly by the classic record without ZIP64 markers, or by a marker, the locator before it and the ZIP64 record it leads to |
| RawScan.CentralDirectoryNames | crates/liasse-artifact/src/raw.rs:65-87 | total on every buffer; returns the listing exactly when there is one, reading at most one record per 46 bytes |
| RawScan.DirectoryReads | crates/liasse-artifact/src/raw.rs:70-86 | a written directory reads back record by record with its names in order |
| RawScan.ClassicLists | crates/liasse-artifact/src/raw.rs:65-115 | a comment-free classic file lists exactly its directory's names, in order with duplicates |
| RawScan.Zip64Lists | crates/liasse-artifact/src/raw.rs:107-134 | a comment-free ZIP64 file lists exactly its directory's names, through locator and ZIP64 record |
| Archive.PlainNameStaysInside | crates/liasse-artifact/src/archive.rs:128-137 | relative names without backslash, colon and double dots do not escape |
| Archive.EscapesExactly | crates/liasse-artifact/src/archive.rs:126-137 | a name is refused exactly when it is absolute, has a backslash, has a colon before any slash, or is `..` or has it at its start, at its end or between slashes |
| Archive.MarkersExactly | crates/liasse-artifact/src/archive.rs:71-73 | a name is a directory marker exactly when it ends in a slash |
| Archive.CheckNames | crates/liasse-artifact/src/archive.rs:67-80 | accepts exactly the lists in which, directory markers aside, no name leaves the root in any of those ways and none is repeated, and reports the first offence |
| Archive.Read | crates/liasse-artifact/src/archive.rs:67-105 | succeeds exactly on acceptable names over members that are enclosed and readable, returns the content entries in stored order, and otherwise reports the fault of the first member that fails |
| Archive.InsertionOrderIsInvisible | crates/liasse-artifact/src/archive.rs:155-171 | two builders are serialized alike exactly when the last additions under every name agree |
| Archive.ReorderedAdditions | crates/liasse-artifact/src/archive.rs:155-171 | additions under different names may be made in any order |
| Archive.ArchiveBuilder.Finish | crates/liasse-artifact/src/archive.rs:164-200 | writes every entry once, stored, in the listing order |
| Archive.ListingIsUnique | crates/liasse-artifact/src/archive.rs:164-171 | one set of entries has one output order, whatever the insertion or enumeration order |
| Archive.NamesAscend | crates/liasse-artifact/src/archive.rs:164-171 | `mimetype` comes before every other name, and all others ascend by Unicode scalars |
| Artifact.VerifyMimetype | crates/liasse-artifact/src/artifact.rs:176-193 | accepts exactly a first, stored mimetype entry with the right trimmed text, and tells absent, displaced and compressed apart |
| Artifact.VerifyMembership | crates/liasse-artifact/src/artifact.rs:229-243 | accepts exactly the inventories with the four leaves and without the manifest and nested artifacts, and otherwise reports the first missing leaf, else the least forbidden path |
| Artifact.VerifyEntryChecksums | crates/liasse-artifact/src/artifact.rs:245-264 | accepts exactly when every inventoried entry is there with its digest, and otherwise reports the least path that is missing or differs |
| Artifact.VerifyModules | crates/liasse-artifact/src/artifact.rs:275-295 | accepts exactly when inventoried modules match, mounted ones are there, and each opens one level deeper; otherwise reports the first of these that fails, and what the nested artifact reports |
| Artifact.OpenWithin | crates/liasse-artifact/src/artifact.rs:65-98 | accepts exactly the verified artifacts at this depth, and reports the fault of any other in the order of the checks |
| Artifact.ReportIsUnique | crates/liasse-artifact/src/artifact.rs:65-98 | an artifact has one fault to report, however deep it lies |
| Opening.MembershipExactly | crates/liasse-artifact/src/artifact.rs:229-243 | the membership check accepts exactly the inventories that have the four leaves by name, and neither `manifest.json` nor a name under `modules/` |
| Opening.AllInsideIsSound | crates/liasse-artifact/src/artifact.rs:48-98 | whatever lies in an opened artifact, through any chain of inventoried or mounted artifacts, has every recorded digest and identity itself, and lies at most 64 levels deep |
| Build.ArtifactBuilder.ComputeManifest | crates/liasse-artifact/src/build.rs:163-225 | the manifest of the accumulated parts, later sections and children replacing earlier ones |
| Build.ArtifactBuilder.Build | crates/liasse-artifact/src/build.rs:228-243 | serializes exactly the files of the accumulated parts in the one listing order |
| BuiltParts.ManifestDescribes | crates/liasse-artifact/src/build.rs:163-225 | the manifest names the leaves as the format does, and has under every section path, incarnation and mount name what the last part of that name has, a mount its own selected point |
| BuiltParts.FilesHold | crates/liasse-artifact/src/build.rs:228-243 | the archive holds the five leaves, the last section of every path and under `modules/` the last artifact of every incarnation |
| BuildThenOpen.BuiltOpens | crates/liasse-artifact/src/artifact.rs:65-98 | a built archive of safe parts is accepted exactly when the depth allows and its nested artifacts are accepted one level down |
| BuildThenOpen.BuiltReadsBack | crates/liasse-artifact/src/build.rs:163-243 | opening gives back the manifest, the definition, the state and the history bytes |
| BuildThenOpen.BuiltTreeOpens | crates/liasse-artifact/src/artifact.rs:48-98 | a composition built bottom-up opens exactly when depth plus nesting height is at most 64 |
| Replica.ApplyPatch | crates/liasse-wire/src/patch.rs:133-171 | applies the operations one after the other, the first failure deciding |
| Replica.OpKeepsDistinct | crates/liasse-wire/src/patch.rs:133-171 | an operation keeps tokens distinct and changes which are held by its own token only |
| RowDiff.OpDoes | crates/liasse-wire/src/patch.rs:133-171 | by position: the row of the token is taken out, gets the value or stands at the place, every other row keeps value and order, and what cannot be done is refused for its reason |
| RowDiff.DiffRows | crates/liasse-connect/src/core/frames.rs:45-92 | the patch computed between two row sets, applied to the first, gives exactly the second, for all distinct tokens; no patch leads to a set that repeats a token |
| Replica.ClientReplica.Apply | crates/liasse-connect-wasm/src/replica.rs:55-106 | state and report after one frame are the specified ones, for every frame, failing and malformed ones included |
| Replica.FailureChangesNothing | crates/liasse-connect-wasm/src/replica.rs:55-106 | a frame that fails leaves the whole replica as it was |
| Replica.LastReportHolds | crates/liasse-connect-wasm/src/replica.rs:55-106 | along any run every report tells the state it comes with (stored rows, values, frontiers, closings, other subscriptions untouched, one reason a refusal), and the rows last reported for a subscription are the rows it holds until it is reported again or the connection is reset |
| Replica.DemultiplexingIsExact | crates/liasse-connect-wasm/src/replica.rs:55-106 | after any run a subscription's store is that of a client fed only its own frames and the connection-wide ones |
| Replica.FrontierFollows | crates/liasse-connect-wasm/src/replica.rs:60-104 | the retained frontier is the id of the last message that succeeded in moving it, or none after a reset |
| Replica.TokensStayDistinct | crates/liasse-wire/src/store.rs:83-142 | occurrence tokens stay unique in every subscription over every run |
| Replica.ClosedStaysClosed | crates/liasse-wire/src/store.rs:133-142 | a closed subscription stays closed, its frontier fixed, until a reset |
| Stream.BackoffGrows | clients/connect/src/stream.ts:48-53 | consecutive delay ranges are disjoint and growing exactly for the first five attempts; then the cap holds |
| Stream.EventStream.OpenStream | clients/connect/src/stream.ts:77-83 | opening is idempotent and connects the first time |
| Stream.EventStream.Close | clients/connect/src/stream.ts:91-98 | cancels the reconnect, closes the source and stays closed |
| Stream.EventStream.OnMessage | clients/connect/src/stream.ts:109-115 | a message of the current source clears the backoff and delivers one frame; any other does nothing |
| Stream.EventStream.OnError | clients/connect/src/stream.ts:131-159 | an error of the current source reports reconnecting and schedules a rebuild only if the source has closed |
| Stream.EventStream.OnTimer | clients/connect/src/stream.ts:161-173 | the timer closes the old source and connects anew |
| Stream.EveryRunIsSafe | clients/connect/src/stream.ts:77-181 | on every interleaving at most one source is unclosed and one reconnect pending, a source exists exactly between open and close, and the reported states are exactly the changes of state |
| Stream.StartIsSafe | clients/connect/src/stream.ts:57-181 | the same for every run of a new stream, which reports the changes since it was opened |
| Stream.RunDelivers | clients/connect/src/stream.ts:109-115 | a run delivers exactly the messages of the sources current at their time, in order |
| Stream.CloseIsFinal | clients/connect/src/stream.ts:91-104 | after close, from any state and through any events, no source is open, no timer pends, and nothing is opened, delivered or reported |
| Stream.StaleEventsChangeNothing | clients/connect/src/stream.ts:109-135 | events of replaced or closed sources change nothing |
| Stream.ClosedForever | clients/connect/src/stream.ts:91-104 | after close nothing is opened, scheduled, delivered or reported, and the state stays closed |
| Stream.RunConnects | clients/connect/src/stream.ts:77-173 | a run makes one source for the first open and one for each reconnect that goes off, and no other |
| Stream.EventActs | clients/connect/src/stream.ts:77-181 | what each event does to the state, the waiting reconnect, the count of failures, the requested delays and the announced sessions |
| Stream.RunRequests | clients/connect/src/stream.ts:48-53 | a run asks for a reconnect each time the current source closes and none waits, with the delay of the number of such closings since the connection last worked |
| Stream.RunAnnounces | clients/connect/src/stream.ts:116-125 | every session the current source announces arrives, once and in order |
| Escape.Encode | crates/liasse-ident/src/escape.rs:28-39 | escapes the reserved characters of the codec left to right |
| Escape.Decode | crates/liasse-ident/src/escape.rs:45-65 | decodes or refuses every text, escape by escape |
| Escape.DecodeUndoesEncode | crates/liasse-ident/src/escape.rs:28-65 | decoding an encoding followed by any text gives the original followed by the rest |
| Escape.EncodeIsInjective | crates/liasse-ident/src/escape.rs:28-39 | different texts have different encodings |
| Escape.EncodingsAreCanonical | crates/liasse-ident/src/escape.rs:41-65 | a separator-free text that decodes is the encoding of what it decodes to |
| Escape.EncodesEach | crates/liasse-ident/src/escape.rs:28-39 | each reserved character gives its escape, every other one itself, in order |
| Escape.DecodesExactly | crates/liasse-ident/src/escape.rs:45-65 | a text decodes exactly when every percent sign in it begins one of the codec's escapes |
| KeyText.NewKey | crates/liasse-ident/src/key.rs:116-123 | joins the escaped components in order |
| KeyText.ComponentsInvertJoin | crates/liasse-ident/src/key.rs:159-163 | splitting and decoding a joined key gives back its components, and no slash occurs in it |
| KeyText.KeysDiffer | crates/liasse-ident/src/key.rs:105-123 | different component lists have different key texts |
| KeyText.Flattener.Flatten | crates/liasse-ident/src/key.rs:165-204 | appends exactly the scalar components of a value, or fails as the first failing part does |
| KeyText.FromKeyValues | crates/liasse-ident/src/key.rs:132-141 | the key of the flattened components, or the empty-key, empty-component or not-a-component error |
| KeyText.KeyValuesRoundTrip | crates/liasse-ident/src/key.rs:132-163 | a key of typed values gives back its flattened components, none of them empty |
| TypedKeys.ComponentsInOrder | crates/liasse-ident/src/key.rs:165-204 | the components of a key come in key order |
| TypedKeys.TypedKeysDiffer | crates/liasse-ident/src/key.rs:36-58 | two keys of one type have one text only when they are equal, negative integers, booleans and nested parts included |
| Paths.ToDisplayString | crates/liasse-ident/src/path.rs:112-121 | a slash before each encoded segment, and a lone slash for the root |
| Paths.ParsesExactly | crates/liasse-ident/src/path.rs:123-147 | a text parses exactly when it is the lone root or joins, after a slash, segments that are not empty and whose escapes are sound, and it parses to these |
| Paths.ParseInvertsDisplay | crates/liasse-ident/src/path.rs:112-147 | parsing a rendered path gives its encoded segments exactly when none is empty |
| Paths.RolesRecover | crates/liasse-ident/src/path.rs:80-88 | resolving a segment in its role gives back the name or the key |
| Paths.DisplayIsInjective | crates/liasse-ident/src/path.rs:112-121 | paths that render alike with the same roles are equal |
| Token.FrontierRoundTrips | crates/liasse-connect/src/token.rs:155-172 | a minted frontier opens to its number, for all u64, exactly when the public id has no dot |
| Token.OthersAreRefused | crates/liasse-connect/src/token.rs:164-193 | a token never opens under another public id, dots or not |
| Token.NamespacesAreApart | crates/liasse-connect/src/token.rs:155-193 | occurrence tokens never open as frontiers nor the reverse |
| Token.AcceptedExactly | crates/liasse-connect/src/token.rs:164-172 | exactly which unsigned texts open to a number |
| Token.FrontiersSort | crates/liasse-connect/src/token.rs:150-157 | unsigned frontiers of one connection sort as text in numeric order |
| Token.ScopesCollideExactly | crates/liasse-connect/src/token.rs:203-205 | two secrets can scope to one name exactly when equal or one continues the other past a dot |
| Token.ScopeIsInjective | crates/liasse-connect/src/token.rs:203-205 | for dot-free secrets the scoped name determines secret and raw id |
| JsonbText.Escape | crates/liasse-pg/src/jsonb_text.rs:94-104 | escapes NUL and backslash, scalar by scalar |
| JsonbText.Unescape | crates/liasse-pg/src/jsonb_text.rs:110-130 | total decoding, a stray backslash kept as it is |
| JsonbText.UnescapeUndoesEscape | crates/liasse-pg/src/jsonb_text.rs:94-130 | decoding an escaped text gives it back |
| JsonbText.EscapedUnchanged | crates/liasse-pg/src/jsonb_text.rs:94-104 | encoding changes a text exactly when it has a NUL or a backslash |
| JsonbText.EscapesInPlace | crates/liasse-pg/src/jsonb_text.rs:94-104 | where it stands a NUL gives a backslash and a zero, a backslash two |
| JsonbText.StraysStay | crates/liasse-pg/src/jsonb_text.rs:110-130 | text without the two escapes decodes to itself, stray backslashes and all |
| JsonbText.WellEscapedIsImage | crates/liasse-pg/src/jsonb_text.rs:94-130 | a text is an encoding exactly when it has no NUL and only the two escapes |
| JsonbText.EncodedMembers | crates/liasse-pg/src/jsonb_text.rs:81-90 | encoding an object keeps every member under its own name, none lost |
| JsonbText.JsonbRoundTrips | crates/liasse-pg/src/jsonb_text.rs:49-90 | decoding the encoding restores every JSON tree |
| JsonbText.DistinctTreesStayDistinct | crates/liasse-pg/src/jsonb_text.rs:49-51 | different trees are stored differently |
| JsonbText.EncodedIsNulFree | crates/liasse-pg/src/jsonb_text.rs:49-51 | no string and no member name of an encoded tree contains NUL |

## Left out

- HoistMeaning.HoistingPreservesMeaning: assumes that every entry evaluates up front and the static condition `Transfers`. The condition is sufficient; for each part `HoistLimits` or `StreamLimits` gives a family with the exact case in which the value changes, and `DeadEntryIsHarmless` why no condition on the expression alone is necessary. Rows projected from a hoisted `::` count as changed because their identities do, except directly under an aggregate.
- Candidates.CandidateFreeIsConstant: asks that no temporal instant references the candidate and, where `.` is the candidate, that `$` names are served; `HoistLimits.TemporalInstantDiverges` and `StructuralFallsBack` show why.
- HoistMeaning.AuditedIsSelfContained: asks for equal rounding modes when the residual divides decimals or averages, because the audit lets these pass.
- Lowering.LoweringPreservesMeaning: has the side conditions of hoisting, and a filter that reads the receiver as `.` is outside it.
- ResultOrder.DeliveredInOrder: covers the expressions of `Predicted` only, outside which the predicted order is not the delivered one.
- Deletion.NoUndecidedRefLosesItsTarget: rows are flat, because the checker does not close over nested containment.
- Inference.Inference.ComputedTypes: leastness assumes a monotone typing oracle; stability and the bound on passes do not.
- BuildThenOpen.BuiltTreeOpens: for sections and incarnations whose names are safe; a reserved, escaping or marker name is outside it.
- SortTupleBytes.EncodingRefinesCompare: for integers of 64 bits, one type per column, and texts of a column told apart before a NUL; `NulBreaksTheOrder` and `NulBreaksEarlierKeys` say what happens to the others.
- Parsing, type checking, the declaration checks, diagnostics and source spans.
- The meaning of arithmetic, decimals, aggregation, builtins and host calls: parameters of the evaluator.
- Nested containment in deletability: deleting a row also removes the rows nested in it, which the checker does not close over; the runs of `Deletion` delete flat rows only.
- The scan of mutation bodies for directly deleted collections (`direct_deletable_targets`): a parameter of `Deletion.Check`.
- Coverage views and candidate subtrees of a row program; only the flat collection scan is modelled.
- Union, disagreeing branches, key selections and unsorted projections over sorted sources in the order prediction, where it is not the delivered order.
- Collecting the dependency graph from expressions (`collect_field_refs`): `Cycles` starts from the graph.
- Fields of one shape with the same name: `Inference` names a field by its path, so members are taken to have distinct names.
- The ZIP library itself, JSON text of the manifest, and the digests: parameters with the laws named above.
- Lossy decoding of entry names: a parameter of the raw scan; the writer's file layout is a parameter of the container.
- Frame decoding, the marshalling of reports to the browser, and the transport: `Replica` takes decoded frames, malformed ones marked.
- Hooks that call back into the stream, and a factory that throws.
- Random draws, clocks and the default entropy source; the backoff jitter is a parameter.
- The canonical text of decimal, bytes, uuid, date, timestamp, duration and enum key values: a parameter of `KeyText`.
- Which member survives when corrupt stored text decodes two names to one (`JsonbText.MapStrings`): left open.
