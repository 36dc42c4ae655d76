/** Laws of the control operators and comparisons (liasse-expr, eval/ops.rs): in every
    environment and frame stack, failing operands included. */
module EvaluatorLaws {
  import opened Values
  import opened Rows
  import opened TypedExprs
  import opened Evaluator

  function Truth(op: Op, kids: seq<TypedExpr>): TypedExpr { Node(ScalarType(false), op, kids) }

  function Negated(e: TypedExpr): TypedExpr { Truth(Not, [e]) }

  const Always := Truth(Literal(Bool(true)), [])
  const Never := Truth(Literal(Bool(false)), [])

  /** Two expressions have one value, or one error. */
  ghost predicate Same(lang: Lang, env: Env, fs: seq<Frame>, a: TypedExpr, b: TypedExpr) {
    a.WellFormed() && b.WellFormed() && Eval(lang, env, fs, a) == Eval(lang, env, fs, b)
  }

  /** One operand, as a scalar. */
  function Operand(lang: Lang, env: Env, fs: seq<Frame>, e: TypedExpr): Result<Value>
    requires e.WellFormed()
  {
    var cell :- Eval(lang, env, fs, e);
    ToValue(cell, AScalar(ExpectedScalar))
  }

  lemma EachOne(lang: Lang, env: Env, fs: seq<Frame>, e: TypedExpr, i: nat)
    requires e.WellFormed() && i < |e.kids|
    ensures EvalEach(lang, env, fs, e, i, i + 1, AScalar(ExpectedScalar))
         == (var v :- Operand(lang, env, fs, e.kids[i]); Ok([v]))
  {
    assert EvalEach(lang, env, fs, e, i + 1, i + 1, AScalar(ExpectedScalar)) == Ok([]);
    var v := Operand(lang, env, fs, e.kids[i]);
    if v.Ok? { assert [v.value] + [] == [v.value]; }
  }

  lemma NegatedIs(lang: Lang, env: Env, fs: seq<Frame>, e: TypedExpr)
    requires e.WellFormed()
    ensures Negated(e).WellFormed()
    ensures Operand(lang, env, fs, Negated(e)) == (var v :- Operand(lang, env, fs, e); Ok(Bool(v != Bool(true))))
    ensures Eval(lang, env, fs, Negated(e)) == (var v :- Operand(lang, env, fs, e); Ok(Scalar(Bool(v != Bool(true)))))
  {
    EachOne(lang, env, fs, Negated(e), 0);
  }

  // ---- choices -----------------------------------------------------------

  lemma ChoiceIs(lang: Lang, env: Env, fs: seq<Frame>, c: TypedExpr, a: TypedExpr, b: TypedExpr)
    requires c.WellFormed() && a.WellFormed() && b.WellFormed()
    ensures Truth(Ternary, [c, a, b]).WellFormed()
    ensures Eval(lang, env, fs, Truth(Ternary, [c, a, b]))
         == (var v :- Operand(lang, env, fs, c); if v == Bool(true) then Eval(lang, env, fs, a) else Eval(lang, env, fs, b))
  {
    EachOne(lang, env, fs, Truth(Ternary, [c, a, b]), 0);
  }

  /** A true condition chooses the first branch, a negated one changes the branches. */
  lemma ChoiceLaws(lang: Lang, env: Env, fs: seq<Frame>, c: TypedExpr, a: TypedExpr, b: TypedExpr)
    requires c.WellFormed() && a.WellFormed() && b.WellFormed()
    ensures Same(lang, env, fs, Truth(Ternary, [Always, a, b]), a)
    ensures Same(lang, env, fs, Truth(Ternary, [Negated(c), a, b]), Truth(Ternary, [c, b, a]))
  {
    assert Eval(lang, env, fs, Always) == Ok(Scalar(Bool(true)));
    ChoiceIs(lang, env, fs, Always, a, b);
    NegatedIs(lang, env, fs, c);
    ChoiceIs(lang, env, fs, Negated(c), a, b);
    ChoiceIs(lang, env, fs, c, b, a);
  }

  lemma FallbackIs(lang: Lang, env: Env, fs: seq<Frame>, a: TypedExpr, b: TypedExpr)
    requires a.WellFormed() && b.WellFormed()
    ensures Truth(Fallback, [a, b]).WellFormed()
    ensures Eval(lang, env, fs, Truth(Fallback, [a, b]))
         == (var v :- Eval(lang, env, fs, a);
             if v == Collection([]) || v == Scalar(NoneValue) then Eval(lang, env, fs, b) else Ok(v))
  {
  }

  /** The empty view and an absent value fall back, everything else stays. */
  lemma FallbackLaws(lang: Lang, env: Env, fs: seq<Frame>, a: TypedExpr, b: TypedExpr)
    requires a.WellFormed() && b.WellFormed()
    ensures Same(lang, env, fs, Truth(Fallback, [Truth(EmptyView, []), b]), b)
    ensures Same(lang, env, fs, Truth(Fallback, [Truth(Literal(NoneValue), []), b]), b)
    ensures Eval(lang, env, fs, a) != Ok(Collection([])) && Eval(lang, env, fs, a) != Ok(Scalar(NoneValue)) ==>
      Same(lang, env, fs, Truth(Fallback, [a, b]), a)
  {
    FallbackIs(lang, env, fs, Truth(EmptyView, []), b);
    FallbackIs(lang, env, fs, Truth(Literal(NoneValue), []), b);
    FallbackIs(lang, env, fs, a, b);
    assert Eval(lang, env, fs, Truth(EmptyView, [])) == Ok(Collection([]));
    assert Eval(lang, env, fs, Truth(Literal(NoneValue), [])) == Ok(Scalar(NoneValue));
  }

  // ---- logic -------------------------------------------------------------

  lemma LogicIs(lang: Lang, env: Env, fs: seq<Frame>, op: LogicOp, a: TypedExpr, b: TypedExpr)
    requires a.WellFormed() && b.WellFormed()
    ensures var e := Truth(Logic(op), [a, b]);
      && e.WellFormed()
      && Eval(lang, env, fs, e)
         == (var l :- Operand(lang, env, fs, a);
             if (l == Bool(true)) == (op == Or) then Ok(Scalar(Bool(op == Or)))
             else
               var r :- Operand(lang, env, fs, b);
               Ok(Scalar(Bool(r == Bool(true)))))
  {
    var e := Truth(Logic(op), [a, b]);
    EachOne(lang, env, fs, e, 0);
    EachOne(lang, env, fs, e, 1);
  }

  /** `true && a` and `false || a` are the truth of `a`; `false && a` and `true || a` never
      look at it; and each operator is the other one of negations. */
  lemma LogicLaws(lang: Lang, env: Env, fs: seq<Frame>, a: TypedExpr, b: TypedExpr)
    requires a.WellFormed() && b.WellFormed()
    ensures Same(lang, env, fs, Truth(Logic(And), [Never, a]), Never) && Same(lang, env, fs, Truth(Logic(Or), [Always, a]), Always)
    ensures Same(lang, env, fs, Truth(Logic(And), [Always, a]), Negated(Negated(a)))
    ensures Same(lang, env, fs, Negated(Truth(Logic(And), [a, b])), Truth(Logic(Or), [Negated(a), Negated(b)]))
    ensures Same(lang, env, fs, Negated(Truth(Logic(Or), [a, b])), Truth(Logic(And), [Negated(a), Negated(b)]))
  {
    LogicIs(lang, env, fs, And, Never, a);
    LogicIs(lang, env, fs, Or, Always, a);
    LogicIs(lang, env, fs, And, Always, a);
    NegatedIs(lang, env, fs, a);
    NegatedIs(lang, env, fs, b);
    NegatedIs(lang, env, fs, Negated(a));
    DeMorgan(lang, env, fs, And, a, b);
    DeMorgan(lang, env, fs, Or, a, b);
  }

  lemma DeMorgan(lang: Lang, env: Env, fs: seq<Frame>, op: LogicOp, a: TypedExpr, b: TypedExpr)
    requires a.WellFormed() && b.WellFormed()
    ensures Same(lang, env, fs, Negated(Truth(Logic(op), [a, b])),
                 Truth(Logic(if op == And then Or else And), [Negated(a), Negated(b)]))
  {
    NegatedIs(lang, env, fs, a);
    NegatedIs(lang, env, fs, b);
    LogicIs(lang, env, fs, op, a, b);
    NegatedIs(lang, env, fs, Truth(Logic(op), [a, b]));
    LogicIs(lang, env, fs, if op == And then Or else And, Negated(a), Negated(b));
  }

  // ---- comparisons -------------------------------------------------------

  lemma ComparedIs(lang: Lang, env: Env, fs: seq<Frame>, cmp: CmpOp, a: TypedExpr, b: TypedExpr)
    requires a.WellFormed() && b.WellFormed()
    ensures var e := Truth(Compare(cmp), [a, b]);
      && e.WellFormed()
      && Operand(lang, env, fs, e)
         == (var x :- Operand(lang, env, fs, a);
             var y :- Operand(lang, env, fs, b);
             Ok(Bool(Verdict(cmp, lang.compare(x, y)))))
      && (Eval(lang, env, fs, e).Ok? ==> Eval(lang, env, fs, e).value.Scalar?)
  {
    var e := Truth(Compare(cmp), [a, b]);
    var need := AScalar(ExpectedScalar);
    EachOne(lang, env, fs, e, 1);
    var y := Operand(lang, env, fs, b);
    assert EvalEach(lang, env, fs, e, 0, 2, need)
        == (var x :- Operand(lang, env, fs, a); var rest :- EvalEach(lang, env, fs, e, 1, 2, need); Ok([x] + rest));
    if y.Ok? { assert forall x: Value :: [x] + [y.value] == [x, y.value]; }
  }

  /** `=` holds where the order says equal, `<` where it says less, `>` where greater. */
  lemma ComparisonLaws(lang: Lang, env: Env, fs: seq<Frame>, a: TypedExpr, b: TypedExpr, x: Value, y: Value)
    requires a.WellFormed() && b.WellFormed()
    requires Eval(lang, env, fs, a) == Ok(Scalar(x)) && Eval(lang, env, fs, b) == Ok(Scalar(y))
    ensures Eval(lang, env, fs, Truth(Compare(Eq), [a, b])) == Ok(Scalar(Bool(lang.compare(x, y) == Equal)))
    ensures Eval(lang, env, fs, Truth(Compare(Lt), [a, b])) == Ok(Scalar(Bool(lang.compare(x, y) == Less)))
    ensures Eval(lang, env, fs, Truth(Compare(Gt), [a, b])) == Ok(Scalar(Bool(lang.compare(x, y) == Greater)))
  {
    Compared(lang, env, fs, Eq, a, b, x, y);
    Compared(lang, env, fs, Lt, a, b, x, y);
    Compared(lang, env, fs, Gt, a, b, x, y);
  }

  function Opposite(cmp: CmpOp): CmpOp {
    match cmp case Eq => Ne case Ne => Eq case Lt => Ge case Ge => Lt case Gt => Le case Le => Gt
  }

  /** Every comparison is the negation of its opposite, failing operands included. */
  lemma OppositeLaw(lang: Lang, env: Env, fs: seq<Frame>, cmp: CmpOp, a: TypedExpr, b: TypedExpr)
    requires a.WellFormed() && b.WellFormed()
    ensures Truth(Compare(cmp), [a, b]).WellFormed() && Truth(Compare(Opposite(cmp)), [a, b]).WellFormed()
    ensures Operand(lang, env, fs, Truth(Compare(Opposite(cmp)), [a, b])) == Operand(lang, env, fs, Negated(Truth(Compare(cmp), [a, b])))
  {
    ComparedIs(lang, env, fs, cmp, a, b);
    ComparedIs(lang, env, fs, Opposite(cmp), a, b);
    NegatedIs(lang, env, fs, Truth(Compare(cmp), [a, b]));
    assert forall o: Ordering :: Verdict(Opposite(cmp), o) == !Verdict(cmp, o);
  }

  lemma Compared(lang: Lang, env: Env, fs: seq<Frame>, cmp: CmpOp, a: TypedExpr, b: TypedExpr, x: Value, y: Value)
    requires a.WellFormed() && b.WellFormed()
    requires Eval(lang, env, fs, a) == Ok(Scalar(x)) && Eval(lang, env, fs, b) == Ok(Scalar(y))
    ensures var e := Truth(Compare(cmp), [a, b]);
      e.WellFormed() && Eval(lang, env, fs, e) == Ok(Scalar(Bool(Verdict(cmp, lang.compare(x, y)))))
  {
    ComparedIs(lang, env, fs, cmp, a, b);
  }
}
