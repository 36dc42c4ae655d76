/** The checked expression tree (liasse-expr, typed.rs).

    A node is its resolved operation together with the operand expressions in the
    order the hoisting pass rebuilds them. Source spans are not kept: nothing that
    is modelled reads one. */
module TypedExprs {
  import opened Values

  datatype ExprType = ScalarType(decimal: bool) | RowType | ViewType

  datatype NumClass = IntClass | DecimalClass | TextConcat | TimeShift
  datatype ArithOp = Add | Sub | Mul | Div | Rem
  datatype CmpOp = Eq | Ne | Lt | Le | Gt | Ge
  datatype LogicOp = And | Or
  datatype AggFunc = Count | Sum | Avg | Min | Max | Distinct
  datatype CombineOp = Union | Intersect | Difference
  datatype BuiltinFn = Size | Has | Assert | StringLower | StringUpper | StringCasefold | StringTrim | TimeDuration
  datatype KeyringSelector = CurrentVersion | Accepted | Public | Versions
  datatype BlobMember = Sha512 | BlobBytes | Media | Name | Satisfied | Stored | Surplus
  datatype TemporalForm = At | Between | All

  datatype Op =
    | Literal(value: Value)
    | Root
    | Current
    | Parent(depth: nat)
    | Param(name: string)
    | Structural(name: string)
    | Import(name: string)
    | ScopeBinding(name: string)
    | LocalBinding(name: string)
    | EmptyView
    | Now
    | Uuid(site: nat)
    // base
    | Field(name: string)
    | Traverse(member: string)
    | Neg(cls: NumClass)
    | Not
    | CompositeKey(order: seq<string>)
    | Key
    | Keyring(selector: KeyringSelector)
    | BlobMember(blob: BlobMember)
    | Aggregate(func: AggFunc, field: Option<string>)
    // lhs, rhs
    | Arith(op: ArithOp, cls: NumClass)
    | Compare(cmp: CmpOp)
    | Logic(logic: LogicOp)
    | In
    | Combine(combine: CombineOp)
    | Fallback
    // cond, then, otherwise
    | Ternary
    // items
    | List
    | StructOf(names: seq<string>)
    | Builtin(builtin: BuiltinFn)
    | HostCall(namespace: string, function_: string)
    // base, then the keys / the condition when there is one / the instants
    | SelectKeys
    | SelectBind(name: string, filtered: bool)
    | Temporal(form: TemporalForm)
    // source, then the outputs, the quantity when there is one, the sort keys
    | Project(key: seq<string>, outputs: seq<string>, quantity: bool, descending: seq<bool>,
              skip: Option<nat>, limit: Option<nat>)

  /** How many operands `op` takes; `None` when it takes any number. */
  function Arity(op: Op): Option<nat> {
    match op
    case Literal(_) | Root | Current | Parent(_) | Param(_) | Structural(_) | Import(_)
       | ScopeBinding(_) | LocalBinding(_) | EmptyView | Now | Uuid(_) => Some(0)
    case Field(_) | Traverse(_) | Neg(_) | Not | CompositeKey(_) | Key | Keyring(_)
       | BlobMember(_) | Aggregate(_, _) => Some(1)
    case Arith(_, _) | Compare(_) | Logic(_) | In | Combine(_) | Fallback => Some(2)
    case Ternary => Some(3)
    case List | Builtin(_) | HostCall(_, _) | SelectKeys => None
    case StructOf(names) => Some(|names|)
    case SelectBind(_, filtered) => Some(if filtered then 2 else 1)
    case Temporal(form) => Some(match form case At => 2 case Between => 3 case All => 1)
    case Project(_, outputs, quantity, descending, _, _) =>
      Some(1 + |outputs| + (if quantity then 1 else 0) + |descending|)
  }

  datatype TypedExpr = Node(ty: ExprType, op: Op, kids: seq<TypedExpr>)
  {
    predicate WellFormed() {
      && (Arity(op).Some? ==> |kids| == Arity(op).value)
      && (op.SelectKeys? ==> |kids| > 0)
      && forall i :: 0 <= i < |kids| ==> kids[i].WellFormed()
    }
  }

  /** The position of a projection's first sort key among its operands. */
  function SortStart(op: Op): nat
    requires op.Project?
  {
    1 + |op.outputs| + (if op.quantity then 1 else 0)
  }

  /** The collection a view base addresses by name, through the operators that only
      narrow or reshape its rows (eval/views.rs, bind_name_of). */
  function BindNameOf(e: TypedExpr): Option<string>
    requires e.WellFormed()
  {
    if e.op.Field? then Some(e.op.name)
    else if e.op.Traverse? then Some(e.op.member)
    else if e.op.SelectKeys? || e.op.SelectBind? || e.op.Project? then BindNameOf(e.kids[0])
    else None
  }
}
