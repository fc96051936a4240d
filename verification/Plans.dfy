/** The typed plan: operators, predicates and expressions, and the parameters a plan needs. */
module Plans {
  import opened Prelude
  import opened Values

  datatype Expr =
    | Literal(value: Value)
    | ColumnRef(name: string)
    | Param(name: string, ty: Option<ValueType>)

  datatype CompareOp = OpEq | OpNe | OpLt | OpLte | OpGt | OpGte

  datatype Predicate =
    | True
    | Compare(op: CompareOp, column: string, operand: Expr)
    | In(column: string, operands: seq<Expr>)
    | IsNull(column: string)
    | And(terms: seq<Predicate>)
    | Or(terms: seq<Predicate>)
    | Not(inner: Predicate)

  datatype SortOrder = Asc | Desc

  type SortKeys = seq<(string, SortOrder)>

  datatype AggFunc = Count | Sum | Minimum | Maximum | Average

  datatype Aggregate = Aggregate(func: AggFunc, column: Option<string>, alias: string)

  datatype Plan =
    | Scan(table: string)
    | PointLookup(table: string, key: Expr)
    | IndexScan(table: string, index: string, pred: Predicate)
    | Filter(input: Plan, pred: Predicate)
    | Project(input: Plan, columns: seq<string>)
    | Sort(input: Plan, sortKeys: SortKeys)
    | Limit(input: Plan, count: uint64, offset: uint64)
    | GroupBy(input: Plan, groupBy: seq<string>, aggregates: seq<Aggregate>)
    | Join(outer: Plan, inner: Plan, outerColumn: string, binds: string)

  // ----- parameters -----

  datatype Needed = Needed(name: string, ty: Option<ValueType>)

  function ExprParams(e: Expr): seq<Needed> {
    if e.Param? then [Needed(e.name, e.ty)] else []
  }

  function ExprsParams(es: seq<Expr>): seq<Needed> {
    if es == [] then [] else ExprParams(es[0]) + ExprsParams(es[1..])
  }

  function PredicateParams(p: Predicate): seq<Needed>
    decreases p, 1
  {
    match p
    case True => []
    case IsNull(_) => []
    case Compare(_, _, operand) => ExprParams(operand)
    case In(_, operands) => ExprsParams(operands)
    case And(terms) => PredicatesParams(terms)
    case Or(terms) => PredicatesParams(terms)
    case Not(inner) => PredicateParams(inner)
  }

  function PredicatesParams(ps: seq<Predicate>): seq<Needed>
    decreases ps, 0
  {
    if ps == [] then [] else PredicateParams(ps[0]) + PredicatesParams(ps[1..])
  }

  function Without(needed: seq<Needed>, name: string): seq<Needed> {
    if needed == [] then []
    else if needed[0].name == name then Without(needed[1..], name)
    else [needed[0]] + Without(needed[1..], name)
  }

  /** `collect_params`: a plan's parameters added to those already collected.  A join supplies its own
      binding, so that name is dropped from the whole list, whoever put it there. */
  function Collected(plan: Plan, out: seq<Needed>): seq<Needed> {
    match plan
    case Scan(_) => out
    case PointLookup(_, key) => out + ExprParams(key)
    case IndexScan(_, _, pred) => out + PredicateParams(pred)
    case Filter(input, pred) => Collected(input, out) + PredicateParams(pred)
    case Project(input, _) => Collected(input, out)
    case Sort(input, _) => Collected(input, out)
    case Limit(input, _, _) => Collected(input, out)
    case GroupBy(input, _, _) => Collected(input, out)
    case Join(outer, inner, _, binds) => Without(Collected(inner, Collected(outer, out)), binds)
  }

  /** Every parameter a caller is asked to bind. */
  function Params(plan: Plan): seq<Needed> {
    Collected(plan, [])
  }

  /** The columns a plan fixes, or None when they are whatever the rows carry. */
  function ExplicitProjection(plan: Plan): Option<seq<string>> {
    match plan
    case Project(_, columns) => Some(columns)
    case GroupBy(_, groupBy, aggregates) =>
      Some(groupBy + seq(|aggregates|, i requires 0 <= i < |aggregates| => aggregates[i].alias))
    case Sort(input, _) => ExplicitProjection(input)
    case Limit(input, _, _) => ExplicitProjection(input)
    case _ => None
  }
}
