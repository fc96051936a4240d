/** Plan execution: predicates, ordering, joins, budgets and aggregates, first as functions
    that say what the executor computes, then as the loops that compute it. */
module Exec {
  import opened Prelude
  import opened Strings
  import opened Floats
  import opened Values
  import opened IndexKeys
  import opened Plans
  import opened Joining

  type Bindings = map<string, Value>

  datatype ExecError =
    | UnboundParameter(name: string)
    | ParameterType(name: string, declared: ValueType, actual: ValueType)
    | Unsupported(what: string)

  type Rows = Result<seq<Row>, ExecError>

  /** What the executor calls and does not define: the row source, the JSON text of a value,
      and the floating-point arithmetic of SUM and AVG. */
  datatype Env = Env(
    scan: string -> seq<Row>,
    row: (string, string) -> Option<Value>,
    candidates: (string, string, IndexBound) -> Option<seq<string>>,
    json: Value -> string,
    addFloats: seq<Value> -> F64,
    divide: (Value, nat) -> F64)

  // ----- expressions and predicates -----

  function Resolve(e: Expr, bindings: Bindings): Result<Value, ExecError> {
    match e
    case Literal(value) => Ok(value)
    case Param(name, _) => if name in bindings then Ok(bindings[name]) else Err(UnboundParameter(name))
    case ColumnRef(name) =>
      Err(Unsupported(if name == "" then "empty column reference" else "column reference in a value position"))
  }

  predicate Holds(op: CompareOp, order: Option<Order>) {
    match op
    case OpEq => order == Some(Equal)
    case OpNe => order == Some(Less) || order == Some(Greater)
    case OpLt => order == Some(Less)
    case OpLte => order == Some(Less) || order == Some(Equal)
    case OpGt => order == Some(Greater)
    case OpGte => order == Some(Greater) || order == Some(Equal)
  }

  function Matches(row: Row, p: Predicate, bindings: Bindings): Result<bool, ExecError>
    decreases p, 1
  {
    match p
    case True => Ok(true)
    case Compare(op, column, operand) =>
      var right :- Resolve(operand, bindings);
      Ok(Holds(op, OrderOf(row.Column(column), right)))
    case In(column, operands) => MatchesIn(row.Column(column), operands, bindings)
    case IsNull(column) => Ok(row.Column(column).None? || row.Column(column).value.Null?)
    case And(terms) => MatchesAll(row, terms, bindings)
    case Or(terms) => MatchesAny(row, terms, bindings)
    case Not(inner) =>
      var b :- Matches(row, inner, bindings);
      Ok(!b)
  }

  function MatchesIn(left: Option<Value>, operands: seq<Expr>, bindings: Bindings): Result<bool, ExecError> {
    if operands == [] then Ok(false)
    else
      var right :- Resolve(operands[0], bindings);
      if OrderOf(left, right) == Some(Equal) then Ok(true) else MatchesIn(left, operands[1..], bindings)
  }

  function MatchesAll(row: Row, ps: seq<Predicate>, bindings: Bindings): Result<bool, ExecError>
    decreases ps, 0
  {
    if ps == [] then Ok(true)
    else
      var b :- Matches(row, ps[0], bindings);
      if b then MatchesAll(row, ps[1..], bindings) else Ok(false)
  }

  function MatchesAny(row: Row, ps: seq<Predicate>, bindings: Bindings): Result<bool, ExecError>
    decreases ps, 0
  {
    if ps == [] then Ok(false)
    else
      var b :- Matches(row, ps[0], bindings);
      if b then Ok(true) else MatchesAny(row, ps[1..], bindings)
  }

  /** `filter_up_to`: keeps matching rows in order, stopping once `budget` of them have passed. */
  function FilterRows(rows: seq<Row>, p: Predicate, bindings: Bindings, budget: Option<nat>): Rows {
    if rows == [] || budget == Some(0) then Ok([])
    else
      var keep :- Matches(rows[0], p, bindings);
      var rest :- FilterRows(rows[1..], p, bindings, if keep then Spend(budget, 1) else budget);
      Ok(if keep then [rows[0]] + rest else rest)
  }

  /** What is left of a budget once `n` more rows have been produced. */
  function Spend(budget: Option<nat>, n: nat): Option<nat> {
    if budget.None? then None else Some(if budget.value < n then 0 else budget.value - n)
  }

  // ----- ordering -----

  /** `compare`: missing sorts last, and values that do not compare sort as equal. */
  function CompareColumns(a: Option<Value>, b: Option<Value>): Order {
    if a.Some? && b.Some? then
      var order := CompareValues(a.value, b.value);
      if order.Some? then order.value else Equal
    else if a.Some? then Less
    else if b.Some? then Greater
    else Equal
  }

  function Directed(o: Order, direction: SortOrder): Order {
    if direction == Asc then o else o.Reverse()
  }

  /** The sort comparator: each column in turn, then the primary key. */
  function CompareRows(a: Row, b: Row, keys: SortKeys): Order {
    if keys == [] then CompareString(a.primaryKey, b.primaryKey)
    else
      var order := Directed(CompareColumns(a.Column(keys[0].0), b.Column(keys[0].0)), keys[0].1);
      if order != Equal then order else CompareRows(a, b, keys[1..])
  }

  function InsertRow(r: Row, sorted: seq<Row>, keys: SortKeys): seq<Row> {
    if sorted == [] || CompareRows(sorted[0], r, keys) != Less then [r] + sorted
    else [sorted[0]] + InsertRow(r, sorted[1..], keys)
  }

  /** A stable sort.  Where the comparator is a total preorder every stable sort gives this;
      where it is not, the library's result is unspecified and this is one of them. */
  function SortRows(rows: seq<Row>, keys: SortKeys): seq<Row> {
    if rows == [] then [] else InsertRow(rows[0], SortRows(rows[1..], keys), keys)
  }

  // ----- index candidates -----

  function BoundFor(op: CompareOp, v: Value): Option<IndexBound> {
    match op
    case OpEq => Some(Eq(v))
    case OpNe => None
    case OpLt => Some(Range(None, Some((v, false))))
    case OpLte => Some(Range(None, Some((v, true))))
    case OpGt => Some(Range(Some((v, false)), None))
    case OpGte => Some(Range(Some((v, true)), None))
  }

  function ResolveAll(es: seq<Expr>, bindings: Bindings): Option<seq<Value>> {
    if es == [] then Some([])
    else
      var v, rest := Resolve(es[0], bindings), ResolveAll(es[1..], bindings);
      if v.Ok? && rest.Some? then Some([v.value] + rest.value) else None
  }

  /** `index_candidates`: None always means "scan", never "no rows". */
  ghost function Candidates(table: string, p: Predicate, env: Env, bindings: Bindings): Option<seq<string>>
    decreases p, 1
  {
    match p
    case Compare(op, column, operand) =>
      var v := Resolve(operand, bindings);
      if v.Ok? && op != OpNe then env.candidates(table, column, BoundFor(op, v.value).value) else None
    case In(column, operands) =>
      var vs := ResolveAll(operands, bindings);
      if vs.Some? then env.candidates(table, column, AnyOf(vs.value)) else None
    case And(terms) => FirstCandidates(table, terms, env, bindings)
    case Or(terms) =>
      var union := UnionCandidates(table, terms, env, bindings);
      if union.Some? then Some(SortedKeys(union.value)) else None
    case _ => None
  }

  ghost function FirstCandidates(table: string, ps: seq<Predicate>, env: Env, bindings: Bindings): Option<seq<string>>
    decreases ps, 0
  {
    if ps == [] then None
    else
      var first := Candidates(table, ps[0], env, bindings);
      if first.Some? then first else FirstCandidates(table, ps[1..], env, bindings)
  }

  ghost function UnionCandidates(table: string, ps: seq<Predicate>, env: Env, bindings: Bindings): Option<set<string>>
    decreases ps, 0
  {
    if ps == [] then Some({})
    else
      var first, rest := Candidates(table, ps[0], env, bindings), UnionCandidates(table, ps[1..], env, bindings);
      if first.Some? && rest.Some? then Some((set k | k in first.value) + rest.value) else None
  }

  /** The rows behind candidate keys; a key with no row is skipped. */
  function Fetch(table: string, keys: seq<string>, env: Env): seq<Row> {
    if keys == [] then []
    else
      var v := env.row(table, keys[0]);
      (if v.Some? then [Row(keys[0], v.value)] else []) + Fetch(table, keys[1..], env)
  }

  // ----- joins -----

  function Combine(outer: Row, inner: Row): Row {
    var left := if outer.value.Map? then outer.value.fields else map["outer" := outer.value];
    var right := if inner.value.Map? then inner.value.fields else map["inner" := inner.value];
    Row(outer.primaryKey, Map(left + right))
  }

  function CombineAll(outer: Row, matched: seq<Row>): seq<Row> {
    seq(|matched|, i requires 0 <= i < |matched| => Combine(outer, matched[i]))
  }

  // ----- aggregates -----

  const SEPARATOR := '\U{1}'

  /** `encode_key`: text as it is, anything else as JSON. */
  function KeyText(v: Value, env: Env): string {
    if v.Text? then v.s else env.json(v)
  }

  function ColumnOrNull(row: Row, column: string): Value {
    var v := row.Column(column);
    if v.Some? then v.value else Null
  }

  function GroupTuple(row: Row, groupBy: seq<string>, env: Env): seq<string> {
    seq(|groupBy|, i requires 0 <= i < |groupBy| => KeyText(ColumnOrNull(row, groupBy[i]), env))
  }

  function GroupKey(row: Row, groupBy: seq<string>, env: Env): string {
    JoinText(GroupTuple(row, groupBy, env), SEPARATOR)
  }

  /** The rows of one group, in arrival order. */
  function Members(rows: seq<Row>, key: string, groupBy: seq<string>, env: Env): seq<Row> {
    if rows == [] then []
    else if GroupKey(rows[0], groupBy, env) == key then [rows[0]] + Members(rows[1..], key, groupBy, env)
    else Members(rows[1..], key, groupBy, env)
  }

  function GroupKeys(rows: seq<Row>, groupBy: seq<string>, env: Env): set<string> {
    set r | r in rows :: GroupKey(r, groupBy, env)
  }

  /** The present, non-null values of a column. */
  function PresentValues(rows: seq<Row>, column: string): seq<Value> {
    if rows == [] then []
    else
      var v := rows[0].Column(column);
      if v.Some? && !v.value.Null?
      then [v.value] + PresentValues(rows[1..], column)
      else PresentValues(rows[1..], column)
  }

  function SumInts(values: seq<Value>): int64 {
    if values == [] then 0
    else
      var last := values[|values| - 1];
      var before := SumInts(values[..|values| - 1]);
      if last.Int? then Clamp64(before + last.i) else before
  }

  function SumValues(values: seq<Value>, env: Env): Value {
    if exists v :: v in values && v.Float? then Float(env.addFloats(values)) else Int(SumInts(values))
  }

  /** `extreme`: the first value no later one beats. */
  function ExtremeOf(values: seq<Value>, want: Order): Value {
    if values == [] then Null
    else if |values| == 1 then values[0]
    else
      var last := values[|values| - 1];
      var best := ExtremeOf(values[..|values| - 1], want);
      if CompareValues(last, best) == Some(want) then last else best
  }

  function ApplyAggregate(agg: Aggregate, rows: seq<Row>, env: Env): Value {
    var values := if agg.column.Some? then PresentValues(rows, agg.column.value) else [];
    match agg.func
    case Count => Int(Clamp64(if agg.column.None? then |rows| else |values|))
    case Sum => SumValues(values, env)
    case Average => if values == [] then Null else Float(env.divide(SumValues(values, env), |values|))
    case Minimum => ExtremeOf(values, Less)
    case Maximum => ExtremeOf(values, Greater)
  }

  function GroupFields(groupBy: seq<string>, members: seq<Row>): map<string, Value> {
    if groupBy == [] then map[]
    else
      var last := groupBy[|groupBy| - 1];
      GroupFields(groupBy[..|groupBy| - 1], members)
        [last := if members == [] then Null else ColumnOrNull(members[0], last)]
  }

  function AggregateFields(fields: map<string, Value>, aggregates: seq<Aggregate>, members: seq<Row>, env: Env)
    : map<string, Value>
  {
    if aggregates == [] then fields
    else
      var last := aggregates[|aggregates| - 1];
      AggregateFields(fields, aggregates[..|aggregates| - 1], members, env)
        [last.alias := ApplyAggregate(last, members, env)]
  }

  function GroupRow(key: string, rows: seq<Row>, groupBy: seq<string>, aggregates: seq<Aggregate>, env: Env): Row {
    var members := Members(rows, key, groupBy, env);
    Row(key, Map(AggregateFields(GroupFields(groupBy, members), aggregates, members, env)))
  }

  function GroupRows(keys: seq<string>, rows: seq<Row>, groupBy: seq<string>, aggregates: seq<Aggregate>, env: Env)
    : (out: seq<Row>)
    ensures |out| == |keys|
  {
    if keys == [] then []
    else [GroupRow(keys[0], rows, groupBy, aggregates, env)] + GroupRows(keys[1..], rows, groupBy, aggregates, env)
  }

  /** `aggregate`: one row over everything, or one row a group in ascending key order. */
  ghost function AggregateRows(rows: seq<Row>, groupBy: seq<string>, aggregates: seq<Aggregate>, env: Env): seq<Row> {
    if groupBy == [] then
      [Row("", Map(AggregateFields(map[], aggregates, rows, env)))]
    else
      GroupRows(SortedKeys(GroupKeys(rows, groupBy, env)), rows, groupBy, aggregates, env)
  }

  // ----- the executor, as a function -----

  /** Everything LIMIT needs from its input; the sum saturates at the largest `usize`. */
  function RowsNeeded(offset: uint64, count: uint64): uint64 {
    Min(offset + count, U64_MAX)
  }

  /** `skip(offset).take(count)` over a vector, which never exceeds the largest `usize`;
      see `WindowIsSkipTake`. */
  function Window(rows: seq<Row>, offset: uint64, count: uint64): seq<Row> {
    Take(Skip(rows, offset), Min(count, U64_MAX - offset))
  }

  function Tighten(needed: nat, budget: Option<nat>): nat {
    if budget.Some? then Min(needed, budget.value) else needed
  }

  function LookupRows(table: string, key: string, env: Env): seq<Row> {
    var v := env.row(table, key);
    if v.Some? then [Row(key, v.value)] else []
  }

  /** `eval`: what the code computes, budgets and index included. */
  ghost function Evaluate(plan: Plan, env: Env, bindings: Bindings, budget: Option<nat>): Rows
    decreases plan, 0, 0
  {
    match plan
    case Scan(table) => Ok(if budget.Some? then Take(env.scan(table), budget.value) else env.scan(table))
    case PointLookup(table, key) =>
      var v :- Resolve(key, bindings);
      Ok(LookupRows(table, KeyText(v, env), env))
    case IndexScan(table, _, pred) =>
      var keys := Candidates(table, pred, env, bindings);
      var rows := if keys.Some? then Fetch(table, keys.value, env) else env.scan(table);
      FilterRows(rows, pred, bindings, None)
    case Join(outer, inner, outerColumn, binds) =>
      var rows :- Evaluate(outer, env, bindings, None);
      EvaluateJoin(rows, inner, outerColumn, binds, env, bindings, budget)
    case Filter(input, pred) =>
      var rows :- Evaluate(input, env, bindings, None);
      FilterRows(rows, pred, bindings, budget)
    case Project(input, _) => Evaluate(input, env, bindings, budget)
    case Sort(input, keys) =>
      var rows :- Evaluate(input, env, bindings, None);
      Ok(SortRows(rows, keys))
    case Limit(input, count, offset) =>
      var rows :- Evaluate(input, env, bindings, Some(Tighten(RowsNeeded(offset, count), budget)));
      Ok(Window(rows, offset, count))
    case GroupBy(input, groupBy, aggregates) =>
      var rows :- Evaluate(input, env, bindings, None);
      Ok(AggregateRows(rows, groupBy, aggregates, env))
  }

  /** The join loop: the budget is looked at only after an outer row that had a key. */
  ghost function EvaluateJoin(rows: seq<Row>, inner: Plan, outerColumn: string, binds: string, env: Env,
                              bindings: Bindings, budget: Option<nat>): Rows
    decreases inner, 1, |rows|
  {
    if rows == [] then Ok([])
    else
      var key := rows[0].Column(outerColumn);
      if key.None? then EvaluateJoin(rows[1..], inner, outerColumn, binds, env, bindings, budget)
      else
        var matched :- Evaluate(inner, env, bindings[binds := key.value], None);
        var joined, left := CombineAll(rows[0], matched), Spend(budget, |matched|);
        if left == Some(0) then Ok(joined)
        else
          var rest :- EvaluateJoin(rows[1..], inner, outerColumn, binds, env, bindings, left);
          Ok(joined + rest)
  }

  // ----- the reference meaning: no budget, no index -----

  ghost function Denote(plan: Plan, env: Env, bindings: Bindings): Rows
    decreases plan, 0, 0
  {
    match plan
    case Scan(table) => Ok(env.scan(table))
    case PointLookup(table, key) =>
      var v :- Resolve(key, bindings);
      Ok(LookupRows(table, KeyText(v, env), env))
    case IndexScan(table, _, pred) => FilterRows(env.scan(table), pred, bindings, None)
    case Join(outer, inner, outerColumn, binds) =>
      var rows :- Denote(outer, env, bindings);
      DenoteJoin(rows, inner, outerColumn, binds, env, bindings)
    case Filter(input, pred) =>
      var rows :- Denote(input, env, bindings);
      FilterRows(rows, pred, bindings, None)
    case Project(input, _) => Denote(input, env, bindings)
    case Sort(input, keys) =>
      var rows :- Denote(input, env, bindings);
      Ok(SortRows(rows, keys))
    case Limit(input, count, offset) =>
      var rows :- Denote(input, env, bindings);
      Ok(Window(rows, offset, count))
    case GroupBy(input, groupBy, aggregates) =>
      var rows :- Denote(input, env, bindings);
      Ok(AggregateRows(rows, groupBy, aggregates, env))
  }

  ghost function DenoteJoin(rows: seq<Row>, inner: Plan, outerColumn: string, binds: string, env: Env,
                            bindings: Bindings): Rows
    decreases inner, 1, |rows|
  {
    if rows == [] then Ok([])
    else
      var key := rows[0].Column(outerColumn);
      if key.None? then DenoteJoin(rows[1..], inner, outerColumn, binds, env, bindings)
      else
        var matched :- Denote(inner, env, bindings[binds := key.value]);
        var rest :- DenoteJoin(rows[1..], inner, outerColumn, binds, env, bindings);
        Ok(CombineAll(rows[0], matched) + rest)
  }

  lemma WindowIsSkipTake(rows: seq<Row>, offset: uint64, count: uint64)
    requires |rows| <= U64_MAX
    ensures Window(rows, offset, count) == Take(Skip(rows, offset), count)
  {}

  // ----- checking parameters before anything runs -----

  function CheckBindings(needed: seq<Needed>, bindings: Bindings): Result<(), ExecError> {
    if needed == [] then Ok(())
    else if needed[0].name !in bindings then Err(UnboundParameter(needed[0].name))
    else
      var v := bindings[needed[0].name];
      if needed[0].ty.Some? && !Accepts(needed[0].ty.value, v) then
        Err(ParameterType(needed[0].name, needed[0].ty.value, InferredType(v)))
      else CheckBindings(needed[1..], bindings)
  }

  /** `execute`, up to the rendering of the rows into columns. */
  ghost function Execute(plan: Plan, env: Env, bindings: Bindings): Rows {
    var _ :- CheckBindings(Params(plan), bindings);
    Evaluate(plan, env, bindings, None)
  }
}
