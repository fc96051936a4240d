/** The query builder: sort and limit are held aside, so the order of calls does not matter. */
module Builder {
  import opened Prelude
  import opened Values
  import opened IndexKeys
  import opened Plans
  import opened Exec
  import opened Refinement

  datatype State = State(plan: Plan, sort: SortKeys, limit: Option<(uint64, uint64)>)

  /** Successive filters become one conjunction. */
  function AddFilter(plan: Plan, pred: Predicate): Plan {
    match plan
    case Filter(input, And(terms)) => Filter(input, And(terms + [pred]))
    case Filter(input, existing) => Filter(input, And([existing, pred]))
    case _ => Filter(plan, pred)
  }

  function SourceTable(plan: Plan): string {
    match plan
    case Scan(table) => table
    case PointLookup(table, _) => table
    case IndexScan(table, _, _) => table
    case Filter(input, _) => SourceTable(input)
    case Project(input, _) => SourceTable(input)
    case Sort(input, _) => SourceTable(input)
    case Limit(input, _, _) => SourceTable(input)
    case GroupBy(input, _, _) => SourceTable(input)
    case Join(outer, _, _, _) => SourceTable(outer)
  }

  function Finish(s: State): Plan {
    var sorted := if s.sort != [] then Sort(s.plan, s.sort) else s.plan;
    if s.limit.Some? then Limit(sorted, s.limit.value.0, s.limit.value.1) else sorted
  }

  class QueryBuilder {
    var plan: Plan
    var sort: SortKeys
    var limit: Option<(uint64, uint64)>

    function Value(): State
      reads this
    {
      State(plan, sort, limit)
    }

    constructor (table: string)
      ensures Value() == Fresh(table)
    {
      plan, sort, limit := Scan(table), [], None;
    }

    method Key(key: Expr)
      modifies this
      ensures Value() == old(Value()).(plan := PointLookup(SourceTable(old(plan)), key))
    {
      var table := SourceTable(plan);
      plan := PointLookup(table, key);
    }

    method Where(pred: Predicate)
      modifies this
      ensures Value() == Step(old(Value()), CallFilter(pred))
    {
      match plan
      case Filter(input, And(terms)) => plan := Filter(input, And(terms + [pred]));
      case Filter(input, existing) => plan := Filter(input, And([existing, pred]));
      case _ => plan := Filter(plan, pred);
    }

    method Select(columns: seq<string>)
      modifies this
      ensures Value() == old(Value()).(plan := Project(old(plan), columns))
    {
      plan := Project(plan, columns);
    }

    method OrderBy(column: string, direction: SortOrder)
      modifies this
      ensures Value() == Step(old(Value()), CallOrder(column, direction))
    {
      sort := sort + [(column, direction)];
    }

    method SetLimit(count: uint64)
      modifies this
      ensures Value() == Step(old(Value()), CallLimit(count))
    {
      var offset: uint64 := if limit.Some? then limit.value.1 else 0;
      limit := Some((count, offset));
    }

    method SetOffset(offset: uint64)
      modifies this
      ensures Value() == Step(old(Value()), CallOffset(offset))
    {
      var count: uint64 := if limit.Some? then limit.value.0 else U64_MAX;
      limit := Some((count, offset));
    }

    /** Grouping drops a pending projection. */
    method Aggregate(groupBy: seq<string>, aggregates: seq<Aggregate>)
      modifies this
      ensures Value() == old(Value()).(plan := GroupBy(
                if old(plan).Project? then old(plan).input else old(plan), groupBy, aggregates))
    {
      var input := if plan.Project? then plan.input else plan;
      plan := GroupBy(input, groupBy, aggregates);
    }

    method Build() returns (p: Plan)
      ensures p == Finish(Value())
    {
      p := plan;
      if sort != [] {
        p := Sort(p, sort);
      }
      if limit.Some? {
        p := Limit(p, limit.value.0, limit.value.1);
      }
    }
  }

  // ----- interleavings of calls -----

  datatype Call =
    | CallFilter(pred: Predicate)
    | CallOrder(column: string, direction: SortOrder)
    | CallLimit(count: uint64)
    | CallOffset(offset: uint64)

  function Fresh(table: string): State {
    State(Scan(table), [], None)
  }

  function Step(s: State, call: Call): State {
    match call
    case CallFilter(pred) => s.(plan := AddFilter(s.plan, pred))
    case CallOrder(column, direction) => s.(sort := s.sort + [(column, direction)])
    case CallLimit(count) => s.(limit := Some((count, if s.limit.Some? then s.limit.value.1 else 0)))
    case CallOffset(offset) => s.(limit := Some((if s.limit.Some? then s.limit.value.0 else U64_MAX, offset)))
  }

  function Run(table: string, calls: seq<Call>): State {
    if calls == [] then Fresh(table)
    else Step(Run(table, calls[..|calls| - 1]), calls[|calls| - 1])
  }

  function Filters(calls: seq<Call>): seq<Predicate> {
    if calls == [] then []
    else
      var last := calls[|calls| - 1];
      Filters(calls[..|calls| - 1]) + if last.CallFilter? then [last.pred] else []
  }

  function Orders(calls: seq<Call>): SortKeys {
    if calls == [] then []
    else
      var last := calls[|calls| - 1];
      Orders(calls[..|calls| - 1]) + if last.CallOrder? then [(last.column, last.direction)] else []
  }

  function LastCount(calls: seq<Call>): Option<uint64> {
    if calls == [] then None
    else
      var last := calls[|calls| - 1];
      if last.CallLimit? then Some(last.count) else LastCount(calls[..|calls| - 1])
  }

  function LastOffset(calls: seq<Call>): Option<uint64> {
    if calls == [] then None
    else
      var last := calls[|calls| - 1];
      if last.CallOffset? then Some(last.offset) else LastOffset(calls[..|calls| - 1])
  }

  function FilterAll(table: string, filters: seq<Predicate>): Plan {
    if filters == [] then Scan(table)
    else AddFilter(FilterAll(table, filters[..|filters| - 1]), filters[|filters| - 1])
  }

  function LimitFor(count: Option<uint64>, offset: Option<uint64>): Option<(uint64, uint64)> {
    if count.None? && offset.None? then None
    else Some((if count.Some? then count.value else U64_MAX, if offset.Some? then offset.value else 0))
  }

  /** What is built depends only on the filters in order, the sort keys in order, and the last
      limit and offset, however the calls were interleaved. */
  lemma {:induction false} BuildIgnoresInterleaving(table: string, calls: seq<Call>)
    ensures Run(table, calls)
            == State(FilterAll(table, Filters(calls)), Orders(calls), LimitFor(LastCount(calls), LastOffset(calls)))
  {
    if calls != [] {
      var before, last := calls[..|calls| - 1], calls[|calls| - 1];
      BuildIgnoresInterleaving(table, before);
      if last.CallFilter? {
        assert Filters(calls)[..|Filters(calls)| - 1] == Filters(before);
      } else {
        assert Filters(calls) == Filters(before);
      }
      if !last.CallOrder? {
        assert Orders(calls) == Orders(before);
      }
    }
  }

  // ----- meaning -----

  lemma {:induction false} MatchesAllAppend(row: Row, a: seq<Predicate>, p: Predicate, bindings: Bindings)
    ensures MatchesAll(row, a + [p], bindings)
            == if MatchesAll(row, a, bindings) == Ok(true) then Matches(row, p, bindings)
               else MatchesAll(row, a, bindings)
  {
    if a == [] {
      assert ([] + [p])[1..] == [];
      assert MatchesAll(row, [p], bindings) == Matches(row, p, bindings);
    } else {
      assert (a + [p])[1..] == a[1..] + [p];
      MatchesAllAppend(row, a[1..], p, bindings);
    }
  }

  /** One filter node whose predicate judges every row as all the filters together do. */
  lemma {:induction false} FilterAllIsConjunction(table: string, filters: seq<Predicate>, row: Row, bindings: Bindings)
    requires filters != []
    ensures var plan := FilterAll(table, filters);
            && plan.Filter? && plan.input == Scan(table)
            && Matches(row, plan.pred, bindings) == MatchesAll(row, filters, bindings)
  {
    var before, last := filters[..|filters| - 1], filters[|filters| - 1];
    assert filters == before + [last];
    MatchesAllAppend(row, before, last, bindings);
    if before != [] {
      FilterAllIsConjunction(table, before, row, bindings);
      var existing := FilterAll(table, before).pred;
      match existing
      case And(terms) => MatchesAllAppend(row, terms, last, bindings);
      case _ =>
        assert [existing, last] == [existing] + [last];
        MatchesAllAppend(row, [existing], last, bindings);
        MatchesAllAppend(row, [], existing, bindings);
        assert [] + [existing] == [existing];
    } else {
      assert FilterAll(table, before) == Scan(table);
    }
  }

  lemma {:induction false} SameJudgementSameRows(rows: seq<Row>, p: Predicate, q: Predicate, bindings: Bindings)
    requires forall r :: r in rows ==> Matches(r, p, bindings) == Matches(r, q, bindings)
    ensures FilterRows(rows, p, bindings, None) == FilterRows(rows, q, bindings, None)
  {
    if rows != [] {
      assert rows[0] in rows && forall r :: r in rows[1..] ==> r in rows;
      SameJudgementSameRows(rows[1..], p, q, bindings);
    }
  }

  /** The rows satisfying every filter, sorted, and windowed. */
  function Answer(rows: seq<Row>, keys: SortKeys, limit: Option<(uint64, uint64)>): seq<Row> {
    var sorted := if keys != [] then SortRows(rows, keys) else rows;
    if limit.Some? then Window(sorted, limit.value.1, limit.value.0) else sorted
  }

  /** Executing a built plan skips and takes from the sort of the rows that satisfy every
      filter, with no side condition on budgets. */
  lemma BuilderMeaning(table: string, calls: seq<Call>, env: Env, bindings: Bindings)
    requires FilterRows(env.scan(table), And(Filters(calls)), bindings, None).Ok?
    ensures var kept := FilterRows(env.scan(table), And(Filters(calls)), bindings, None).value;
            Evaluate(Finish(Run(table, calls)), env, bindings, None)
            == Ok(Answer(kept, Orders(calls), LimitFor(LastCount(calls), LastOffset(calls))))
  {
    BuildIgnoresInterleaving(table, calls);
    var filters, rows := Filters(calls), env.scan(table);
    var inner := FilterAll(table, filters);
    if filters == [] {
      NoFilterKeepsAll(rows, bindings);
    } else {
      FilterAllIsConjunction(table, filters, Row("", Null), bindings);
      forall r | r in rows ensures Matches(r, inner.pred, bindings) == Matches(r, And(filters), bindings) {
        FilterAllIsConjunction(table, filters, r, bindings);
      }
      SameJudgementSameRows(rows, inner.pred, And(filters), bindings);
    }
    var plan := Finish(Run(table, calls));
    assert IndexServed(Scan(table), env, bindings) && Denote(Scan(table), env, bindings) == Ok(rows);
    assert Safe(inner, None) && IndexServed(inner, env, bindings);
    assert Denote(inner, env, bindings) == FilterRows(rows, And(filters), bindings, None);
    var keys := Orders(calls);
    var sorted := if keys != [] then Sort(inner, keys) else inner;
    assert (forall b :: Safe(sorted, b)) && IndexServed(sorted, env, bindings);
    assert Denote(sorted, env, bindings).Ok?;
    ExecutionIsMeaning(plan, env, bindings);
  }

  lemma {:induction false} NoFilterKeepsAll(rows: seq<Row>, bindings: Bindings)
    ensures FilterRows(rows, And([]), bindings, None) == Ok(rows)
  {
    if rows != [] {
      NoFilterKeepsAll(rows[1..], bindings);
      assert rows == [rows[0]] + rows[1..];
    }
  }
}
