/** The optimizer's passes, and what they keep of a plan. */
module Optimizer {
  import opened Prelude
  import opened Values
  import opened IndexKeys
  import opened Plans
  import opened Exec
  import opened Refinement
  import opened Sorting

  /** Table to column to the name of the index over it. */
  type Statistics = map<string, map<string, string>>

  function Size(plan: Plan): nat {
    match plan
    case Filter(input, _) => 1 + Size(input)
    case Project(input, _) => 1 + Size(input)
    case Sort(input, _) => 1 + Size(input)
    case Limit(input, _, _) => 1 + Size(input)
    case GroupBy(input, _, _) => 1 + Size(input)
    case _ => 0
  }

  /** Move filters below projections and sorts, never below a limit. */
  function PushDown(plan: Plan): Plan
    decreases Size(plan)
  {
    match plan
    case Filter(Project(input, columns), pred) =>
      assert Size(plan) == 2 + Size(input);
      Project(PushDown(Filter(input, pred)), columns)
    case Filter(Sort(input, keys), pred) =>
      assert Size(plan) == 2 + Size(input);
      Sort(PushDown(Filter(input, pred)), keys)
    case Filter(input, pred) => Filter(PushDown(input), pred)
    case Project(input, columns) => Project(PushDown(input), columns)
    case Sort(input, keys) => Sort(PushDown(input), keys)
    case Limit(input, count, offset) => Limit(PushDown(input), count, offset)
    case GroupBy(input, groupBy, aggregates) => GroupBy(PushDown(input), groupBy, aggregates)
    case _ => plan
  }

  function IndexFor(p: Predicate, stats: Statistics, table: string): Option<string>
    decreases p, 1
  {
    if table !in stats then None
    else match p
      case Compare(op, column, _) =>
        if op != OpNe && column in stats[table] then Some(stats[table][column]) else None
      case In(column, _) => if column in stats[table] then Some(stats[table][column]) else None
      case And(terms) => FirstIndexFor(terms, stats, table)
      case _ => None
  }

  function FirstIndexFor(ps: seq<Predicate>, stats: Statistics, table: string): Option<string>
    decreases ps, 0
  {
    if ps == [] then None
    else
      var first := IndexFor(ps[0], stats, table);
      if first.Some? then first else FirstIndexFor(ps[1..], stats, table)
  }

  /** Turn a filtered scan into an index scan carrying the whole predicate. */
  function SelectIndexes(plan: Plan, stats: Statistics): Plan {
    match plan
    case Filter(input, pred) =>
      var chosen := SelectIndexes(input, stats);
      if chosen.Scan? then
        var index := IndexFor(pred, stats, chosen.table);
        if index.Some? then IndexScan(chosen.table, index.value, pred) else Filter(chosen, pred)
      else Filter(chosen, pred)
    case Project(input, columns) => Project(SelectIndexes(input, stats), columns)
    case Sort(input, keys) => Sort(SelectIndexes(input, stats), keys)
    case Limit(input, count, offset) => Limit(SelectIndexes(input, stats), count, offset)
    case GroupBy(input, groupBy, aggregates) => GroupBy(SelectIndexes(input, stats), groupBy, aggregates)
    case _ => plan
  }

  /** Remove filters that keep everything, and limits over a single looked-up row. */
  function Simplify(plan: Plan): Plan {
    match plan
    case Filter(input, pred) => if pred.True? then Simplify(input) else Filter(Simplify(input), pred)
    case Limit(input, count, offset) =>
      var simple := Simplify(input);
      if simple.PointLookup? && offset == 0 && count >= 1 then simple else Limit(simple, count, offset)
    case Project(input, columns) => Project(Simplify(input), columns)
    case Sort(input, keys) => Sort(Simplify(input), keys)
    case GroupBy(input, groupBy, aggregates) => GroupBy(Simplify(input), groupBy, aggregates)
    case _ => plan
  }

  function Optimize(plan: Plan, stats: Statistics): Plan {
    Simplify(SelectIndexes(PushDown(plan), stats))
  }

  // ----- rows -----

  /** Both fail, or both give the same rows.  Which row's error is met first may differ. */
  predicate Agree(a: Rows, b: Rows) {
    a.Ok? == b.Ok? && (a.Ok? ==> a == b)
  }

  /** Every sort that a filter is pushed through has columns its comparator can order. */
  ghost predicate PushedSortsComparable(plan: Plan, env: Env, bindings: Bindings)
    decreases Size(plan)
  {
    match plan
    case Filter(Project(input, _), pred) =>
      assert Size(plan) == 2 + Size(input);
      PushedSortsComparable(Filter(input, pred), env, bindings)
    case Filter(Sort(input, keys), pred) =>
      assert Size(plan) == 2 + Size(input);
      && PushedSortsComparable(Filter(input, pred), env, bindings)
      && (Denote(input, env, bindings).Ok? ==> Comparable(Denote(input, env, bindings).value, keys))
    case Filter(input, _) => PushedSortsComparable(input, env, bindings)
    case Project(input, _) => PushedSortsComparable(input, env, bindings)
    case Sort(input, _) => PushedSortsComparable(input, env, bindings)
    case Limit(input, _, _) => PushedSortsComparable(input, env, bindings)
    case GroupBy(input, _, _) => PushedSortsComparable(input, env, bindings)
    case _ => true
  }

  /** A filter fails, or not, on the same rows in any order. */
  lemma FilterBelowSort(rows: seq<Row>, keys: SortKeys, p: Predicate, bindings: Bindings)
    requires Comparable(rows, keys)
    ensures FilterRows(SortRows(rows, keys), p, bindings, None).Ok? <==> FilterRows(rows, p, bindings, None).Ok?
    ensures FilterRows(rows, p, bindings, None).Ok? ==>
              FilterRows(SortRows(rows, keys), p, bindings, None)
              == Ok(SortRows(FilterRows(rows, p, bindings, None).value, keys))
  {
    SortKeepsRows(rows, keys);
    SameRows(SortRows(rows, keys), rows);
    FilterMembers(rows, p, bindings);
    FilterMembers(SortRows(rows, keys), p, bindings);
    if FilterRows(rows, p, bindings, None).Ok? {
      FilterSortCommute(rows, rows, keys, p, bindings);
    }
  }

  lemma {:induction false} PushDownKeepsRows(plan: Plan, env: Env, bindings: Bindings)
    requires PushedSortsComparable(plan, env, bindings)
    ensures Agree(Denote(plan, env, bindings), Denote(PushDown(plan), env, bindings))
    decreases Size(plan)
  {
    match plan
    case Filter(Project(input, columns), pred) =>
      assert Size(plan) == 2 + Size(input);
      PushDownKeepsRows(Filter(input, pred), env, bindings);
    case Filter(Sort(input, keys), pred) =>
      assert Size(plan) == 2 + Size(input);
      PushDownKeepsRows(Filter(input, pred), env, bindings);
      if Denote(input, env, bindings).Ok? {
        FilterBelowSort(Denote(input, env, bindings).value, keys, pred, bindings);
      }
    case Filter(input, pred) => PushDownKeepsRows(input, env, bindings);
    case Project(input, columns) => PushDownKeepsRows(input, env, bindings);
    case Sort(input, keys) => PushDownKeepsRows(input, env, bindings);
    case Limit(input, count, offset) => PushDownKeepsRows(input, env, bindings);
    case GroupBy(input, groupBy, aggregates) => PushDownKeepsRows(input, env, bindings);
    case _ =>
  }

  lemma {:induction false} SelectIndexesKeepsRows(plan: Plan, stats: Statistics, env: Env, bindings: Bindings)
    ensures Denote(SelectIndexes(plan, stats), env, bindings) == Denote(plan, env, bindings)
  {
    match plan
    case Filter(input, pred) => SelectIndexesKeepsRows(input, stats, env, bindings);
    case Project(input, columns) => SelectIndexesKeepsRows(input, stats, env, bindings);
    case Sort(input, keys) => SelectIndexesKeepsRows(input, stats, env, bindings);
    case Limit(input, count, offset) => SelectIndexesKeepsRows(input, stats, env, bindings);
    case GroupBy(input, groupBy, aggregates) => SelectIndexesKeepsRows(input, stats, env, bindings);
    case _ =>
  }

  lemma {:induction false} TrueKeepsEverything(rows: seq<Row>, bindings: Bindings)
    ensures FilterRows(rows, True, bindings, None) == Ok(rows)
  {
    if rows != [] {
      TrueKeepsEverything(rows[1..], bindings);
      assert rows == [rows[0]] + rows[1..];
    }
  }

  lemma {:induction false} SimplifyKeepsRows(plan: Plan, env: Env, bindings: Bindings)
    ensures Denote(Simplify(plan), env, bindings) == Denote(plan, env, bindings)
  {
    match plan
    case Filter(input, pred) =>
      SimplifyKeepsRows(input, env, bindings);
      if pred.True? && Denote(input, env, bindings).Ok? {
        TrueKeepsEverything(Denote(input, env, bindings).value, bindings);
      }
    case Project(input, columns) => SimplifyKeepsRows(input, env, bindings);
    case Sort(input, keys) => SimplifyKeepsRows(input, env, bindings);
    case Limit(input, count, offset) =>
      SimplifyKeepsRows(input, env, bindings);
      if Simplify(input).PointLookup? && offset == 0 && count >= 1 && Denote(input, env, bindings).Ok? {
        var rows := Denote(input, env, bindings).value;
        assert |rows| <= 1 && Window(rows, 0, count) == rows;
      }
    case GroupBy(input, groupBy, aggregates) => SimplifyKeepsRows(input, env, bindings);
    case _ =>
  }

  /** An optimized plan means what the plan meant. */
  lemma OptimizeKeepsMeaning(plan: Plan, stats: Statistics, env: Env, bindings: Bindings)
    requires PushedSortsComparable(plan, env, bindings)
    ensures Agree(Denote(plan, env, bindings), Denote(Optimize(plan, stats), env, bindings))
  {
    PushDownKeepsRows(plan, env, bindings);
    SelectIndexesKeepsRows(PushDown(plan), stats, env, bindings);
    SimplifyKeepsRows(SelectIndexes(PushDown(plan), stats), env, bindings);
  }

  // ----- budgets -----

  /** A plan without its always-true filters, as far down as the optimizer looks. */
  function Strip(plan: Plan): Plan {
    match plan
    case Filter(input, pred) => if pred.True? then Strip(input) else Filter(Strip(input), pred)
    case Project(input, columns) => Project(Strip(input), columns)
    case Sort(input, keys) => Sort(Strip(input), keys)
    case Limit(input, count, offset) => Limit(Strip(input), count, offset)
    case GroupBy(input, groupBy, aggregates) => GroupBy(Strip(input), groupBy, aggregates)
    case _ => plan
  }

  lemma {:induction false} PushDownSafeExactly(plan: Plan, budget: Option<nat>)
    ensures Safe(Strip(PushDown(plan)), budget) <==> Safe(Strip(plan), budget)
    decreases Size(plan)
  {
    match plan
    case Filter(Project(input, columns), pred) =>
      assert Size(plan) == 2 + Size(input);
      PushDownSafeExactly(Filter(input, pred), budget);
    case Filter(Sort(input, keys), pred) =>
      assert Size(plan) == 2 + Size(input);
      PushDownSafeExactly(Filter(input, pred), None);
    case Filter(input, pred) => PushDownSafeExactly(input, if pred.True? then budget else None);
    case Project(input, columns) => PushDownSafeExactly(input, budget);
    case Sort(input, keys) => PushDownSafeExactly(input, None);
    case Limit(input, count, offset) =>
      PushDownSafeExactly(input, Some(Tighten(RowsNeeded(offset, count), budget)));
    case GroupBy(input, groupBy, aggregates) => PushDownSafeExactly(input, None);
    case _ =>
  }

  lemma {:induction false} SelectIndexesSafeExactly(plan: Plan, stats: Statistics, budget: Option<nat>)
    ensures Safe(Strip(SelectIndexes(plan, stats)), budget) <==> Safe(Strip(plan), budget)
  {
    match plan
    case Filter(input, pred) => SelectIndexesSafeExactly(input, stats, if pred.True? then budget else None);
    case Project(input, columns) => SelectIndexesSafeExactly(input, stats, budget);
    case Sort(input, keys) => SelectIndexesSafeExactly(input, stats, None);
    case Limit(input, count, offset) =>
      SelectIndexesSafeExactly(input, stats, Some(Tighten(RowsNeeded(offset, count), budget)));
    case GroupBy(input, groupBy, aggregates) => SelectIndexesSafeExactly(input, stats, None);
    case _ =>
  }

  lemma {:induction false} SimplifySafeExactly(plan: Plan, budget: Option<nat>)
    ensures Safe(Simplify(plan), budget) <==> Safe(Strip(plan), budget)
  {
    match plan
    case Filter(input, pred) => SimplifySafeExactly(input, if pred.True? then budget else None);
    case Project(input, columns) => SimplifySafeExactly(input, budget);
    case Sort(input, keys) => SimplifySafeExactly(input, None);
    case Limit(input, count, offset) =>
      SimplifySafeExactly(input, Some(Tighten(RowsNeeded(offset, count), budget)));
    case GroupBy(input, groupBy, aggregates) => SimplifySafeExactly(input, None);
    case _ =>
  }

  /** An optimized plan is safe to execute exactly when the plan is, once its always-true filters
      are gone: only they can have kept a budget away from a LIMIT it does not fit. */
  lemma OptimizeKeepsSafeExactly(plan: Plan, stats: Statistics, budget: Option<nat>)
    ensures Safe(Optimize(plan, stats), budget) <==> Safe(Strip(plan), budget)
  {
    PushDownSafeExactly(plan, budget);
    SelectIndexesSafeExactly(PushDown(plan), stats, budget);
    SimplifySafeExactly(SelectIndexes(PushDown(plan), stats), budget);
  }

  /** The executor, with budgets and indexes on both sides, returns the same rows. */
  lemma OptimizedExecutionAgrees(plan: Plan, stats: Statistics, env: Env, bindings: Bindings)
    requires PushedSortsComparable(plan, env, bindings) && Denote(plan, env, bindings).Ok?
    requires Safe(plan, None) && Safe(Strip(plan), None)
    requires IndexServed(plan, env, bindings) && IndexServed(Optimize(plan, stats), env, bindings)
    ensures Evaluate(Optimize(plan, stats), env, bindings, None) == Evaluate(plan, env, bindings, None)
  {
    OptimizeKeepsMeaning(plan, stats, env, bindings);
    OptimizeKeepsSafeExactly(plan, stats, None);
    ExecutionIsMeaning(plan, env, bindings);
    ExecutionIsMeaning(Optimize(plan, stats), env, bindings);
  }

  /** Removing an always-true filter can lose rows: the filter was what kept an outer budget
      from reaching an inner LIMIT with an offset. */
  lemma TrivialFilterShieldedTheLimit(env: Env, bindings: Bindings)
    requires |env.scan("t")| >= 10
    ensures var plan := Limit(Filter(Limit(Scan("t"), 10, 3), True), 5, 0);
            && Evaluate(plan, env, bindings, None) == Ok(env.scan("t")[3..8])
            && Evaluate(Optimize(plan, map[]), env, bindings, None) == Ok(env.scan("t")[3..5])
  {
    var rows := env.scan("t");
    var inner: Plan := Limit(Scan("t"), 10, 3);
    var plan := Limit(Filter(inner, True), 5, 0);
    assert Optimize(plan, map[]) == Limit(inner, 5, 0) by {
      assert PushDown(plan) == plan;
      assert SelectIndexes(plan, map[]) == plan;
      assert Simplify(inner) == inner;
    }
    var seen := Window(Take(rows, 13), 3, 10);
    assert Evaluate(inner, env, bindings, None) == Ok(seen);
    assert Evaluate(inner, env, bindings, Some(5)) == Ok(Window(Take(rows, 5), 3, 10));
    forall i | 0 <= i < 5 ensures i < |seen| && seen[i] == rows[3 + i] {
      assert Take(rows, 13)[3 + i] == rows[3 + i];
    }
    assert seen[..5] == rows[3..8];
    assert Window(Window(Take(rows, 5), 3, 10), 0, 5) == rows[3..5];
    TrueKeepsEverything(seen, bindings);
    FilterHonoursBudget(seen, True, bindings, Some(5));
    var kept := FilterRows(seen, True, bindings, Some(5)).value;
    assert Window(kept, 0, 5) == seen[..5];
  }

  // ----- columns -----

  /** The projection an optimized plan ends up with. */
  function OptimizedProjection(plan: Plan): Option<seq<string>>
    decreases Size(plan)
  {
    match plan
    case Filter(Project(_, columns), _) => Some(columns)
    case Filter(Sort(input, _), pred) =>
      assert Size(plan) == 2 + Size(input);
      OptimizedProjection(Filter(input, pred))
    case Filter(input, pred) => if pred.True? then OptimizedProjection(input) else None
    case Sort(input, _) => OptimizedProjection(input)
    case Limit(input, _, _) => OptimizedProjection(input)
    case _ => ExplicitProjection(plan)
  }

  /** The first node under sorts and limits. */
  function Spine(plan: Plan): Plan {
    match plan
    case Sort(input, _) => Spine(input)
    case Limit(input, _, _) => Spine(input)
    case _ => plan
  }

  lemma {:induction false} OptimizeProjects(plan: Plan, stats: Statistics)
    ensures ExplicitProjection(Optimize(plan, stats)) == OptimizedProjection(plan)
    decreases Size(plan)
  {
    match plan
    case Filter(Project(input, columns), pred) =>
    case Filter(Sort(input, keys), pred) =>
      assert Size(plan) == 2 + Size(input);
      OptimizeProjects(Filter(input, pred), stats);
    case Filter(input, pred) => OptimizeProjects(input, stats);
    case Sort(input, keys) => OptimizeProjects(input, stats);
    case Limit(input, count, offset) => OptimizeProjects(input, stats);
    case GroupBy(input, groupBy, aggregates) =>
    case _ =>
  }

  lemma {:induction false} SpineProjects(plan: Plan)
    ensures ExplicitProjection(plan) == ExplicitProjection(Spine(plan))
    ensures OptimizedProjection(plan) == OptimizedProjection(Spine(plan))
  {
    match plan
    case Sort(input, _) => SpineProjects(input);
    case Limit(input, _, _) => SpineProjects(input);
    case _ =>
  }

  /** The optimizer keeps the columns of the result exactly when no filter stood between the
      result and a projection: a filter over a projection returns every column, and pushing
      it below the projection returns only the projected ones. */
  lemma OptimizeKeepsColumnsExactly(plan: Plan, stats: Statistics)
    ensures ExplicitProjection(Optimize(plan, stats)) == ExplicitProjection(plan)
            <==> !(Spine(plan).Filter? && OptimizedProjection(Spine(plan)).Some?)
  {
    OptimizeProjects(plan, stats);
    SpineProjects(plan);
  }
}
