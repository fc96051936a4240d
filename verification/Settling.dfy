/** When a second optimizer pass has nothing left to do. */
module Settling {
  import opened Prelude
  import opened Plans
  import opened Optimizer
  import Builder

  /** What a plan comes to have on top. */
  datatype Top = OverProject | OverSort | OverScan(table: string) | OverLookup | OverOther

  /** Read off the plan: always-true filters go, filters sink into projections and sorts, and a
      limit over a looked-up row goes. */
  function TopOf(plan: Plan): Top {
    match plan
    case Scan(table) => OverScan(table)
    case PointLookup(_, _) => OverLookup
    case Project(_, _) => OverProject
    case Sort(_, _) => OverSort
    case Filter(Project(_, _), _) => OverProject
    case Filter(Sort(_, _), _) => OverSort
    case Filter(input, pred) => if pred.True? then TopOf(input) else OverOther
    case Limit(input, count, offset) =>
      if TopOf(input).OverLookup? && offset == 0 && count >= 1 then OverLookup else OverOther
    case _ => OverOther
  }

  /** A filter over this stays where it is. */
  predicate StaysAbove(top: Top, pred: Predicate, stats: Statistics) {
    !top.OverProject? && !top.OverSort? && (top.OverScan? ==> IndexFor(pred, stats, top.table).None?)
  }

  /** Whether one run of the optimizer is enough: no filter that is kept may end up over a sort, a
      projection, or a scan it has an index for, because of what was directly under it before. */
  predicate Settles(plan: Plan, stats: Statistics)
    decreases Size(plan)
  {
    match plan
    case Filter(Project(input, _), pred) =>
      assert Size(plan) == 2 + Size(input);
      Settles(Filter(input, pred), stats)
    case Filter(Sort(input, _), pred) =>
      assert Size(plan) == 2 + Size(input);
      Settles(Filter(input, pred), stats)
    case Filter(input, pred) =>
      Settles(input, stats) && (pred.True? || input.Scan? || StaysAbove(TopOf(input), pred, stats))
    case Project(input, _) => Settles(input, stats)
    case Sort(input, _) => Settles(input, stats)
    case Limit(input, _, _) => Settles(input, stats)
    case GroupBy(input, _, _) => Settles(input, stats)
    case _ => true
  }

  /** A filter that is neither pushed down nor directly over a scan. */
  lemma FilterOptimizes(input: Plan, pred: Predicate, stats: Statistics)
    requires !input.Project? && !input.Sort?
    ensures var whole := Optimize(Filter(input, pred), stats);
            if pred.True? then whole == Optimize(input, stats)
            else if input.Scan? && IndexFor(pred, stats, input.table).Some?
            then whole == IndexScan(input.table, IndexFor(pred, stats, input.table).value, pred)
            else whole == Filter(Optimize(input, stats), pred)
  {
    SelectKeepsScans(PushDown(input), stats);
    assert PushDown(Filter(input, pred)) == Filter(PushDown(input), pred);
  }

  lemma SelectKeepsScans(plan: Plan, stats: Statistics)
    ensures SelectIndexes(plan, stats).Scan? ==> plan == SelectIndexes(plan, stats)
    ensures PushDown(plan).Scan? ==> plan == PushDown(plan)
  {}

  lemma LimitOptimizes(input: Plan, count: uint64, offset: uint64, stats: Statistics)
    ensures var inner := Optimize(input, stats);
            Optimize(Limit(input, count, offset), stats)
            == if inner.PointLookup? && offset == 0 && count >= 1 then inner else Limit(inner, count, offset)
  {}

  lemma UnaryOptimizes(plan: Plan, stats: Statistics)
    ensures plan.Project? ==> Optimize(plan, stats) == Project(Optimize(plan.input, stats), plan.columns)
    ensures plan.Sort? ==> Optimize(plan, stats) == Sort(Optimize(plan.input, stats), plan.sortKeys)
    ensures plan.GroupBy? ==>
            Optimize(plan, stats) == GroupBy(Optimize(plan.input, stats), plan.groupBy, plan.aggregates)
    ensures plan.Filter? && plan.input.Project? ==>
              Optimize(plan, stats) == Project(Optimize(Filter(plan.input.input, plan.pred), stats), plan.input.columns)
    ensures plan.Filter? && plan.input.Sort? ==>
              Optimize(plan, stats) == Sort(Optimize(Filter(plan.input.input, plan.pred), stats), plan.input.sortKeys)
  {}

  /** The top of a plan, read off it, is the top of the optimized plan. */
  lemma {:induction false} TopOfOptimized(plan: Plan, stats: Statistics)
    ensures var out := Optimize(plan, stats);
            && (out.Project? <==> TopOf(plan).OverProject?) && (out.Sort? <==> TopOf(plan).OverSort?)
            && (out.PointLookup? <==> TopOf(plan).OverLookup?)
            && (if out.Scan? then TopOf(plan) == OverScan(out.table) else !TopOf(plan).OverScan?)
  {
    UnaryOptimizes(plan, stats);
    match plan
    case Filter(Project(_, _), _) =>
    case Filter(Sort(_, _), _) =>
    case Filter(input, pred) =>
      FilterOptimizes(input, pred, stats);
      TopOfOptimized(input, stats);
    case Limit(input, count, offset) =>
      LimitOptimizes(input, count, offset, stats);
      TopOfOptimized(input, stats);
    case _ =>
  }

  /** Optimizing an optimized plan changes nothing exactly when the plan settles. */
  lemma {:induction false} IdempotentExactly(plan: Plan, stats: Statistics)
    ensures Optimize(Optimize(plan, stats), stats) == Optimize(plan, stats) <==> Settles(plan, stats)
    decreases Size(plan)
  {
    UnaryOptimizes(plan, stats);
    UnaryOptimizes(Optimize(plan, stats), stats);
    match plan
    case Filter(Project(input, columns), pred) =>
      assert Size(plan) == 2 + Size(input);
      IdempotentExactly(Filter(input, pred), stats);
    case Filter(Sort(input, keys), pred) =>
      assert Size(plan) == 2 + Size(input);
      IdempotentExactly(Filter(input, pred), stats);
    case Filter(input, pred) =>
      IdempotentExactly(input, stats);
      FilterSettles(input, pred, stats);
    case Project(input, _) => IdempotentExactly(input, stats);
    case Sort(input, _) => IdempotentExactly(input, stats);
    case Limit(input, count, offset) =>
      IdempotentExactly(input, stats);
      LimitOptimizes(input, count, offset, stats);
      LimitOptimizes(Optimize(input, stats), count, offset, stats);
    case GroupBy(input, _, _) => IdempotentExactly(input, stats);
    case _ =>
  }

  lemma FilterSettles(input: Plan, pred: Predicate, stats: Statistics)
    requires !input.Project? && !input.Sort?
    requires Optimize(Optimize(input, stats), stats) == Optimize(input, stats) <==> Settles(input, stats)
    ensures var plan := Filter(input, pred);
            Optimize(Optimize(plan, stats), stats) == Optimize(plan, stats) <==> Settles(plan, stats)
  {
    var inner := Optimize(input, stats);
    TopOfOptimized(input, stats);
    FilterOptimizes(input, pred, stats);
    UnaryOptimizes(Filter(inner, pred), stats);
    if !inner.Project? && !inner.Sort? {
      FilterOptimizes(inner, pred, stats);
    }
  }

  /** Two filters over a sort: the first run leaves the upper one where the second would not. */
  lemma StackedFiltersNeedTwoRuns(table: string, p: Predicate, q: Predicate, keys: SortKeys)
    requires !p.True? && !q.True?
    ensures var plan := Filter(Filter(Sort(Scan(table), keys), p), q);
            && Optimize(plan, map[]) == Filter(Sort(Filter(Scan(table), p), keys), q)
            && Optimize(Optimize(plan, map[]), map[]) == Sort(Filter(Filter(Scan(table), p), q), keys)
            && !Settles(plan, map[])
  {
    var once := Filter(Sort(Filter(Scan(table), p), keys), q);
    FilterOptimizes(Scan(table), p, map[]);
    UnaryOptimizes(Filter(Sort(Scan(table), keys), p), map[]);
    FilterOptimizes(Filter(Sort(Scan(table), keys), p), q, map[]);
    UnaryOptimizes(once, map[]);
    FilterOptimizes(Filter(Scan(table), p), q, map[]);
    IdempotentExactly(Filter(Filter(Sort(Scan(table), keys), p), q), map[]);
  }

  /** The optimizer never changes which table is read. */
  lemma {:induction false} OptimizeReadsTheSameTable(plan: Plan, stats: Statistics)
    ensures Builder.SourceTable(Optimize(plan, stats)) == Builder.SourceTable(plan)
    decreases Size(plan)
  {
    UnaryOptimizes(plan, stats);
    match plan
    case Filter(Project(input, _), pred) =>
      assert Size(plan) == 2 + Size(input);
      OptimizeReadsTheSameTable(Filter(input, pred), stats);
    case Filter(Sort(input, _), pred) =>
      assert Size(plan) == 2 + Size(input);
      OptimizeReadsTheSameTable(Filter(input, pred), stats);
    case Filter(input, pred) =>
      FilterOptimizes(input, pred, stats);
      OptimizeReadsTheSameTable(input, stats);
    case Project(input, _) => OptimizeReadsTheSameTable(input, stats);
    case Sort(input, _) => OptimizeReadsTheSameTable(input, stats);
    case Limit(input, count, offset) =>
      LimitOptimizes(input, count, offset, stats);
      OptimizeReadsTheSameTable(input, stats);
    case GroupBy(input, _, _) => OptimizeReadsTheSameTable(input, stats);
    case _ =>
  }
}
