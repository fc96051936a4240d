/** The executor with its budgets and indexes refines the plan's plain meaning. */
module Refinement {
  import opened Prelude
  import opened Strings
  import opened Values
  import opened IndexKeys
  import opened Plans
  import opened Exec

  /** What a caller may rely on: with a budget, a prefix at least as long as asked for;
      without one, the whole result. */
  predicate Honours(meaning: Rows, got: Rows, budget: Option<nat>) {
    meaning.Ok? ==>
      && got.Ok?
      && got.value <= meaning.value
      && (if budget.Some? then |got.value| >= Min(budget.value, |meaning.value|) else got == meaning)
  }

  /** When a LIMIT that itself received a budget still produces enough rows. */
  predicate LimitKeepsBudget(offset: uint64, count: uint64, budget: nat) {
    offset == 0 || count == 0 || budget == 0 || offset == U64_MAX || RowsNeeded(offset, count) <= budget
  }

  /** No LIMIT with an offset is reached with a budget too small for it. */
  predicate Safe(plan: Plan, budget: Option<nat>) {
    match plan
    case Scan(_) => true
    case PointLookup(_, _) => true
    case IndexScan(_, _, _) => true
    case Join(outer, inner, _, _) => Safe(outer, None) && Safe(inner, None)
    case Filter(input, _) => Safe(input, None)
    case Project(input, _) => Safe(input, budget)
    case Sort(input, _) => Safe(input, None)
    case Limit(input, count, offset) =>
      && (budget.Some? ==> LimitKeepsBudget(offset, count, budget.value))
      && Safe(input, Some(Tighten(RowsNeeded(offset, count), budget)))
    case GroupBy(input, _, _) => Safe(input, None)
  }

  // ----- the contract of a row source -----

  ghost predicate AscendingRows(rows: seq<Row>) {
    forall i, j :: 0 <= i < j < |rows| ==> StringLess(rows[i].primaryKey, rows[j].primaryKey)
  }

  /** A scan is in key order, and a lookup finds exactly the scanned rows. */
  ghost predicate WellKeyed(table: string, env: Env) {
    && AscendingRows(env.scan(table))
    && (forall r :: r in env.scan(table) ==> env.row(table, r.primaryKey) == Some(r.value))
    && (forall k :: env.row(table, k).Some? ==> Row(k, env.row(table, k).value) in env.scan(table))
  }

  /** An index that answers one comparison answers it with a superset, in key order. */
  ghost predicate LeafServed(table: string, p: Predicate, env: Env, bindings: Bindings) {
    Candidates(table, p, env, bindings).Some? ==>
      && Ascending(Candidates(table, p, env, bindings).value)
      && forall r :: r in env.scan(table) && Matches(r, p, bindings) == Ok(true) ==>
           r.primaryKey in Candidates(table, p, env, bindings).value
  }

  ghost predicate PredicateServed(table: string, p: Predicate, env: Env, bindings: Bindings)
    decreases p, 1
  {
    match p
    case Compare(_, _, _) => LeafServed(table, p, env, bindings)
    case In(_, _) => LeafServed(table, p, env, bindings)
    case And(terms) => PredicatesServed(table, terms, env, bindings)
    case Or(terms) => PredicatesServed(table, terms, env, bindings)
    case _ => true
  }

  ghost predicate PredicatesServed(table: string, ps: seq<Predicate>, env: Env, bindings: Bindings)
    decreases ps, 0
  {
    ps != [] ==> PredicateServed(table, ps[0], env, bindings) && PredicatesServed(table, ps[1..], env, bindings)
  }

  /** Every comparison an index scan of this plan asks for is served, for the bindings it runs under. */
  ghost predicate IndexServed(plan: Plan, env: Env, bindings: Bindings) {
    match plan
    case Scan(_) => true
    case PointLookup(_, _) => true
    case IndexScan(table, _, pred) => WellKeyed(table, env) && PredicateServed(table, pred, env, bindings)
    case Join(outer, inner, outerColumn, binds) =>
      && IndexServed(outer, env, bindings)
      && (Denote(outer, env, bindings).Ok? ==>
            forall r :: r in Denote(outer, env, bindings).value && r.Column(outerColumn).Some? ==>
              IndexServed(inner, env, bindings[binds := r.Column(outerColumn).value]))
    case Filter(input, _) => IndexServed(input, env, bindings)
    case Project(input, _) => IndexServed(input, env, bindings)
    case Sort(input, _) => IndexServed(input, env, bindings)
    case Limit(input, _, _) => IndexServed(input, env, bindings)
    case GroupBy(input, _, _) => IndexServed(input, env, bindings)
  }

  // ----- filters -----

  /** Filtering succeeds when every row can be judged, and keeps exactly the rows judged true. */
  lemma {:induction false} FilterMembers(rows: seq<Row>, p: Predicate, bindings: Bindings)
    ensures FilterRows(rows, p, bindings, None).Ok? <==> forall r :: r in rows ==> Matches(r, p, bindings).Ok?
    ensures FilterRows(rows, p, bindings, None).Ok? ==>
              forall r :: r in FilterRows(rows, p, bindings, None).value
                          <==> r in rows && Matches(r, p, bindings) == Ok(true)
  {
    if rows != [] {
      FilterMembers(rows[1..], p, bindings);
      assert forall r :: r in rows <==> r == rows[0] || r in rows[1..];
    }
  }

  lemma {:induction false} FilterKeepsOrder(rows: seq<Row>, p: Predicate, bindings: Bindings)
    requires AscendingRows(rows) && FilterRows(rows, p, bindings, None).Ok?
    ensures AscendingRows(FilterRows(rows, p, bindings, None).value)
  {
    if rows != [] {
      FilterKeepsOrder(rows[1..], p, bindings);
      FilterMembers(rows[1..], p, bindings);
      var kept := FilterRows(rows[1..], p, bindings, None).value;
      forall j | 0 <= j < |kept| ensures StringLess(rows[0].primaryKey, kept[j].primaryKey) {
        assert kept[j] in kept && kept[j] in rows[1..];
      }
    }
  }

  /** Stopping a filter early yields a prefix of what it would have kept. */
  lemma {:induction false} FilterHonoursBudget(rows: seq<Row>, p: Predicate, bindings: Bindings, budget: Option<nat>)
    ensures Honours(FilterRows(rows, p, bindings, None), FilterRows(rows, p, bindings, budget), budget)
  {
    if rows != [] && budget != Some(0) && FilterRows(rows, p, bindings, None).Ok? {
      var keep := Matches(rows[0], p, bindings).value;
      FilterHonoursBudget(rows[1..], p, bindings, if keep then Spend(budget, 1) else budget);
    }
  }

  // ----- index scans -----

  /** AND may be answered by any one conjunct; OR only by every disjunct. */
  lemma {:induction false} CandidatesCover(table: string, p: Predicate, env: Env, bindings: Bindings, r: Row)
    requires PredicateServed(table, p, env, bindings) && Candidates(table, p, env, bindings).Some?
    ensures Ascending(Candidates(table, p, env, bindings).value)
    ensures r in env.scan(table) && Matches(r, p, bindings) == Ok(true) ==>
              r.primaryKey in Candidates(table, p, env, bindings).value
    decreases p, 1
  {
    match p
    case And(terms) => FirstCandidatesCover(table, terms, env, bindings, r);
    case Or(terms) =>
      UnionCandidatesCover(table, terms, env, bindings, r);
      SortedKeysAscend(UnionCandidates(table, terms, env, bindings).value);
    case _ =>
  }

  lemma {:induction false} FirstCandidatesCover(table: string, ps: seq<Predicate>, env: Env, bindings: Bindings, r: Row)
    requires PredicatesServed(table, ps, env, bindings) && FirstCandidates(table, ps, env, bindings).Some?
    ensures Ascending(FirstCandidates(table, ps, env, bindings).value)
    ensures r in env.scan(table) && MatchesAll(r, ps, bindings) == Ok(true) ==>
              r.primaryKey in FirstCandidates(table, ps, env, bindings).value
    decreases ps, 0
  {
    if Candidates(table, ps[0], env, bindings).Some? {
      CandidatesCover(table, ps[0], env, bindings, r);
    } else {
      FirstCandidatesCover(table, ps[1..], env, bindings, r);
    }
  }

  lemma {:induction false} UnionCandidatesCover(table: string, ps: seq<Predicate>, env: Env, bindings: Bindings, r: Row)
    requires PredicatesServed(table, ps, env, bindings) && UnionCandidates(table, ps, env, bindings).Some?
    ensures r in env.scan(table) && MatchesAny(r, ps, bindings) == Ok(true) ==>
              r.primaryKey in UnionCandidates(table, ps, env, bindings).value
    decreases ps, 0
  {
    if ps != [] {
      CandidatesCover(table, ps[0], env, bindings, r);
      UnionCandidatesCover(table, ps[1..], env, bindings, r);
    }
  }

  lemma {:induction false} FetchMembers(table: string, keys: seq<string>, env: Env)
    ensures forall r :: r in Fetch(table, keys, env)
                        <==> r.primaryKey in keys && env.row(table, r.primaryKey) == Some(r.value)
  {
    if keys != [] {
      FetchMembers(table, keys[1..], env);
      assert forall k :: k in keys <==> k == keys[0] || k in keys[1..];
      var v := env.row(table, keys[0]);
      forall r ensures r in Fetch(table, keys, env)
                       <==> r.primaryKey in keys && env.row(table, r.primaryKey) == Some(r.value) {
        assert r in Fetch(table, keys, env)
          <==> (v.Some? && r == Row(keys[0], v.value)) || r in Fetch(table, keys[1..], env);
        if r.primaryKey == keys[0] && v == Some(r.value) {
          assert r == Row(keys[0], v.value);
        }
      }
    }
  }

  lemma {:induction false} FetchKeepsOrder(table: string, keys: seq<string>, env: Env)
    requires Ascending(keys)
    ensures AscendingRows(Fetch(table, keys, env))
  {
    if keys != [] {
      FetchKeepsOrder(table, keys[1..], env);
      FetchMembers(table, keys[1..], env);
      var rest := Fetch(table, keys[1..], env);
      forall j | 0 <= j < |rest| ensures StringLess(keys[0], rest[j].primaryKey) {
        assert rest[j] in rest && rest[j].primaryKey in keys[1..];
      }
    }
  }

  function KeysOf(rows: seq<Row>): (keys: seq<string>)
    ensures |keys| == |rows| && forall i :: 0 <= i < |rows| ==> keys[i] == rows[i].primaryKey
  {
    seq(|rows|, i requires 0 <= i < |rows| => rows[i].primaryKey)
  }

  /** Rows in strict key order are determined by which rows they are. */
  lemma AscendingRowsUnique(a: seq<Row>, b: seq<Row>)
    requires AscendingRows(a) && AscendingRows(b)
    requires forall r :: r in a <==> r in b
    ensures a == b
  {
    forall k ensures k in KeysOf(a) <==> k in KeysOf(b) {
      if k in KeysOf(a) {
        var i :| 0 <= i < |a| && a[i].primaryKey == k;
        assert a[i] in b;
      }
      if k in KeysOf(b) {
        var i :| 0 <= i < |b| && b[i].primaryKey == k;
        assert b[i] in a;
      }
    }
    AscendingUnique(KeysOf(a), KeysOf(b));
    forall i | 0 <= i < |a| ensures a[i] == b[i] {
      assert KeysOf(a)[i] == KeysOf(b)[i];
      assert a[i] in b;
      var j :| 0 <= j < |b| && b[j] == a[i];
      CompareStringTotal(b[i].primaryKey, b[j].primaryKey, b[i].primaryKey);
    }
  }

  /** An index scan keeps the very sequence of rows a filtered scan keeps. */
  lemma IndexScanIsFilteredScan(table: string, p: Predicate, env: Env, bindings: Bindings, keys: seq<string>)
    requires WellKeyed(table, env) && PredicateServed(table, p, env, bindings)
    requires Candidates(table, p, env, bindings) == Some(keys)
    requires FilterRows(env.scan(table), p, bindings, None).Ok?
    ensures FilterRows(Fetch(table, keys, env), p, bindings, None) == FilterRows(env.scan(table), p, bindings, None)
  {
    var all, found := env.scan(table), Fetch(table, keys, env);
    FilterMembers(all, p, bindings);
    FilterMembers(found, p, bindings);
    FetchMembers(table, keys, env);
    assert forall r :: r in found ==> r in all;
    var want, got := FilterRows(all, p, bindings, None).value, FilterRows(found, p, bindings, None).value;
    forall r ensures r in want <==> r in got {
      CandidatesCover(table, p, env, bindings, r);
    }
    if all != [] {
      CandidatesCover(table, p, env, bindings, all[0]);
    } else {
      CandidatesCover(table, p, env, bindings, Row("", Null));
    }
    FetchKeepsOrder(table, keys, env);
    FilterKeepsOrder(found, p, bindings);
    FilterKeepsOrder(all, p, bindings);
    AscendingRowsUnique(want, got);
  }

  // ----- limits -----

  lemma LimitHonoursBudget(rows: seq<Row>, got: seq<Row>, offset: uint64, count: uint64, budget: Option<nat>)
    requires budget.Some? ==> LimitKeepsBudget(offset, count, budget.value)
    requires Honours(Ok(rows), Ok(got), Some(Tighten(RowsNeeded(offset, count), budget)))
    ensures Honours(Ok(Window(rows, offset, count)), Ok(Window(got, offset, count)), budget)
  {
    var want, have := Window(rows, offset, count), Window(got, offset, count);
    assert |have| <= |want|;
    forall i | 0 <= i < |have| ensures have[i] == want[i] {
      assert have[i] == got[offset + i] && want[i] == rows[offset + i];
    }
    if budget.None? {
      assert have == want;
    }
  }

  /** A LIMIT over a table scan, given a budget, keeps its promise for every table exactly when
      the offset is absent or the budget covers offset and count together. */
  lemma BudgetedLimitExactly(table: string, offset: uint64, count: uint64, budget: nat)
    ensures (forall env: Env, bindings: Bindings ::
               var plan := Limit(Scan(table), count, offset);
               Honours(Denote(plan, env, bindings), Evaluate(plan, env, bindings, Some(budget)), Some(budget)))
            <==> LimitKeepsBudget(offset, count, budget)
  {
    var plan := Limit(Scan(table), count, offset);
    if LimitKeepsBudget(offset, count, budget) {
      forall env: Env, bindings: Bindings
        ensures Honours(Denote(plan, env, bindings), Evaluate(plan, env, bindings, Some(budget)), Some(budget))
      {
        LimitHonoursBudget(env.scan(table), Take(env.scan(table), Tighten(RowsNeeded(offset, count), Some(budget))),
                           offset, count, Some(budget));
      }
    } else {
      var env, bindings: Bindings := RepeatedRow(RowsNeeded(offset, count)), map[];
      assert |env.scan(table)| == RowsNeeded(offset, count);
      assert !Honours(Denote(plan, env, bindings), Evaluate(plan, env, bindings, Some(budget)), Some(budget));
    }
  }

  /** A source in which every table holds the same row `n` times. */
  function RepeatedRow(n: nat): Env {
    var rows := seq(n, i => Row("k", Null));
    Env(table => rows, (table, key) => None, (table, column, bound) => None,
        v => "", vs => Floats.SignMagnitude(false, 0), (v, k) => Floats.SignMagnitude(false, 0))
  }

  // ----- joins -----

  lemma {:induction false} EvaluateHonours(plan: Plan, env: Env, bindings: Bindings, budget: Option<nat>)
    requires Safe(plan, budget) && IndexServed(plan, env, bindings)
    ensures Honours(Denote(plan, env, bindings), Evaluate(plan, env, bindings, budget), budget)
    decreases plan, 0, 0
  {
    if Denote(plan, env, bindings).Ok? {
      match plan
      case Scan(_) =>
      case PointLookup(_, _) =>
      case IndexScan(table, _, pred) =>
        var keys := Candidates(table, pred, env, bindings);
        if keys.Some? {
          IndexScanIsFilteredScan(table, pred, env, bindings, keys.value);
        }
      case Join(outer, inner, outerColumn, binds) =>
        EvaluateHonours(outer, env, bindings, None);
        JoinHonours(Denote(outer, env, bindings).value, inner, outerColumn, binds, env, bindings, budget);
      case Filter(input, pred) =>
        EvaluateHonours(input, env, bindings, None);
        FilterHonoursBudget(Denote(input, env, bindings).value, pred, bindings, budget);
      case Project(input, _) => EvaluateHonours(input, env, bindings, budget);
      case Sort(input, _) => EvaluateHonours(input, env, bindings, None);
      case Limit(input, count, offset) =>
        var inner := Some(Tighten(RowsNeeded(offset, count), budget));
        EvaluateHonours(input, env, bindings, inner);
        LimitHonoursBudget(Denote(input, env, bindings).value, Evaluate(input, env, bindings, inner).value,
                           offset, count, budget);
      case GroupBy(input, _, _) => EvaluateHonours(input, env, bindings, None);
    }
  }

  lemma {:induction false} JoinHonours(rows: seq<Row>, inner: Plan, outerColumn: string, binds: string, env: Env,
                                       bindings: Bindings, budget: Option<nat>)
    requires Safe(inner, None)
    requires forall r :: r in rows && r.Column(outerColumn).Some? ==>
                           IndexServed(inner, env, bindings[binds := r.Column(outerColumn).value])
    ensures Honours(DenoteJoin(rows, inner, outerColumn, binds, env, bindings),
                    EvaluateJoin(rows, inner, outerColumn, binds, env, bindings, budget), budget)
    decreases inner, 1, |rows|
  {
    if rows != [] && DenoteJoin(rows, inner, outerColumn, binds, env, bindings).Ok? {
      var key := rows[0].Column(outerColumn);
      if key.None? {
        JoinHonours(rows[1..], inner, outerColumn, binds, env, bindings, budget);
      } else {
        assert rows[0] in rows;
        EvaluateHonours(inner, env, bindings[binds := key.value], None);
        var matched := Denote(inner, env, bindings[binds := key.value]).value;
        JoinHonours(rows[1..], inner, outerColumn, binds, env, bindings, Spend(budget, |matched|));
      }
    }
  }

  /** Executing a plan without a budget gives exactly its meaning. */
  lemma ExecutionIsMeaning(plan: Plan, env: Env, bindings: Bindings)
    requires Safe(plan, None) && IndexServed(plan, env, bindings)
    requires Denote(plan, env, bindings).Ok?
    ensures Evaluate(plan, env, bindings, None) == Denote(plan, env, bindings)
  {
    EvaluateHonours(plan, env, bindings, None);
  }
}
