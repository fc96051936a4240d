/** The executor's loops, each proved to compute what `Exec` says it computes. */
module Executor {
  import opened Prelude
  import opened Strings
  import opened Floats
  import opened Values
  import opened IndexKeys
  import opened Plans
  import opened Joining
  import opened Exec

  /** Rows already produced, followed by what is still to come. */
  function Then(out: seq<Row>, rest: Rows): Rows {
    if rest.Ok? then Ok(out + rest.value) else rest
  }

  lemma ThenNothing(rest: Rows)
    ensures Then([], rest) == rest
  {
    assert rest.Ok? ==> [] + rest.value == rest.value;
  }

  // ----- filters -----

  lemma ThenThen(first: seq<Row>, second: seq<Row>, rest: Rows)
    ensures Then(first, Then(second, rest)) == Then(first + second, rest)
  {
    assert rest.Ok? ==> first + (second + rest.value) == first + second + rest.value;
  }

  method FilterUpTo(rows: seq<Row>, p: Predicate, bindings: Bindings, budget: Option<nat>) returns (r: Rows)
    ensures r == FilterRows(rows, p, bindings, budget)
  {
    var out: seq<Row> := [];
    assert rows[0..] == rows;
    ThenNothing(FilterRows(rows, p, bindings, budget));
    for i := 0 to |rows|
      invariant FilterRows(rows, p, bindings, budget)
                == Then(out, FilterRows(rows[i..], p, bindings, Spend(budget, |out|)))
    {
      assert rows[i..][0] == rows[i] && rows[i..][1..] == rows[i + 1..];
      if budget.Some? && |out| >= budget.value {
        break;
      }
      var keep := Matches(rows[i], p, bindings);
      if keep.Err? {
        return Err(keep.error);
      }
      if keep.value {
        ThenThen(out, [rows[i]], FilterRows(rows[i + 1..], p, bindings, Spend(budget, |out| + 1)));
        out := out + [rows[i]];
      }
    }
    assert out + [] == out;
    return Ok(out);
  }

  // ----- index candidates -----

  method ResolveOperands(operands: seq<Expr>, bindings: Bindings) returns (values: Option<seq<Value>>)
    ensures values == ResolveAll(operands, bindings)
  {
    var out: seq<Value> := [];
    ghost var all := ResolveAll(operands, bindings);
    assert operands[0..] == operands && (all.Some? ==> [] + all.value == all.value);
    for i := 0 to |operands|
      invariant all == if ResolveAll(operands[i..], bindings).Some?
                       then Some(out + ResolveAll(operands[i..], bindings).value) else None
    {
      assert operands[i..][0] == operands[i] && operands[i..][1..] == operands[i + 1..];
      var v := Resolve(operands[i], bindings);
      if v.Err? {
        return None;
      }
      ghost var rest := ResolveAll(operands[i + 1..], bindings);
      assert rest.Some? ==> out + ([v.value] + rest.value) == (out + [v.value]) + rest.value;
      out := out + [v.value];
    }
    assert out + [] == out;
    values := Some(out);
  }

  method IndexCandidates(table: string, p: Predicate, env: Env, bindings: Bindings) returns (keys: Option<seq<string>>)
    ensures keys == Candidates(table, p, env, bindings)
    decreases p
  {
    match p
    case Compare(op, column, operand) =>
      var v := Resolve(operand, bindings);
      if v.Err? || op == OpNe {
        return None;
      }
      keys := env.candidates(table, column, BoundFor(op, v.value).value);
    case In(column, operands) =>
      var values := ResolveOperands(operands, bindings);
      if values.None? {
        return None;
      }
      keys := env.candidates(table, column, AnyOf(values.value));
    case And(terms) =>
      // The first conjunct an index can serve.
      assert terms[0..] == terms;
      for i := 0 to |terms|
        invariant FirstCandidates(table, terms, env, bindings) == FirstCandidates(table, terms[i..], env, bindings)
      {
        assert terms[i..][0] == terms[i] && terms[i..][1..] == terms[i + 1..];
        keys := IndexCandidates(table, terms[i], env, bindings);
        if keys.Some? {
          return;
        }
      }
      keys := None;
    case Or(terms) =>
      // Every disjunct, or none of them.
      var union: set<string> := {};
      ghost var all := UnionCandidates(table, terms, env, bindings);
      assert terms[0..] == terms && (all.Some? ==> {} + all.value == all.value);
      for i := 0 to |terms|
        invariant all == if UnionCandidates(table, terms[i..], env, bindings).Some?
                         then Some(union + UnionCandidates(table, terms[i..], env, bindings).value) else None
      {
        assert terms[i..][0] == terms[i] && terms[i..][1..] == terms[i + 1..];
        var found := IndexCandidates(table, terms[i], env, bindings);
        if found.None? {
          return None;
        }
        ghost var rest := UnionCandidates(table, terms[i + 1..], env, bindings);
        assert rest.Some? ==> union + ((set k | k in found.value) + rest.value)
                              == (union + set k | k in found.value) + rest.value;
        union := union + set k | k in found.value;
      }
      assert union + {} == union;
      var sorted := SortKeySet(union);
      keys := Some(sorted);
    case _ => keys := None;
  }

  // ----- aggregates -----

  /** Stays integral while every value is an integer; integer totals saturate. */
  method SumOf(values: seq<Value>, env: Env) returns (total: Value)
    ensures total == SumValues(values, env)
  {
    var intTotal: int64 := 0;
    var anyFloat := false;
    for i := 0 to |values|
      invariant intTotal == SumInts(values[..i])
      invariant anyFloat <==> exists v :: v in values[..i] && v.Float?
    {
      assert values[..i + 1][..i] == values[..i] && values[..i + 1] == values[..i] + [values[i]];
      match values[i]
      case Int(n) => intTotal := Clamp64(intTotal + n);
      case Float(_) => anyFloat := true; assert values[i] in values[..i + 1];
      case _ =>
    }
    assert values[..|values|] == values;
    total := if anyFloat then Float(env.addFloats(values)) else Int(intTotal);
  }

  method Extreme(values: seq<Value>, want: Order) returns (best: Value)
    ensures best == ExtremeOf(values, want)
  {
    var found: Option<Value> := None;
    for i := 0 to |values|
      invariant found.Some? <==> i > 0
      invariant found.Some? ==> found.value == ExtremeOf(values[..i], want)
    {
      assert values[..i + 1][..i] == values[..i];
      if found.None? || CompareValues(values[i], found.value) == Some(want) {
        found := Some(values[i]);
      }
    }
    assert values[..|values|] == values;
    best := if found.Some? then found.value else Null;
  }

  method ApplyOne(agg: Aggregate, rows: seq<Row>, env: Env) returns (v: Value)
    ensures v == ApplyAggregate(agg, rows, env)
  {
    var values: seq<Value> := if agg.column.Some? then PresentValues(rows, agg.column.value) else [];
    match agg.func
    case Count => v := Int(Clamp64(if agg.column.None? then |rows| else |values|));
    case Sum => v := SumOf(values, env);
    case Average =>
      if values == [] {
        v := Null;
      } else {
        var total := SumOf(values, env);
        v := Float(env.divide(total, |values|));
      }
    case Minimum => v := Extreme(values, Less);
    case Maximum => v := Extreme(values, Greater);
  }

  method InsertAggregates(start: map<string, Value>, aggregates: seq<Aggregate>, rows: seq<Row>, env: Env)
    returns (fields: map<string, Value>)
    ensures fields == AggregateFields(start, aggregates, rows, env)
  {
    fields := start;
    for i := 0 to |aggregates|
      invariant fields == AggregateFields(start, aggregates[..i], rows, env)
    {
      assert aggregates[..i + 1][..i] == aggregates[..i];
      var v := ApplyOne(aggregates[i], rows, env);
      fields := fields[aggregates[i].alias := v];
    }
    assert aggregates[..|aggregates|] == aggregates;
  }

  method AggregateAll(rows: seq<Row>, groupBy: seq<string>, aggregates: seq<Aggregate>, env: Env)
    returns (out: seq<Row>)
    ensures out == AggregateRows(rows, groupBy, aggregates, env)
  {
    if groupBy == [] {
      var total := InsertAggregates(map[], aggregates, rows, env);
      return [Row("", Map(total))];
    }

    var groups := GroupUp(rows, groupBy, env);
    var keys := SortKeySet(groups.Keys);
    SortedKeysAscend(groups.Keys);
    out := EmitGroups(keys, groups, rows, groupBy, aggregates, env);
  }

  method EmitGroups(keys: seq<string>, groups: map<string, seq<Row>>, ghost rows: seq<Row>, groupBy: seq<string>,
                    aggregates: seq<Aggregate>, env: Env) returns (out: seq<Row>)
    requires forall k :: k in keys ==> k in groups && groups[k] == Members(rows, k, groupBy, env)
    ensures out == GroupRows(keys, rows, groupBy, aggregates, env)
  {
    out := [];
    assert keys[0..] == keys;
    for i := 0 to |keys|
      invariant out + GroupRows(keys[i..], rows, groupBy, aggregates, env)
                == GroupRows(keys, rows, groupBy, aggregates, env)
    {
      assert keys[i..][0] == keys[i] && keys[i..][1..] == keys[i + 1..];
      var row := OneGroup(keys[i], groups[keys[i]], groupBy, aggregates, env);
      ghost var rest := GroupRows(keys[i + 1..], rows, groupBy, aggregates, env);
      assert out + ([row] + rest) == (out + [row]) + rest;
      out := out + [row];
    }
    assert out + [] == out;
  }

  method OneGroup(key: string, members: seq<Row>, groupBy: seq<string>, aggregates: seq<Aggregate>, env: Env)
    returns (row: Row)
    ensures row == Row(key, Map(AggregateFields(GroupFields(groupBy, members), aggregates, members, env)))
  {
    var fields: map<string, Value> := map[];
    for j := 0 to |groupBy|
      invariant fields == GroupFields(groupBy[..j], members)
    {
      assert groupBy[..j + 1][..j] == groupBy[..j];
      var value := if members == [] then Null else ColumnOrNull(members[0], groupBy[j]);
      fields := fields[groupBy[j] := value];
    }
    assert groupBy[..|groupBy|] == groupBy;
    var all := InsertAggregates(fields, aggregates, members, env);
    row := Row(key, Map(all));
  }

  method GroupUp(rows: seq<Row>, groupBy: seq<string>, env: Env) returns (groups: map<string, seq<Row>>)
    ensures groups.Keys == GroupKeys(rows, groupBy, env)
    ensures forall k :: k in groups ==> groups[k] == Members(rows, k, groupBy, env)
  {
    groups := map[];
    for i := 0 to |rows|
      invariant groups.Keys == GroupKeys(rows[..i], groupBy, env)
      invariant forall k :: k in groups ==> groups[k] == Members(rows[..i], k, groupBy, env)
    {
      var key := GroupKey(rows[i], groupBy, env);
      assert rows[..i + 1] == rows[..i] + [rows[i]];
      forall k { MembersAppend(rows[..i], rows[i], k, groupBy, env); }
      if key !in groups { NoMembers(rows[..i], key, groupBy, env); }
      var members := if key in groups then groups[key] else [];
      groups := groups[key := members + [rows[i]]];
      GroupKeysAppend(rows[..i], rows[i], groupBy, env);
    }
    assert rows[..|rows|] == rows;
  }

  lemma GroupKeysAppend(rows: seq<Row>, r: Row, groupBy: seq<string>, env: Env)
    ensures GroupKeys(rows + [r], groupBy, env) == GroupKeys(rows, groupBy, env) + {GroupKey(r, groupBy, env)}
  {
    forall k ensures k in GroupKeys(rows + [r], groupBy, env)
                     <==> k in GroupKeys(rows, groupBy, env) || k == GroupKey(r, groupBy, env) {
      assert r in rows + [r];
      if k in GroupKeys(rows, groupBy, env) {
        var x :| x in rows && GroupKey(x, groupBy, env) == k;
        assert x in rows + [r];
      }
    }
  }

  lemma {:induction false} MembersAppend(rows: seq<Row>, r: Row, key: string, groupBy: seq<string>, env: Env)
    ensures Members(rows + [r], key, groupBy, env)
            == Members(rows, key, groupBy, env) + if GroupKey(r, groupBy, env) == key then [r] else []
  {
    if rows == [] {
      assert rows + [r] == [r] && [r][1..] == [];
    } else {
      assert (rows + [r])[1..] == rows[1..] + [r];
      MembersAppend(rows[1..], r, key, groupBy, env);
    }
  }

  lemma {:induction false} NoMembers(rows: seq<Row>, key: string, groupBy: seq<string>, env: Env)
    requires key !in GroupKeys(rows, groupBy, env)
    ensures Members(rows, key, groupBy, env) == []
  {
    if rows != [] {
      assert rows[0] in rows;
      assert key !in GroupKeys(rows[1..], groupBy, env) by {
        assert forall x :: x in rows[1..] ==> x in rows;
      }
      NoMembers(rows[1..], key, groupBy, env);
    }
  }

  // ----- plans -----

  method PushMatches(joined: seq<Row>, outer: Row, matched: seq<Row>) returns (out: seq<Row>)
    ensures out == joined + CombineAll(outer, matched)
  {
    out := joined;
    for j := 0 to |matched|
      invariant out == joined + CombineAll(outer, matched[..j])
    {
      assert matched[..j + 1] == matched[..j] + [matched[j]];
      out := out + [Combine(outer, matched[j])];
    }
    assert matched[..|matched|] == matched;
  }

  /** The first turn of the join. */
  lemma JoinStep(rows: seq<Row>, matched: Rows, inner: Plan, outerColumn: string, binds: string, env: Env,
                 bindings: Bindings, budget: Option<nat>)
    requires rows != [] && rows[0].Column(outerColumn).Some?
    requires matched == Evaluate(inner, env, bindings[binds := rows[0].Column(outerColumn).value], None)
    ensures EvaluateJoin(rows, inner, outerColumn, binds, env, bindings, budget)
            == if matched.Err? then matched
               else
                 var pairs, left := CombineAll(rows[0], matched.value), Spend(budget, |matched.value|);
                 if left == Some(0) then Ok(pairs)
                 else Then(pairs, EvaluateJoin(rows[1..], inner, outerColumn, binds, env, bindings, left))
  {}

  /** One turn of the join loop, seen from the rows still to come. */
  lemma JoinTurn(rows: seq<Row>, matched: Rows, inner: Plan, outerColumn: string, binds: string, env: Env,
                 bindings: Bindings, budget: Option<nat>, joined: seq<Row>)
    requires rows != [] && rows[0].Column(outerColumn).Some?
    requires matched == Evaluate(inner, env, bindings[binds := rows[0].Column(outerColumn).value], None)
    ensures var all := Then(joined,
            EvaluateJoin(rows, inner, outerColumn, binds, env, bindings, Spend(budget, |joined|)));
            if matched.Err? then all == matched
            else
              var out := joined + CombineAll(rows[0], matched.value);
              if budget.Some? && |out| >= budget.value then all == Ok(out)
              else all == Then(out,
                EvaluateJoin(rows[1..], inner, outerColumn, binds, env, bindings, Spend(budget, |out|)))
  {
    JoinStep(rows, matched, inner, outerColumn, binds, env, bindings, Spend(budget, |joined|));
    if matched.Ok? {
      var pairs := CombineAll(rows[0], matched.value);
      var left := Spend(budget, |joined + pairs|);
      assert Spend(Spend(budget, |joined|), |matched.value|) == left;
      ThenThen(joined, pairs, EvaluateJoin(rows[1..], inner, outerColumn, binds, env, bindings, left));
    }
  }

  method JoinRows(rows: seq<Row>, inner: Plan, outerColumn: string, binds: string, env: Env, bindings: Bindings,
                  budget: Option<nat>) returns (r: Rows)
    ensures r == EvaluateJoin(rows, inner, outerColumn, binds, env, bindings, budget)
    decreases inner, 1
  {
    var joined: seq<Row> := [];
    ghost var all := EvaluateJoin(rows, inner, outerColumn, binds, env, bindings, budget);
    assert rows[0..] == rows;
    ThenNothing(all);
    for i := 0 to |rows|
      invariant all == Then(joined, EvaluateJoin(rows[i..], inner, outerColumn, binds, env, bindings,
                                                 Spend(budget, |joined|)))
    {
      assert rows[i..][0] == rows[i] && rows[i..][1..] == rows[i + 1..];
      var key := rows[i].Column(outerColumn);
      if key.None? {
        continue;
      }
      var matched := Eval(inner, env, bindings[binds := key.value], None);
      JoinTurn(rows[i..], matched, inner, outerColumn, binds, env, bindings, budget, joined);
      if matched.Err? {
        return matched;
      }
      joined := PushMatches(joined, rows[i], matched.value);
      if budget.Some? && |joined| >= budget.value {
        return Ok(joined);
      }
    }
    assert joined + [] == joined;
    return Ok(joined);
  }

  /** `eval`. */
  method Eval(plan: Plan, env: Env, bindings: Bindings, budget: Option<nat>) returns (r: Rows)
    ensures r == Evaluate(plan, env, bindings, budget)
    decreases plan, 0
  {
    match plan
    case Scan(table) => r := Ok(if budget.Some? then Take(env.scan(table), budget.value) else env.scan(table));
    case PointLookup(table, key) =>
      var v := Resolve(key, bindings);
      if v.Err? {
        return Err(v.error);
      }
      r := Ok(LookupRows(table, KeyText(v.value, env), env));
    case IndexScan(table, _, pred) =>
      var keys := IndexCandidates(table, pred, env, bindings);
      var rows := if keys.Some? then Fetch(table, keys.value, env) else env.scan(table);
      r := FilterUpTo(rows, pred, bindings, None);
    case Join(outer, inner, outerColumn, binds) =>
      r := Eval(outer, env, bindings, None);
      if r.Ok? {
        r := JoinRows(r.value, inner, outerColumn, binds, env, bindings, budget);
      }
    case Filter(input, pred) =>
      r := Eval(input, env, bindings, None);
      if r.Ok? {
        r := FilterUpTo(r.value, pred, bindings, budget);
      }
    case Project(input, _) => r := Eval(input, env, bindings, budget);
    case Sort(input, keys) =>
      r := Eval(input, env, bindings, None);
      if r.Ok? {
        r := Ok(SortRows(r.value, keys));
      }
    case Limit(input, count, offset) =>
      r := Eval(input, env, bindings, Some(Tighten(RowsNeeded(offset, count), budget)));
      if r.Ok? {
        r := Ok(Window(r.value, offset, count));
      }
    case GroupBy(input, groupBy, aggregates) =>
      r := Eval(input, env, bindings, None);
      if r.Ok? {
        var out := AggregateAll(r.value, groupBy, aggregates, env);
        r := Ok(out);
      }
  }
}
