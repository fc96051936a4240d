/** What a group's row holds under each name, and what COUNT(column) and AVG mean. */
module GroupedRows {
  import opened Prelude
  import opened Strings
  import opened Values
  import opened Plans
  import opened Exec
  import opened Sorting
  import opened Aggregation

  // ----- the names of a group's row -----

  function Aliases(aggregates: seq<Aggregate>): set<string> {
    set agg | agg in aggregates :: agg.alias
  }

  lemma {:induction false} AggregateNames(fields: map<string, Value>, aggregates: seq<Aggregate>, members: seq<Row>,
                                          env: Env)
    ensures var out := AggregateFields(fields, aggregates, members, env);
            && out.Keys == fields.Keys + Aliases(aggregates)
            && forall name :: name in fields && name !in Aliases(aggregates) ==> out[name] == fields[name]
  {
    if aggregates != [] {
      var before, last := aggregates[..|aggregates| - 1], aggregates[|aggregates| - 1];
      AggregateNames(fields, before, members, env);
      assert Aliases(aggregates) == Aliases(before) + {last.alias} by {
        assert aggregates == before + [last];
      }
    }
  }

  lemma {:induction false} GroupNames(groupBy: seq<string>, members: seq<Row>)
    requires members != []
    ensures var fields := GroupFields(groupBy, members);
            && (forall name :: name in fields <==> name in groupBy)
            && forall name :: name in groupBy ==>
                 fields[name] == if members[0].Column(name).Some? then members[0].Column(name).value else Null
  {
    if groupBy != [] {
      GroupNames(groupBy[..|groupBy| - 1], members);
      assert groupBy == groupBy[..|groupBy| - 1] + [groupBy[|groupBy| - 1]];
    }
  }

  /** The first row of the input that lands in a group. */
  predicate FirstOfGroup(rows: seq<Row>, i: int, key: string, groupBy: seq<string>, env: Env) {
    && 0 <= i < |rows| && GroupKey(rows[i], groupBy, env) == key
    && forall j :: 0 <= j < i ==> GroupKey(rows[j], groupBy, env) != key
  }

  lemma {:induction false} FirstMember(rows: seq<Row>, i: nat, key: string, groupBy: seq<string>, env: Env)
    requires FirstOfGroup(rows, i, key, groupBy, env)
    ensures Members(rows, key, groupBy, env) != [] && Members(rows, key, groupBy, env)[0] == rows[i]
  {
    if i > 0 {
      forall j | 0 <= j < i - 1 ensures GroupKey(rows[1..][j], groupBy, env) != key {
        assert rows[1..][j] == rows[j + 1];
      }
      FirstMember(rows[1..], i - 1, key, groupBy, env);
    }
  }

  /** A group's row has the grouping columns, with the values of the first row that arrived in it and
      Null for a missing one, and the aliases, and nothing else; an alias wins over a column of its name. */
  lemma GroupRowExactly(rows: seq<Row>, i: nat, key: string, groupBy: seq<string>, aggregates: seq<Aggregate>, env: Env)
    requires FirstOfGroup(rows, i, key, groupBy, env)
    ensures var row := GroupRow(key, rows, groupBy, aggregates, env);
            && row.primaryKey == key && row.value.Map?
            && row.value.fields.Keys == (set name | name in groupBy) + Aliases(aggregates)
            && (forall name :: name in groupBy && name !in Aliases(aggregates) ==>
                  row.value.fields[name] == if rows[i].Column(name).Some? then rows[i].Column(name).value else Null)
            && (forall alias, agg :: Names(aggregates, alias, agg) ==>
                  alias in row.value.fields
                  && row.value.fields[alias] == ApplyAggregate(agg, Members(rows, key, groupBy, env), env))
  {
    var members := Members(rows, key, groupBy, env);
    FirstMember(rows, i, key, groupBy, env);
    GroupNames(groupBy, members);
    AggregateNames(GroupFields(groupBy, members), aggregates, members, env);
    forall alias, agg | Names(aggregates, alias, agg)
      ensures alias in AggregateFields(GroupFields(groupBy, members), aggregates, members, env)
      ensures AggregateFields(GroupFields(groupBy, members), aggregates, members, env)[alias]
              == ApplyAggregate(agg, members, env)
    {
      NamedField(GroupFields(groupBy, members), aggregates, alias, agg, members, env);
    }
  }

  /** Without grouping columns there is one row, whatever the input, with the aliases and nothing else. */
  lemma GlobalRowExactly(rows: seq<Row>, aggregates: seq<Aggregate>, env: Env)
    ensures var out := AggregateRows(rows, [], aggregates, env);
            && |out| == 1 && out[0].primaryKey == "" && out[0].value.Map?
            && out[0].value.fields.Keys == Aliases(aggregates)
            && forall alias, agg :: Names(aggregates, alias, agg) ==>
                 alias in out[0].value.fields && out[0].value.fields[alias] == ApplyAggregate(agg, rows, env)
  {
    AggregateNames(map[], aggregates, rows, env);
    forall alias, agg | Names(aggregates, alias, agg)
      ensures alias in AggregateFields(map[], aggregates, rows, env)
      ensures AggregateFields(map[], aggregates, rows, env)[alias] == ApplyAggregate(agg, rows, env)
    {
      NamedField(map[], aggregates, alias, agg, rows, env);
    }
  }

  // ----- COUNT(column) and AVG -----

  /** The row has a value under the column that is not null. */
  predicate HasValue(row: Row, column: string) {
    row.Column(column).Some? && !row.Column(column).value.Null?
  }

  /** The positions of the rows that have a value. */
  function Positions(rows: seq<Row>, column: string): set<nat> {
    set i: nat | i < |rows| && HasValue(rows[i], column)
  }

  lemma {:induction false} PresentAreCounted(rows: seq<Row>, column: string)
    ensures |PresentValues(rows, column)| == |Positions(rows, column)| <= |rows|
  {
    if rows != [] {
      var before, last := rows[..|rows| - 1], rows[|rows| - 1];
      PresentAreCounted(before, column);
      PresentAppend(before, [last], column);
      assert rows == before + [last] && [last][1..] == [];
      assert Positions(rows, column)
        == Positions(before, column) + if HasValue(last, column) then {|rows| - 1} else {};
    }
  }

  /** COUNT(column) is how many rows have a value there that is not null, and COUNT(*) how many there are. */
  lemma CountExactly(rows: seq<Row>, column: string, alias: string, env: Env)
    requires |rows| <= I64_MAX
    ensures var counted := ApplyAggregate(Aggregate(Count, Some(column), alias), rows, env);
            counted.Int? && counted.i == |Positions(rows, column)|
    ensures ApplyAggregate(Aggregate(Count, None, alias), rows, env) == Int(|rows|)
  {
    PresentAreCounted(rows, column);
  }

  /** SUM is a float exactly when a row has one there, and otherwise the sum of the integers there
      while no running total saturates. */
  lemma SumExactly(rows: seq<Row>, column: string, alias: string, env: Env)
    ensures var sum := ApplyAggregate(Aggregate(Sum, Some(column), alias), rows, env);
            && (sum.Float? || sum.Int?)
            && (sum.Float? <==> exists r :: r in rows && r.Column(column).Some? && r.Column(column).value.Float?)
            && (sum.Int? && NeverSaturates(PresentValues(rows, column)) ==> sum.i == ColumnSum(rows, column))
  {
    PresentExactly(rows, column);
    if NeverSaturates(PresentValues(rows, column)) {
      SumIsPlain(PresentValues(rows, column));
    }
    if v :| v in PresentValues(rows, column) && v.Float? {
      var r :| r in rows && r.Column(column) == Some(v);
    }
    if r :| r in rows && r.Column(column).Some? && r.Column(column).value.Float? {
      assert r.Column(column).value in PresentValues(rows, column);
    }
  }

  lemma {:induction false} PresentExactly(rows: seq<Row>, column: string)
    ensures forall v :: v in PresentValues(rows, column)
                        <==> !v.Null? && exists r :: r in rows && r.Column(column) == Some(v)
  {
    if rows != [] {
      PresentExactly(rows[1..], column);
      assert forall r :: r in rows <==> r == rows[0] || r in rows[1..];
    }
  }

  /** AVG is SUM over COUNT of the column, and Null where no row has a value. */
  lemma AverageIsSumOverCount(rows: seq<Row>, column: string, alias: string, env: Env)
    ensures var sum := ApplyAggregate(Aggregate(Sum, Some(column), alias), rows, env);
            ApplyAggregate(Aggregate(Average, Some(column), alias), rows, env)
            == if forall r :: r in rows ==> !HasValue(r, column) then Null
               else Float(env.divide(sum, |Positions(rows, column)|))
  {
    PresentAreCounted(rows, column);
    if forall r :: r in rows ==> !HasValue(r, column) {
      assert Positions(rows, column) == {};
    } else {
      var r :| r in rows && HasValue(r, column);
      PresentAt(rows, r, column);
    }
  }

  lemma {:induction false} CountColumnTotals(keys: seq<string>, rows: seq<Row>, groupBy: seq<string>,
                                             aggregates: seq<Aggregate>, alias: string, column: string, env: Env)
    requires Names(aggregates, alias, Aggregate(Count, Some(column), alias)) && |rows| <= I64_MAX
    ensures PlainSum(Outputs(GroupRows(keys, rows, groupBy, aggregates, env), alias))
            == |PresentValues(AllMembers(keys, rows, groupBy, env), column)|
  {
    if keys != [] {
      var members := Members(rows, keys[0], groupBy, env);
      CountColumnTotals(keys[1..], rows, groupBy, aggregates, alias, column, env);
      assert keys == [keys[0]] + keys[1..];
      FirstOutput(keys[0], keys[1..], rows, groupBy, aggregates, alias, Aggregate(Count, Some(column), alias), env);
      FewerMembers(rows, keys[0], groupBy, env);
      PresentAreCounted(members, column);
      PresentAppend(members, AllMembers(keys[1..], rows, groupBy, env), column);
    }
  }

  lemma {:induction false} PresentCountIgnoresOrder(a: seq<Row>, b: seq<Row>, column: string)
    requires multiset(a) == multiset(b)
    ensures |PresentValues(a, column)| == |PresentValues(b, column)|
  {
    SameRows(a, b);
    if a != [] {
      assert a[0] in a;
      var j :| 0 <= j < |b| && b[j] == a[0];
      var left, right := b[..j], b[j + 1..];
      assert b == left + ([a[0]] + right) && a == [a[0]] + a[1..];
      RemoveOne(a, b, j);
      PresentAppend(left, [a[0]] + right, column);
      PresentAppend([a[0]], right, column);
      PresentAppend(left, right, column);
      PresentAppend([a[0]], a[1..], column);
      PresentCountIgnoresOrder(a[1..], left + right, column);
    }
  }

  /** The groups' COUNT(column) values add up to the number of rows with a value there. */
  lemma GroupColumnCountsAddUp(rows: seq<Row>, groupBy: seq<string>, aggregates: seq<Aggregate>, column: string,
                               alias: string, env: Env)
    requires groupBy != [] && |rows| <= I64_MAX
    requires Names(aggregates, alias, Aggregate(Count, Some(column), alias))
    ensures PlainSum(Outputs(AggregateRows(rows, groupBy, aggregates, env), alias)) == |Positions(rows, column)|
  {
    var keys := SortedKeys(GroupKeys(rows, groupBy, env));
    SortedKeysAscend(GroupKeys(rows, groupBy, env));
    GroupsHoldEveryRow(keys, rows, groupBy, env);
    PresentCountIgnoresOrder(AllMembers(keys, rows, groupBy, env), rows, column);
    PresentAreCounted(rows, column);
    CountColumnTotals(keys, rows, groupBy, aggregates, alias, column, env);
  }
}
