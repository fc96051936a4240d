/** What grouping conserves: every row, the count, the integer sum and the extremes. */
module Aggregation {
  import opened Prelude
  import opened Strings
  import opened Floats
  import opened Values
  import opened IndexKeys
  import opened Plans
  import opened Joining
  import opened Exec
  import opened Sorting

  // ----- rows -----

  /** The members of the given groups, one group after another. */
  function AllMembers(keys: seq<string>, rows: seq<Row>, groupBy: seq<string>, env: Env): seq<Row> {
    if keys == [] then []
    else Members(rows, keys[0], groupBy, env) + AllMembers(keys[1..], rows, groupBy, env)
  }

  lemma {:induction false} MembersShareKey(rows: seq<Row>, key: string, groupBy: seq<string>, env: Env)
    ensures forall r :: r in Members(rows, key, groupBy, env) <==> r in rows && GroupKey(r, groupBy, env) == key
  {
    if rows != [] {
      MembersShareKey(rows[1..], key, groupBy, env);
      assert forall r :: r in rows <==> r == rows[0] || r in rows[1..];
    }
  }

  lemma {:induction false} ForeignRowAddsNothing(keys: seq<string>, rows: seq<Row>, groupBy: seq<string>, env: Env)
    requires rows != [] && GroupKey(rows[0], groupBy, env) !in keys
    ensures AllMembers(keys, rows, groupBy, env) == AllMembers(keys, rows[1..], groupBy, env)
  {
    if keys != [] {
      ForeignRowAddsNothing(keys[1..], rows, groupBy, env);
    }
  }

  lemma {:induction false} OwnRowAddsItself(keys: seq<string>, rows: seq<Row>, groupBy: seq<string>, env: Env)
    requires rows != [] && GroupKey(rows[0], groupBy, env) in keys && Ascending(keys)
    ensures multiset(AllMembers(keys, rows, groupBy, env))
            == multiset{rows[0]} + multiset(AllMembers(keys, rows[1..], groupBy, env))
  {
    var key := GroupKey(rows[0], groupBy, env);
    TailMembers(keys, key);
    if keys[0] == key {
      ForeignRowAddsNothing(keys[1..], rows, groupBy, env);
      var rest := AllMembers(keys[1..], rows[1..], groupBy, env);
      assert [rows[0]] + Members(rows[1..], key, groupBy, env) + rest
        == [rows[0]] + (Members(rows[1..], key, groupBy, env) + rest);
    } else {
      OwnRowAddsItself(keys[1..], rows, groupBy, env);
    }
  }

  lemma {:induction false} NoRowsNoMembers(keys: seq<string>, groupBy: seq<string>, env: Env)
    ensures AllMembers(keys, [], groupBy, env) == []
  {
    if keys != [] {
      NoRowsNoMembers(keys[1..], groupBy, env);
    }
  }

  lemma {:induction false} GroupsHoldEveryRow(keys: seq<string>, rows: seq<Row>, groupBy: seq<string>, env: Env)
    requires Ascending(keys) && forall r :: r in rows ==> GroupKey(r, groupBy, env) in keys
    ensures multiset(AllMembers(keys, rows, groupBy, env)) == multiset(rows)
  {
    if rows == [] {
      NoRowsNoMembers(keys, groupBy, env);
    } else {
      OwnRowAddsItself(keys, rows, groupBy, env);
      GroupsHoldEveryRow(keys, rows[1..], groupBy, env);
      assert rows == [rows[0]] + rows[1..];
    }
  }

  /** Grouping puts every row in exactly one group: the groups' members are the rows, with
      their multiplicity, and the groups come out in strictly ascending key order. */
  lemma GroupingPartitionsRows(rows: seq<Row>, groupBy: seq<string>, aggregates: seq<Aggregate>, env: Env)
    requires groupBy != []
    ensures var keys := SortedKeys(GroupKeys(rows, groupBy, env));
            var out := AggregateRows(rows, groupBy, aggregates, env);
            && |out| == |keys| && Ascending(keys)
            && (forall i :: 0 <= i < |keys| ==> out[i].primaryKey == keys[i])
            && (forall i :: 0 <= i < |keys| ==> Members(rows, keys[i], groupBy, env) != [])
            && multiset(AllMembers(keys, rows, groupBy, env)) == multiset(rows)
  {
    var keys := SortedKeys(GroupKeys(rows, groupBy, env));
    SortedKeysAscend(GroupKeys(rows, groupBy, env));
    GroupsHoldEveryRow(keys, rows, groupBy, env);
    forall i | 0 <= i < |keys|
      ensures AggregateRows(rows, groupBy, aggregates, env)[i].primaryKey == keys[i]
      ensures Members(rows, keys[i], groupBy, env) != []
    {
      GroupRowAt(keys, rows, groupBy, aggregates, env, i);
      assert keys[i] in keys;
      var r :| r in rows && GroupKey(r, groupBy, env) == keys[i];
      MembersShareKey(rows, keys[i], groupBy, env);
      assert r in Members(rows, keys[i], groupBy, env);
    }
  }

  lemma {:induction false} GroupRowAt(keys: seq<string>, rows: seq<Row>, groupBy: seq<string>,
                                      aggregates: seq<Aggregate>, env: Env, i: nat)
    requires i < |keys|
    ensures GroupRows(keys, rows, groupBy, aggregates, env)[i] == GroupRow(keys[i], rows, groupBy, aggregates, env)
  {
    if i > 0 {
      GroupRowAt(keys[1..], rows, groupBy, aggregates, env, i - 1);
    }
  }

  // ----- COUNT(*) and SUM -----

  /** The value one aggregate leaves in each row, in output order. */
  function Outputs(out: seq<Row>, alias: string): seq<Value> {
    seq(|out|, i requires 0 <= i < |out| =>
      if out[i].value.Map? && alias in out[i].value.fields then out[i].value.fields[alias] else Null)
  }

  /** The sum of the integers among some values, without bounds. */
  function PlainSum(values: seq<Value>): int {
    if values == [] then 0 else (if values[0].Int? then values[0].i else 0) + PlainSum(values[1..])
  }

  lemma {:induction false} PlainSumAppend(a: seq<Value>, b: seq<Value>)
    ensures PlainSum(a + b) == PlainSum(a) + PlainSum(b)
  {
    if a == [] {
      assert a + b == b;
    } else {
      assert (a + b)[1..] == a[1..] + b;
      PlainSumAppend(a[1..], b);
    }
  }

  /** No running total leaves the i64 range. */
  predicate NeverSaturates(values: seq<Value>) {
    forall n :: 0 <= n <= |values| ==> I64_MIN <= PlainSum(values[..n]) <= I64_MAX
  }

  lemma {:induction false} SumIsPlain(values: seq<Value>)
    requires NeverSaturates(values)
    ensures SumInts(values) == PlainSum(values)
  {
    if values != [] {
      var before, last := values[..|values| - 1], values[|values| - 1];
      assert values == before + [last];
      PlainSumAppend(before, [last]);
      assert [last][1..] == [] && PlainSum([last]) == if last.Int? then last.i else 0;
      assert forall n :: 0 <= n <= |before| ==> before[..n] == values[..n];
      SumIsPlain(before);
      assert values[..|values|] == values;
    }
  }

  lemma {:induction false} PresentAppend(a: seq<Row>, b: seq<Row>, column: string)
    ensures PresentValues(a + b, column) == PresentValues(a, column) + PresentValues(b, column)
  {
    if a == [] {
      assert a + b == b;
    } else {
      assert (a + b)[1..] == a[1..] + b;
      PresentAppend(a[1..], b, column);
    }
  }

  /** The sum of a column over some rows, without bounds. */
  function ColumnSum(rows: seq<Row>, column: string): int {
    PlainSum(PresentValues(rows, column))
  }

  lemma ColumnSumAppend(a: seq<Row>, b: seq<Row>, column: string)
    ensures ColumnSum(a + b, column) == ColumnSum(a, column) + ColumnSum(b, column)
  {
    PresentAppend(a, b, column);
    PlainSumAppend(PresentValues(a, column), PresentValues(b, column));
  }

  /** A column sums the same in any order of the rows. */
  lemma {:induction false} ColumnSumIgnoresOrder(a: seq<Row>, b: seq<Row>, column: string)
    requires multiset(a) == multiset(b)
    ensures ColumnSum(a, column) == ColumnSum(b, column)
  {
    SameRows(a, b);
    if a != [] {
      assert a[0] in a;
      var j :| 0 <= j < |b| && b[j] == a[0];
      var left, right := b[..j], b[j + 1..];
      assert b == left + ([a[0]] + right) && a == [a[0]] + a[1..];
      RemoveOne(a, b, j);
      ColumnSumAppend(left, [a[0]] + right, column);
      ColumnSumAppend([a[0]], right, column);
      ColumnSumAppend(left, right, column);
      ColumnSumAppend([a[0]], a[1..], column);
      ColumnSumIgnoresOrder(a[1..], left + right, column);
    }
  }

  lemma RemoveOne(a: seq<Row>, b: seq<Row>, j: nat)
    requires a != [] && j < |b| && b[j] == a[0] && multiset(a) == multiset(b)
    ensures multiset(a[1..]) == multiset(b[..j] + b[j + 1..])
  {
    assert a == [a[0]] + a[1..] && b == b[..j] + [b[j]] + b[j + 1..];
    assert multiset(a) == multiset{a[0]} + multiset(a[1..]);
    assert multiset(b) == multiset(b[..j]) + multiset{b[j]} + multiset(b[j + 1..]);
    assert multiset(b[..j] + b[j + 1..]) == multiset(b[..j]) + multiset(b[j + 1..]);
    assert multiset(a[1..]) == multiset(a) - multiset{a[0]};
  }

  /** The aggregate a query's output holds under an alias: the last one that is given it. */
  predicate Names(aggregates: seq<Aggregate>, alias: string, agg: Aggregate) {
    aggregates != []
    && var last := aggregates[|aggregates| - 1];
       if last.alias == alias then last == agg else Names(aggregates[..|aggregates| - 1], alias, agg)
  }

  lemma {:induction false} NamedField(fields: map<string, Value>, aggregates: seq<Aggregate>, alias: string,
                                      agg: Aggregate, members: seq<Row>, env: Env)
    requires Names(aggregates, alias, agg)
    ensures alias in AggregateFields(fields, aggregates, members, env)
    ensures AggregateFields(fields, aggregates, members, env)[alias] == ApplyAggregate(agg, members, env)
  {
    if aggregates[|aggregates| - 1].alias != alias {
      NamedField(fields, aggregates[..|aggregates| - 1], alias, agg, members, env);
    }
  }

  /** What a group's row holds under the alias of one of its aggregates, whatever the others are. */
  lemma NamedAggregate(key: string, rows: seq<Row>, groupBy: seq<string>, aggregates: seq<Aggregate>, alias: string,
                       agg: Aggregate, env: Env)
    requires Names(aggregates, alias, agg)
    ensures var row := GroupRow(key, rows, groupBy, aggregates, env);
            && row.value.Map? && alias in row.value.fields
            && row.value.fields[alias] == ApplyAggregate(agg, Members(rows, key, groupBy, env), env)
  {
    var members := Members(rows, key, groupBy, env);
    NamedField(GroupFields(groupBy, members), aggregates, alias, agg, members, env);
  }

  lemma FirstOutput(key: string, keys: seq<string>, rows: seq<Row>, groupBy: seq<string>, aggregates: seq<Aggregate>,
                    alias: string, agg: Aggregate, env: Env)
    requires Names(aggregates, alias, agg)
    ensures var value := ApplyAggregate(agg, Members(rows, key, groupBy, env), env);
            PlainSum(Outputs(GroupRows([key] + keys, rows, groupBy, aggregates, env), alias))
            == (if value.Int? then value.i else 0)
               + PlainSum(Outputs(GroupRows(keys, rows, groupBy, aggregates, env), alias))
  {
    var out := GroupRows([key] + keys, rows, groupBy, aggregates, env);
    var rest := GroupRows(keys, rows, groupBy, aggregates, env);
    NamedAggregate(key, rows, groupBy, aggregates, alias, agg, env);
    assert ([key] + keys)[1..] == keys;
    assert out == [GroupRow(key, rows, groupBy, aggregates, env)] + rest;
    assert Outputs(out, alias)[1..] == Outputs(rest, alias);
  }

  lemma {:induction false} CountTotals(keys: seq<string>, rows: seq<Row>, groupBy: seq<string>,
                                       aggregates: seq<Aggregate>, alias: string, agg: Aggregate, env: Env)
    requires Names(aggregates, alias, agg) && agg.func.Count? && agg.column.None? && |rows| <= I64_MAX
    ensures PlainSum(Outputs(GroupRows(keys, rows, groupBy, aggregates, env), alias))
            == |AllMembers(keys, rows, groupBy, env)|
  {
    if keys != [] {
      CountTotals(keys[1..], rows, groupBy, aggregates, alias, agg, env);
      assert keys == [keys[0]] + keys[1..];
      FirstOutput(keys[0], keys[1..], rows, groupBy, aggregates, alias, agg, env);
      FewerMembers(rows, keys[0], groupBy, env);
    }
  }

  lemma GroupSum(rows: seq<Row>, key: string, groupBy: seq<string>, agg: Aggregate, env: Env)
    requires agg.func.Sum? && agg.column.Some?
    requires var values := PresentValues(Members(rows, key, groupBy, env), agg.column.value);
             NeverSaturates(values) && forall v :: v in values ==> !v.Float?
    ensures var value := ApplyAggregate(agg, Members(rows, key, groupBy, env), env);
            value.Int? && value.i == ColumnSum(Members(rows, key, groupBy, env), agg.column.value)
  {
    SumIsPlain(PresentValues(Members(rows, key, groupBy, env), agg.column.value));
  }

  lemma {:induction false} SumTotals(keys: seq<string>, rows: seq<Row>, groupBy: seq<string>,
                                     aggregates: seq<Aggregate>, alias: string, agg: Aggregate, env: Env)
    requires Names(aggregates, alias, agg) && agg.func.Sum? && agg.column.Some?
    requires forall k :: k in keys ==>
               var values := PresentValues(Members(rows, k, groupBy, env), agg.column.value);
               NeverSaturates(values) && forall v :: v in values ==> !v.Float?
    ensures PlainSum(Outputs(GroupRows(keys, rows, groupBy, aggregates, env), alias))
            == ColumnSum(AllMembers(keys, rows, groupBy, env), agg.column.value)
  {
    if keys != [] {
      var members := Members(rows, keys[0], groupBy, env);
      SumTotals(keys[1..], rows, groupBy, aggregates, alias, agg, env);
      assert keys == [keys[0]] + keys[1..];
      FirstOutput(keys[0], keys[1..], rows, groupBy, aggregates, alias, agg, env);
      GroupSum(rows, keys[0], groupBy, agg, env);
      ColumnSumAppend(members, AllMembers(keys[1..], rows, groupBy, env), agg.column.value);
    }
  }

  lemma {:induction false} FewerMembers(rows: seq<Row>, key: string, groupBy: seq<string>, env: Env)
    ensures |Members(rows, key, groupBy, env)| <= |rows|
  {
    if rows != [] {
      FewerMembers(rows[1..], key, groupBy, env);
    }
  }

  /** The groups' COUNT(*) values add up to the number of rows, whatever else is aggregated. */
  lemma GroupCountsAddUp(rows: seq<Row>, groupBy: seq<string>, aggregates: seq<Aggregate>, alias: string, env: Env)
    requires groupBy != [] && |rows| <= I64_MAX
    requires Names(aggregates, alias, Aggregate(Count, None, alias))
    ensures PlainSum(Outputs(AggregateRows(rows, groupBy, aggregates, env), alias)) == |rows|
  {
    var keys := SortedKeys(GroupKeys(rows, groupBy, env));
    SortedKeysAscend(GroupKeys(rows, groupBy, env));
    GroupsHoldEveryRow(keys, rows, groupBy, env);
    SameRows(AllMembers(keys, rows, groupBy, env), rows);
    CountTotals(keys, rows, groupBy, aggregates, alias, Aggregate(Count, None, alias), env);
  }

  /** The groups' integer SUMs add up to the SUM over all rows, when no running total saturates,
      whatever else is aggregated. */
  lemma GroupSumsAddUp(rows: seq<Row>, groupBy: seq<string>, aggregates: seq<Aggregate>, column: string, alias: string,
                       env: Env)
    requires groupBy != [] && Names(aggregates, alias, Aggregate(Sum, Some(column), alias))
    requires NeverSaturates(PresentValues(rows, column))
    requires forall v :: v in PresentValues(rows, column) ==> !v.Float?
    requires forall k :: k in GroupKeys(rows, groupBy, env) ==>
               NeverSaturates(PresentValues(Members(rows, k, groupBy, env), column))
    ensures Int(SumInts(PresentValues(rows, column))) == ApplyAggregate(Aggregate(Sum, Some(column), alias), rows, env)
    ensures PlainSum(Outputs(AggregateRows(rows, groupBy, aggregates, env), alias))
            == SumInts(PresentValues(rows, column))
  {
    var keys := SortedKeys(GroupKeys(rows, groupBy, env));
    SortedKeysAscend(GroupKeys(rows, groupBy, env));
    GroupsHoldEveryRow(keys, rows, groupBy, env);
    forall k | k in keys
      ensures var values := PresentValues(Members(rows, k, groupBy, env), column);
              NeverSaturates(values) && forall v :: v in values ==> !v.Float?
    {
      MembersPresent(rows, k, groupBy, column, env);
    }
    SumTotals(keys, rows, groupBy, aggregates, alias, Aggregate(Sum, Some(column), alias), env);
    ColumnSumIgnoresOrder(AllMembers(keys, rows, groupBy, env), rows, column);
    SumIsPlain(PresentValues(rows, column));
  }

  lemma {:induction false} MembersPresent(rows: seq<Row>, key: string, groupBy: seq<string>, column: string, env: Env)
    ensures forall v :: v in PresentValues(Members(rows, key, groupBy, env), column) ==>
            v in PresentValues(rows, column)
  {
    if rows != [] {
      MembersPresent(rows[1..], key, groupBy, column, env);
      var rest := Members(rows[1..], key, groupBy, env);
      PresentAppend(if GroupKey(rows[0], groupBy, env) == key then [rows[0]] else [], rest, column);
      PresentAppend([rows[0]], rows[1..], column);
      assert [rows[0]] + rows[1..] == rows;
    }
  }

  // ----- MIN and MAX -----

  /** Nothing beats the extreme, on values of one orderable kind. */
  predicate Unbeaten(best: Value, values: seq<Value>, want: Order) {
    best in values && forall v :: v in values ==> CompareValues(v, best) != Some(want)
  }

  predicate OfKind(values: seq<Value>, kind: Kind) {
    forall v :: v in values ==> KindOf(v) == kind
  }

  lemma SameKindCompares(a: Value, b: Value, kind: Kind)
    requires Ordered(kind) && KindOf(a) == kind && KindOf(b) == kind
    ensures CompareValues(a, b).Some?
  {}

  lemma {:induction false} ExtremeIsUnbeaten(values: seq<Value>, want: Order, kind: Kind)
    requires values != [] && want != Equal && Ordered(kind) && OfKind(values, kind)
    ensures Unbeaten(ExtremeOf(values, want), values, want)
  {
    var before, last := values[..|values| - 1], values[|values| - 1];
    assert values == before + [last];
    assert forall v :: v in values <==> v in before || v == last;
    if before == [] {
      SameKindCompares(last, last, kind);
      CompareValuesReverse(last, last);
    } else {
      ExtremeIsUnbeaten(before, want, kind);
      var best, out := ExtremeOf(before, want), ExtremeOf(values, want);
      forall v | v in values ensures CompareValues(v, out) != Some(want) {
        ExtremeChain(v, best, last, want, kind);
      }
    }
  }

  /** A value that does not beat the old best does not beat the new one either. */
  lemma ExtremeChain(v: Value, best: Value, last: Value, want: Order, kind: Kind)
    requires want != Equal && Ordered(kind) && KindOf(v) == kind && KindOf(best) == kind && KindOf(last) == kind
    requires v == last || CompareValues(v, best) != Some(want)
    ensures var out := if CompareValues(last, best) == Some(want) then last else best;
            CompareValues(v, out) != Some(want)
  {
    SameKindCompares(v, best, kind);
    SameKindCompares(last, best, kind);
    SameKindCompares(v, last, kind);
    CompareValuesReverse(v, v);
    CompareValuesReverse(v, best);
    CompareValuesReverse(last, best);
    CompareValuesReverse(v, last);
    assert OneKind({kind});
    OneKindPreorders({kind}, Some(v), Some(last), Some(best));
    OneKindPreorders({kind}, Some(best), Some(last), Some(v));
  }

  /** Two unbeaten values of overlapping collections compare equal. */
  lemma UnbeatenAgree(a: Value, b: Value, want: Order, kind: Kind)
    requires want != Equal && Ordered(kind) && KindOf(a) == kind && KindOf(b) == kind
    requires CompareValues(a, b) != Some(want) && CompareValues(b, a) != Some(want)
    ensures CompareValues(a, b) == Some(Equal)
  {
    SameKindCompares(a, b, kind);
    CompareValuesReverse(a, b);
  }

  /** The groups' extremes, skipping groups where the column is absent throughout. */
  function GroupExtremes(keys: seq<string>, rows: seq<Row>, groupBy: seq<string>, column: string, want: Order, env: Env)
    : seq<Value>
  {
    if keys == [] then []
    else
      var values := PresentValues(Members(rows, keys[0], groupBy, env), column);
      (if values == [] then [] else [ExtremeOf(values, want)])
      + GroupExtremes(keys[1..], rows, groupBy, column, want, env)
  }

  lemma {:induction false} GroupExtremesDominate(keys: seq<string>, rows: seq<Row>, groupBy: seq<string>,
                                                 column: string, want: Order, kind: Kind, env: Env, v: Value)
    requires want != Equal && Ordered(kind) && OfKind(PresentValues(rows, column), kind)
    requires v in PresentValues(AllMembers(keys, rows, groupBy, env), column)
    ensures exists e :: e in GroupExtremes(keys, rows, groupBy, column, want, env) && CompareValues(v, e) != Some(want)
  {
    var members, rest := Members(rows, keys[0], groupBy, env), AllMembers(keys[1..], rows, groupBy, env);
    PresentAppend(members, rest, column);
    var values := PresentValues(members, column);
    if v in values {
      MembersPresent(rows, keys[0], groupBy, column, env);
      ExtremeIsUnbeaten(values, want, kind);
      assert ExtremeOf(values, want) in GroupExtremes(keys, rows, groupBy, column, want, env);
    } else {
      GroupExtremesDominate(keys[1..], rows, groupBy, column, want, kind, env, v);
      var e :| e in GroupExtremes(keys[1..], rows, groupBy, column, want, env) && CompareValues(v, e) != Some(want);
      assert e in GroupExtremes(keys, rows, groupBy, column, want, env);
    }
  }

  lemma {:induction false} GroupExtremesArePresent(keys: seq<string>, rows: seq<Row>, groupBy: seq<string>,
                                                   column: string, want: Order, kind: Kind, env: Env)
    requires want != Equal && Ordered(kind) && OfKind(PresentValues(rows, column), kind)
    ensures forall e :: e in GroupExtremes(keys, rows, groupBy, column, want, env) ==> e in PresentValues(rows, column)
  {
    if keys != [] {
      GroupExtremesArePresent(keys[1..], rows, groupBy, column, want, kind, env);
      var values := PresentValues(Members(rows, keys[0], groupBy, env), column);
      MembersPresent(rows, keys[0], groupBy, column, env);
      if values != [] {
        ExtremeIsUnbeaten(values, want, kind);
      }
    }
  }

  lemma {:induction false} PresentIgnoresOrder(a: seq<Row>, b: seq<Row>, column: string, v: Value)
    requires forall r :: r in a ==> r in b
    ensures v in PresentValues(a, column) ==> v in PresentValues(b, column)
  {
    if a != [] && v in PresentValues(a, column) {
      if a[0].Column(column) == Some(v) && !v.Null? {
        PresentAt(b, a[0], column);
      } else {
        PresentIgnoresOrder(a[1..], b, column, v);
      }
    }
  }

  lemma {:induction false} PresentAt(rows: seq<Row>, r: Row, column: string)
    requires r in rows && r.Column(column).Some? && !r.Column(column).value.Null?
    ensures r.Column(column).value in PresentValues(rows, column)
  {
    if rows[0] != r {
      PresentAt(rows[1..], r, column);
    }
  }

  lemma ExtremesAgree(rows: seq<Row>, groupBy: seq<string>, column: string, want: Order, kind: Kind, env: Env)
    requires want != Equal && Ordered(kind) && OfKind(PresentValues(rows, column), kind)
    requires PresentValues(rows, column) != []
    ensures var groups := GroupExtremes(SortedKeys(GroupKeys(rows, groupBy, env)), rows, groupBy, column, want, env);
            && groups != []
            && CompareValues(ExtremeOf(groups, want), ExtremeOf(PresentValues(rows, column), want)) == Some(Equal)
  {
    var keys, values := SortedKeys(GroupKeys(rows, groupBy, env)), PresentValues(rows, column);
    var groups := GroupExtremes(keys, rows, groupBy, column, want, env);
    SortedKeysAscend(GroupKeys(rows, groupBy, env));
    GroupsHoldEveryRow(keys, rows, groupBy, env);
    SameRows(AllMembers(keys, rows, groupBy, env), rows);
    ExtremeIsUnbeaten(values, want, kind);
    var best := ExtremeOf(values, want);
    PresentIgnoresOrder(rows, AllMembers(keys, rows, groupBy, env), column, best);
    GroupExtremesDominate(keys, rows, groupBy, column, want, kind, env, best);
    GroupExtremesArePresent(keys, rows, groupBy, column, want, kind, env);
    var e :| e in groups && CompareValues(best, e) != Some(want);
    ExtremeIsUnbeaten(groups, want, kind);
    var top := ExtremeOf(groups, want);
    if CompareValues(best, top) == Some(want) {
      BeatsTransitively(best, top, e, want, kind);
    }
    UnbeatenAgree(top, best, want, kind);
  }

  function Wanted(func: AggFunc): Order
    requires func.Minimum? || func.Maximum?
  {
    if func.Minimum? then Less else Greater
  }

  lemma {:induction false} ExtremeIsMember(values: seq<Value>, want: Order)
    requires values != []
    ensures ExtremeOf(values, want) in values
  {
    if |values| > 1 {
      ExtremeIsMember(values[..|values| - 1], want);
    }
  }

  lemma {:induction false} PresentIsNotNull(rows: seq<Row>, column: string)
    ensures Null !in PresentValues(rows, column)
  {
    if rows != [] {
      PresentIsNotNull(rows[1..], column);
    }
  }

  /** The output column of a MIN or MAX holds the groups' extremes, and Null for a group in which
      the column is absent throughout. */
  lemma {:induction false} ExtremeOutputs(keys: seq<string>, rows: seq<Row>, groupBy: seq<string>,
                                          aggregates: seq<Aggregate>, agg: Aggregate, env: Env)
    requires (agg.func.Minimum? || agg.func.Maximum?) && agg.column.Some? && agg.alias != KEY_COLUMN
    requires Names(aggregates, agg.alias, agg)
    ensures PresentValues(GroupRows(keys, rows, groupBy, aggregates, env), agg.alias)
            == GroupExtremes(keys, rows, groupBy, agg.column.value, Wanted(agg.func), env)
  {
    if keys != [] {
      var values := PresentValues(Members(rows, keys[0], groupBy, env), agg.column.value);
      NamedAggregate(keys[0], rows, groupBy, aggregates, agg.alias, agg, env);
      ExtremeOutputs(keys[1..], rows, groupBy, aggregates, agg, env);
      if values != [] {
        ExtremeIsMember(values, Wanted(agg.func));
        PresentIsNotNull(Members(rows, keys[0], groupBy, env), agg.column.value);
      }
      var row := GroupRow(keys[0], rows, groupBy, aggregates, env);
      assert row.Column(agg.alias) == Some(ExtremeOf(values, Wanted(agg.func)));
      assert GroupRows(keys, rows, groupBy, aggregates, env)[1..]
             == GroupRows(keys[1..], rows, groupBy, aggregates, env);
    }
  }

  /** The MIN over the output column of the groups' MINs compares equal to the MIN over all rows,
      and likewise MAX, on a column of one orderable kind, whatever else is aggregated. */
  lemma GroupExtremesAgree(rows: seq<Row>, groupBy: seq<string>, aggregates: seq<Aggregate>, agg: Aggregate,
                           kind: Kind, env: Env)
    requires groupBy != [] && (agg.func.Minimum? || agg.func.Maximum?) && agg.column.Some? && agg.alias != KEY_COLUMN
    requires Names(aggregates, agg.alias, agg)
    requires Ordered(kind) && OfKind(PresentValues(rows, agg.column.value), kind)
    ensures var out := AggregateRows(rows, groupBy, aggregates, env);
            var again, whole := ApplyAggregate(agg.(column := Some(agg.alias)), out, env),
              ApplyAggregate(agg, rows, env);
            if PresentValues(rows, agg.column.value) == [] then again == whole == Null
            else CompareValues(again, whole) == Some(Equal)
  {
    var keys := SortedKeys(GroupKeys(rows, groupBy, env));
    ExtremeOutputs(keys, rows, groupBy, aggregates, agg, env);
    if PresentValues(rows, agg.column.value) == [] {
      NoExtremes(keys, rows, groupBy, agg.column.value, Wanted(agg.func), env);
    } else {
      ExtremesAgree(rows, groupBy, agg.column.value, Wanted(agg.func), kind, env);
    }
  }

  lemma {:induction false} NoExtremes(keys: seq<string>, rows: seq<Row>, groupBy: seq<string>, column: string,
                                      want: Order, env: Env)
    requires PresentValues(rows, column) == []
    ensures GroupExtremes(keys, rows, groupBy, column, want, env) == []
  {
    if keys != [] {
      NoExtremes(keys[1..], rows, groupBy, column, want, env);
      var values := PresentValues(Members(rows, keys[0], groupBy, env), column);
      FewerPresent(rows, keys[0], groupBy, column, env);
      assert values == [];
    }
  }

  lemma {:induction false} FewerPresent(rows: seq<Row>, key: string, groupBy: seq<string>, column: string, env: Env)
    ensures |PresentValues(Members(rows, key, groupBy, env), column)| <= |PresentValues(rows, column)|
  {
    if rows != [] {
      FewerPresent(rows[1..], key, groupBy, column, env);
      assert ([rows[0]] + Members(rows[1..], key, groupBy, env))[1..] == Members(rows[1..], key, groupBy, env);
    }
  }

  lemma BeatsTransitively(best: Value, top: Value, e: Value, want: Order, kind: Kind)
    requires want != Equal && Ordered(kind) && KindOf(best) == kind && KindOf(top) == kind && KindOf(e) == kind
    requires CompareValues(best, top) == Some(want) && CompareValues(e, top) != Some(want)
    ensures CompareValues(best, e) == Some(want)
  {
    ExtremeChain(e, top, best, want, kind);
    SameKindCompares(best, e, kind);
    SameKindCompares(e, top, kind);
    CompareValuesReverse(best, e);
    CompareValuesReverse(e, top);
    CompareValuesReverse(best, top);
    assert OneKind({kind});
    OneKindPreorders({kind}, Some(best), Some(e), Some(top));
    OneKindPreorders({kind}, Some(top), Some(e), Some(best));
    OneKindPreorders({kind}, Some(e), Some(best), Some(top));
    OneKindPreorders({kind}, Some(top), Some(best), Some(e));
    OneKindPreorders({kind}, Some(best), Some(top), Some(e));
    OneKindPreorders({kind}, Some(e), Some(top), Some(best));
  }

  // ----- group keys -----

  /** The values a row is grouped by; an absent one counts as Null. */
  function GroupValues(row: Row, groupBy: seq<string>): seq<Value> {
    seq(|groupBy|, i requires 0 <= i < |groupBy| => ColumnOrNull(row, groupBy[i]))
  }

  function KeyTexts(tuple: seq<Value>, env: Env): seq<string> {
    seq(|tuple|, i requires 0 <= i < |tuple| => KeyText(tuple[i], env))
  }

  function TupleKey(tuple: seq<Value>, env: Env): string {
    JoinText(KeyTexts(tuple, env), SEPARATOR)
  }

  lemma GroupKeyOfValues(row: Row, groupBy: seq<string>, env: Env)
    ensures GroupKey(row, groupBy, env) == TupleKey(GroupValues(row, groupBy), env)
  {
    assert GroupTuple(row, groupBy, env) == KeyTexts(GroupValues(row, groupBy), env);
  }

  /** No other tuple of values of this length has the key. */
  ghost predicate TupleIdentified(tuple: seq<Value>, env: Env) {
    forall other: seq<Value> :: |other| == |tuple| && TupleKey(other, env) == TupleKey(tuple, env) ==> other == tuple
  }

  /** A text that is not how some other value is written. */
  ghost predicate PlainText(v: Value, env: Env) {
    v.Text? && forall w: Value :: !w.Text? ==> env.json(w) != v.s
  }

  lemma OnlyTextHasItsKey(v: Value, w: Value, env: Env)
    requires PlainText(v, env) && KeyText(w, env) == KeyText(v, env)
    ensures w == v
  {}

  /** Another value with the key of a value that is no plain text. */
  lemma Lookalike(v: Value, env: Env) returns (w: Value)
    requires !PlainText(v, env)
    ensures w != v && KeyText(w, env) == KeyText(v, env)
  {
    if v.Text? {
      w :| !w.Text? && env.json(w) == v.s;
    } else {
      w := Text(env.json(v));
    }
  }

  lemma PlainTuplesIdentified(tuple: seq<Value>, other: seq<Value>, env: Env)
    requires |other| == |tuple| && TupleKey(other, env) == TupleKey(tuple, env)
    requires forall i :: 0 <= i < |tuple| ==> PlainText(tuple[i], env)
    requires |tuple| <= 1 || Free(KeyTexts(tuple, env), SEPARATOR)
    ensures other == tuple
  {
    JoinIdentifiesExactly(KeyTexts(tuple, env), SEPARATOR);
    assert KeyTexts(other, env) == KeyTexts(tuple, env);
    forall i | 0 <= i < |tuple| ensures other[i] == tuple[i] {
      assert KeyTexts(other, env)[i] == KeyTexts(tuple, env)[i];
      OnlyTextHasItsKey(tuple[i], other[i], env);
    }
  }

  lemma LookalikeTuple(tuple: seq<Value>, i: nat, env: Env)
    requires i < |tuple| && !PlainText(tuple[i], env)
    ensures !TupleIdentified(tuple, env)
  {
    var w := Lookalike(tuple[i], env);
    var other := tuple[i := w];
    assert KeyTexts(other, env) == KeyTexts(tuple, env);
    assert other[i] != tuple[i];
  }

  lemma SplitTuple(tuple: seq<Value>, env: Env)
    requires |tuple| > 1 && !Free(KeyTexts(tuple, env), SEPARATOR)
    ensures !TupleIdentified(tuple, env)
  {
    var texts := KeyTexts(tuple, env);
    JoinIdentifiesExactly(texts, SEPARATOR);
    var parts: seq<string> :| |parts| == |texts| && JoinText(parts, SEPARATOR) == JoinText(texts, SEPARATOR)
      && parts != texts;
    var other := seq(|parts|, i requires 0 <= i < |parts| => Text(parts[i]));
    assert KeyTexts(other, env) == parts;
    assert TupleKey(other, env) == TupleKey(tuple, env);
  }

  /** A group key tells its tuple of values from every other exactly when every value is a text that
      is not how some other value is written, and there is one grouping column or no text has U+0001. */
  lemma GroupKeyIdentifiesExactly(tuple: seq<Value>, env: Env)
    ensures TupleIdentified(tuple, env)
            <==> && (forall i :: 0 <= i < |tuple| ==> PlainText(tuple[i], env))
                 && (|tuple| <= 1 || forall i :: 0 <= i < |tuple| ==> SEPARATOR !in KeyText(tuple[i], env))
  {
    var texts := KeyTexts(tuple, env);
    assert Free(texts, SEPARATOR) <==> forall i :: 0 <= i < |tuple| ==> SEPARATOR !in KeyText(tuple[i], env) by {
      assert forall i :: 0 <= i < |tuple| ==> texts[i] == KeyText(tuple[i], env);
    }
    if i :| 0 <= i < |tuple| && !PlainText(tuple[i], env) {
      LookalikeTuple(tuple, i, env);
    } else if |tuple| > 1 && !Free(texts, SEPARATOR) {
      SplitTuple(tuple, env);
    } else {
      forall other: seq<Value> | |other| == |tuple| && TupleKey(other, env) == TupleKey(tuple, env)
        ensures other == tuple
      {
        PlainTuplesIdentified(tuple, other, env);
      }
    }
  }

  /** Whether two values are told apart as they are written: a text from any other text, and from
      another value unless it is how that is written; other values as far as their JSON differs. */
  predicate ToldApart(v: Value, w: Value, env: Env) {
    if v.Text? && w.Text? then true
    else if v.Text? then v.s != env.json(w)
    else if w.Text? then env.json(v) != w.s
    else env.json(v) == env.json(w) ==> v == w
  }

  /** Two rows land in one group exactly when their grouping values are the same, if those are told
      apart column by column and, with several columns, the texts of one of the rows have no U+0001. */
  lemma GroupsAreEqualValues(a: Row, b: Row, groupBy: seq<string>, env: Env)
    requires forall i :: 0 <= i < |groupBy| ==> ToldApart(ColumnOrNull(a, groupBy[i]), ColumnOrNull(b, groupBy[i]), env)
    requires |groupBy| <= 1 || forall i :: 0 <= i < |groupBy| ==>
             SEPARATOR !in KeyText(ColumnOrNull(a, groupBy[i]), env)
    ensures GroupKey(a, groupBy, env) == GroupKey(b, groupBy, env)
            <==> forall i :: 0 <= i < |groupBy| ==> ColumnOrNull(a, groupBy[i]) == ColumnOrNull(b, groupBy[i])
  {
    var p, q := GroupTuple(a, groupBy, env), GroupTuple(b, groupBy, env);
    JoinIdentifiesExactly(p, SEPARATOR);
    if GroupKey(a, groupBy, env) == GroupKey(b, groupBy, env) {
      assert p == q;
      forall i | 0 <= i < |groupBy| ensures ColumnOrNull(a, groupBy[i]) == ColumnOrNull(b, groupBy[i]) {
        assert p[i] == q[i];
      }
    }
    if forall i :: 0 <= i < |groupBy| ==> ColumnOrNull(a, groupBy[i]) == ColumnOrNull(b, groupBy[i]) {
      assert p == q;
    }
  }

  /** A number and its own text land in one group, however numbers are written. */
  lemma NumberSharesItsTextsGroup(n: int64, env: Env)
    ensures var a := Row("1", Map(map["x" := Int(n)]));
            var b := Row("2", Map(map["x" := Text(env.json(Int(n)))]));
            a.Column("x") != b.Column("x") && GroupKey(a, ["x"], env) == GroupKey(b, ["x"], env)
  {
    var a, b := Row("1", Map(map["x" := Int(n)])), Row("2", Map(map["x" := Text(env.json(Int(n)))]));
    assert GroupTuple(a, ["x"], env) == GroupTuple(b, ["x"], env) == [env.json(Int(n))];
  }

  /** Two rows that differ in both grouping columns land in one group. */
  lemma DistinctTuplesShareAGroup(env: Env)
    ensures var a := Row("1", Map(map["x" := Text("p\U{1}q"), "y" := Text("r")]));
            var b := Row("2", Map(map["x" := Text("p"), "y" := Text("q\U{1}r")]));
            a.Column("x") != b.Column("x") && a.Column("y") != b.Column("y")
            && GroupKey(a, ["x", "y"], env) == GroupKey(b, ["x", "y"], env)
  {
    var a := Row("1", Map(map["x" := Text("p\U{1}q"), "y" := Text("r")]));
    var b := Row("2", Map(map["x" := Text("p"), "y" := Text("q\U{1}r")]));
    assert GroupTuple(a, ["x", "y"], env) == ["p\U{1}q", "r"];
    assert GroupTuple(b, ["x", "y"], env) == ["p", "q\U{1}r"];
    assert ["p\U{1}q", "r"][1..] == ["r"] && ["p", "q\U{1}r"][1..] == ["q\U{1}r"];
    assert JoinText(["p\U{1}q", "r"], SEPARATOR) == "p\U{1}q" + [SEPARATOR] + "r";
    assert JoinText(["p", "q\U{1}r"], SEPARATOR) == "p" + [SEPARATOR] + "q\U{1}r";
    assert a.Column("x").value.s[1] == SEPARATOR;
    assert |a.Column("x").value.s| != |b.Column("x").value.s|;
    assert |a.Column("y").value.s| != |b.Column("y").value.s|;
  }
}
