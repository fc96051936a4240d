/** Which table the rows of a result are about. */
module Provenance {
  import opened Prelude
  import opened Values
  import opened Plans
  import opened Exec
  import opened Refinement
  import opened Sorting
  import Builder
  import JoinedRows

  /** No grouping, whose rows are groups and not entities of a table. */
  predicate Ungrouped(plan: Plan) {
    match plan
    case Filter(input, _) => Ungrouped(input)
    case Project(input, _) => Ungrouped(input)
    case Sort(input, _) => Ungrouped(input)
    case Limit(input, _, _) => Ungrouped(input)
    case GroupBy(_, _, _) => false
    case Join(outer, _, _, _) => Ungrouped(outer)
    case _ => true
  }

  /** Looking up a key finds exactly the scanned rows, in every table. */
  ghost predicate AllKeyed(env: Env) {
    forall table :: WellKeyed(table, env)
  }

  /** Some row of the table has the key. */
  ghost predicate KeyOfTable(env: Env, table: string, key: string) {
    exists r :: r in env.scan(table) && r.primaryKey == key
  }

  /** Every row of a result is about a row of the plan's source table: it goes under that row's key.
      A join is about its outer side. */
  lemma {:induction false} RowsAreAboutSource(plan: Plan, env: Env, bindings: Bindings, row: Row)
    requires AllKeyed(env) && Ungrouped(plan) && Denote(plan, env, bindings).Ok?
    requires row in Denote(plan, env, bindings).value
    ensures KeyOfTable(env, Builder.SourceTable(plan), row.primaryKey)
  {
    match plan
    case Scan(table) =>
    case PointLookup(table, key) =>
      assert WellKeyed(table, env);
    case IndexScan(table, _, pred) => FilterMembers(env.scan(table), pred, bindings);
    case Filter(input, pred) =>
      FilterMembers(Denote(input, env, bindings).value, pred, bindings);
      RowsAreAboutSource(input, env, bindings, row);
    case Project(input, _) => RowsAreAboutSource(input, env, bindings, row);
    case Sort(input, keys) =>
      var rows := Denote(input, env, bindings).value;
      SortKeepsRows(rows, keys);
      SameRows(SortRows(rows, keys), rows);
      RowsAreAboutSource(input, env, bindings, row);
    case Limit(input, count, offset) => RowsAreAboutSource(input, env, bindings, row);
    case Join(outer, inner, outerColumn, binds) =>
      JoinedRows.JoinMeaning(outer, inner, outerColumn, binds, env, bindings);
      var rows := Denote(outer, env, bindings).value;
      var partners := JoinedRows.PartnersIn(inner, outerColumn, binds, env, bindings);
      var k :| 0 <= k < |Denote(plan, env, bindings).value| && Denote(plan, env, bindings).value[k] == row;
      var a, b := JoinedRows.EveryJoinedRowIsAPair(rows, partners, k);
      RowsAreAboutSource(outer, env, bindings, rows[a]);
  }
}
