/** The views as the row source of the executor: when its indexes answer with every row that
    matches, and that execution over views is then the plain meaning of a plan. */
module ViewQueries {
  import opened Prelude
  import opened Strings
  import opened Floats
  import opened Values
  import opened IndexKeys
  import opened Plans
  import opened Exec
  import opened Refinement
  import opened ViewIndex
  import ViewRuns
  import opened TableViews

  type View = ViewRuns.View

  /** The view of every table. */
  type Views = map<string, View>

  function ViewOf(views: Views, table: string): View {
    if table in views then views[table] else ViewRuns.EMPTY
  }

  ghost function RowsOf(rows: Table): seq<Row> {
    var keys := SortedKeys(rows.Keys);
    seq(|keys|, i requires 0 <= i < |keys| => Row(keys[i], if keys[i] in rows then rows[keys[i]] else Null))
  }

  ghost function ViewEnv(views: Views, host: Env): Env {
    host.(
      scan := (table: string) => RowsOf(ViewOf(views, table).rows),
      row := (table: string, k: string) => Lookup(ViewOf(views, table).rows, k),
      candidates := (table: string, column: string, bound: IndexBound) => Answer(ViewOf(views, table), column, bound))
  }

  lemma RowsOfMembers(rows: Table)
    ensures forall r :: r in RowsOf(rows) <==> r.primaryKey in rows && rows[r.primaryKey] == r.value
    ensures AscendingRows(RowsOf(rows))
  {
    var keys := SortedKeys(rows.Keys);
    SortedKeysAscend(rows.Keys);
    forall r ensures r in RowsOf(rows) <==> r.primaryKey in rows && rows[r.primaryKey] == r.value {
      if r in RowsOf(rows) {
        var i :| 0 <= i < |keys| && RowsOf(rows)[i] == r;
        assert keys[i] in keys;
      }
      if r.primaryKey in rows && rows[r.primaryKey] == r.value {
        assert r.primaryKey in keys;
        var i :| 0 <= i < |keys| && keys[i] == r.primaryKey;
        assert RowsOf(rows)[i] == r;
      }
    }
  }

  lemma ViewIsWellKeyed(views: Views, host: Env, table: string)
    ensures WellKeyed(table, ViewEnv(views, host))
  {
    RowsOfMembers(ViewOf(views, table).rows);
  }

  /** The executor and the index read the same thing from every row under this column. */
  predicate PlainColumn(rows: Table, column: string) {
    column != KEY_COLUMN && (column == VALUE_COLUMN ==> forall k :: k in rows ==> rows[k].Map?)
  }

  /** The bound an indexable comparison asks for. */
  function BoundOf(p: Predicate, bindings: Bindings): Option<IndexBound> {
    match p
    case Compare(op, _, operand) =>
      var v := Resolve(operand, bindings);
      if v.Ok? then BoundFor(op, v.value) else None
    case In(_, operands) =>
      var vs := ResolveAll(operands, bindings);
      if vs.Some? then Some(AnyOf(vs.value)) else None
    case _ => None
  }

  lemma {:induction false} InSatisfies(left: Option<Value>, operands: seq<Expr>, bindings: Bindings)
    requires ResolveAll(operands, bindings).Some?
    ensures MatchesIn(left, operands, bindings).Ok?
    ensures MatchesIn(left, operands, bindings).value
            <==> left.Some? && Satisfies(left.value, AnyOf(ResolveAll(operands, bindings).value))
  {
    if operands != [] {
      InSatisfies(left, operands[1..], bindings);
      var values := ResolveAll(operands, bindings).value;
      var rest := ResolveAll(operands[1..], bindings).value;
      assert values == [Resolve(operands[0], bindings).value] + rest;
      if left.Some? {
        if Satisfies(left.value, AnyOf(rest)) {
          var i :| 0 <= i < |rest| && CompareValues(left.value, rest[i]) == Some(Equal);
          assert values[i + 1] == rest[i];
        }
        if Satisfies(left.value, AnyOf(values)) {
          var i :| 0 <= i < |values| && CompareValues(left.value, values[i]) == Some(Equal);
          assert i > 0 ==> rest[i - 1] == values[i];
        }
        if CompareValues(left.value, values[0]) == Some(Equal) {
          assert Satisfies(left.value, AnyOf(values));
        }
      }
    }
  }

  /** A comparison holds of a row exactly when the bound's condition holds of its column. */
  lemma ComparisonIsBound(row: Row, p: Predicate, bindings: Bindings)
    requires (p.Compare? || p.In?) && BoundOf(p, bindings).Some?
    ensures Matches(row, p, bindings)
            == Ok(row.Column(p.column).Some? && Satisfies(row.Column(p.column).value, BoundOf(p, bindings).value))
  {
    if p.In? {
      InSatisfies(row.Column(p.column), p.operands, bindings);
    }
  }

  lemma ViewColumnIsRowColumn(rows: Table, k: string, column: string)
    requires PlainColumn(rows, column) && k in rows
    ensures Row(k, rows[k]).Column(column) == ColumnValue(rows[k], column)
  {}

  lemma BoundsAreOneSided(p: Predicate, bindings: Bindings)
    requires BoundOf(p, bindings).Some?
    ensures OneSided(BoundOf(p, bindings).value)
  {}

  /** Whether the index is asked, and answers. */
  predicate Asked(v: View, p: Predicate, bindings: Bindings) {
    && (p.Compare? || p.In?) && p.column in v.indexes
    && BoundOf(p, bindings).Some? && EncodedRange(BoundOf(p, bindings).value).Some?
  }

  /** No stored value of the column strays from the bound. */
  predicate NothingStrays(rows: Table, column: string, bound: IndexBound) {
    forall k :: k in rows && ColumnValue(rows[k], column).Some? ==> !Strays(ColumnValue(rows[k], column).value, bound)
  }

  lemma ViewCandidates(views: Views, host: Env, table: string, p: Predicate, bindings: Bindings)
    requires Asked(ViewOf(views, table), p, bindings) && ViewRuns.Current(ViewOf(views, table))
    ensures var keys := Candidates(table, p, ViewEnv(views, host), bindings);
            var spans := EncodedRange(BoundOf(p, bindings).value).value;
            && keys.Some? && Ascending(keys.value)
            && forall k :: k in keys.value <==> k in KeysWithin(ViewOf(views, table).rows, p.column, spans)
  {
    var v, spans := ViewOf(views, table), EncodedRange(BoundOf(p, bindings).value).value;
    assert ViewRuns.Covered(v, p.column);
    SweptIsWithin(v.indexes[p.column], v.rows, p.column, spans);
    SortedKeysAscend(Swept(v.indexes[p.column], spans));
  }

  lemma UnaskedIsServed(views: Views, host: Env, table: string, p: Predicate, bindings: Bindings)
    requires (p.Compare? || p.In?) && !Asked(ViewOf(views, table), p, bindings)
    ensures Candidates(table, p, ViewEnv(views, host), bindings).None?
  {}

  /** What the index has to reach: every row whose column satisfies the bound. */
  lemma ReachedExactly(rows: Table, k: string, p: Predicate, bindings: Bindings)
    requires (p.Compare? || p.In?) && BoundOf(p, bindings).Some? && EncodedRange(BoundOf(p, bindings).value).Some?
    requires PlainColumn(rows, p.column) && k in rows && Matches(Row(k, rows[k]), p, bindings) == Ok(true)
    ensures ColumnValue(rows[k], p.column).Some?
    ensures k in KeysWithin(rows, p.column, EncodedRange(BoundOf(p, bindings).value).value)
            <==> !Strays(ColumnValue(rows[k], p.column).value, BoundOf(p, bindings).value)
  {
    ViewColumnIsRowColumn(rows, k, p.column);
    ComparisonIsBound(Row(k, rows[k]), p, bindings);
    BoundsAreOneSided(p, bindings);
    StraysExactly(ColumnValue(rows[k], p.column).value, BoundOf(p, bindings).value);
  }

  lemma StrayMatches(rows: Table, k: string, p: Predicate, bindings: Bindings)
    requires (p.Compare? || p.In?) && BoundOf(p, bindings).Some? && EncodedRange(BoundOf(p, bindings).value).Some?
    requires PlainColumn(rows, p.column) && k in rows && ColumnValue(rows[k], p.column).Some?
    requires Strays(ColumnValue(rows[k], p.column).value, BoundOf(p, bindings).value)
    ensures Matches(Row(k, rows[k]), p, bindings) == Ok(true)
  {
    ViewColumnIsRowColumn(rows, k, p.column);
    ComparisonIsBound(Row(k, rows[k]), p, bindings);
    BoundsAreOneSided(p, bindings);
    StraysExactly(ColumnValue(rows[k], p.column).value, BoundOf(p, bindings).value);
  }

  /** The index of a view in step serves a comparison exactly when no stored value strays from its bound. */
  lemma ViewServesExactly(views: Views, host: Env, table: string, p: Predicate, bindings: Bindings)
    requires Asked(ViewOf(views, table), p, bindings) && ViewRuns.Current(ViewOf(views, table))
    requires PlainColumn(ViewOf(views, table).rows, p.column)
    ensures LeafServed(table, p, ViewEnv(views, host), bindings)
            <==> NothingStrays(ViewOf(views, table).rows, p.column, BoundOf(p, bindings).value)
  {
    var env, rows := ViewEnv(views, host), ViewOf(views, table).rows;
    ViewCandidates(views, host, table, p, bindings);
    RowsOfMembers(rows);
    if LeafServed(table, p, env, bindings) {
      forall k | k in rows && ColumnValue(rows[k], p.column).Some?
        ensures !Strays(ColumnValue(rows[k], p.column).value, BoundOf(p, bindings).value)
      {
        if Strays(ColumnValue(rows[k], p.column).value, BoundOf(p, bindings).value) {
          StrayMatches(rows, k, p, bindings);
          assert Row(k, rows[k]) in env.scan(table);
          ReachedExactly(rows, k, p, bindings);
        }
      }
    }
    if NothingStrays(rows, p.column, BoundOf(p, bindings).value) {
      forall r | r in env.scan(table) && Matches(r, p, bindings) == Ok(true)
        ensures r.primaryKey in Candidates(table, p, env, bindings).value
      {
        assert r == Row(r.primaryKey, rows[r.primaryKey]);
        ReachedExactly(rows, r.primaryKey, p, bindings);
      }
    }
  }

  predicate NoNegativeZero(rows: Table, column: string) {
    forall k :: k in rows && ColumnValue(rows[k], column).Some? ==> !NegativeZero(ColumnValue(rows[k], column).value)
  }

  predicate PlainEnd(end: (Value, bool)) {
    !NegativeZero(end.0) && (end.0.Int? && !end.1 ==> Abs(end.0.i) < TWO_53)
  }

  /** No operand is the negative zero, and a strict integer operand is below 2^53. */
  predicate PlainBound(bound: IndexBound) {
    match bound
    case Eq(value) => !NegativeZero(value)
    case AnyOf(values) => forall v :: v in values ==> !NegativeZero(v)
    case Range(low, high) =>
      && (low.Some? ==> PlainEnd(low.value))
      && (high.Some? ==> PlainEnd(high.value))
  }

  /** Nothing strays from a safe bound, nor from a plain one where no negative zero is stored. */
  lemma SafeBoundsReach(rows: Table, column: string, bound: IndexBound)
    requires OneSided(bound) && EncodedRange(bound).Some?
    requires SafeBound(bound) || (NoNegativeZero(rows, column) && PlainBound(bound))
    ensures NothingStrays(rows, column, bound)
  {
    forall k | k in rows && ColumnValue(rows[k], column).Some?
      ensures !Strays(ColumnValue(rows[k], column).value, bound)
    {
      if SafeBound(bound) {
        NothingStraysFromSafeBounds(ColumnValue(rows[k], column).value, bound);
      } else {
        NothingStraysFromPlainBounds(ColumnValue(rows[k], column).value, bound);
      }
    }
  }

  lemma NothingStraysFromPlainBounds(v: Value, bound: IndexBound)
    requires OneSided(bound) && PlainBound(bound) && !NegativeZero(v)
    ensures !Strays(v, bound)
  {
    match bound
    case Eq(_) =>
    case AnyOf(values) => assert forall i :: 0 <= i < |values| ==> values[i] in values;
    case Range(low, high) =>
      var (x, inclusive) := if low.Some? then low.value else high.value;
      if v.Int? && x.Int? && !inclusive && v.i != x.i {
        StrictSmallIntegers(v.i, x.i);
      }
  }

  lemma StrictSmallIntegers(i: int64, x: int64)
    requires i != x && Abs(x) < TWO_53
    ensures FromInt(i) != FromInt(x)
  {
    FromIntMonotone(x, x + 1);
    FromIntMonotone(x - 1, x);
    if i < x {
      SharedRounding(i, x);
    } else {
      SharedRounding(x, i);
    }
  }

  // ----- whole plans over views -----

  /** Every index the predicate asks is over a plain column, and no stored value strays from what
      it is asked. */
  predicate PredicateSteady(v: View, p: Predicate, bindings: Bindings)
    decreases p, 1
  {
    match p
    case Compare(_, _, _) => LeafSteady(v, p, bindings)
    case In(_, _) => LeafSteady(v, p, bindings)
    case And(terms) => PredicatesSteady(v, terms, bindings)
    case Or(terms) => PredicatesSteady(v, terms, bindings)
    case _ => true
  }

  predicate PredicatesSteady(v: View, ps: seq<Predicate>, bindings: Bindings)
    decreases ps, 0
  {
    ps != [] ==> PredicateSteady(v, ps[0], bindings) && PredicatesSteady(v, ps[1..], bindings)
  }

  predicate LeafSteady(v: View, p: Predicate, bindings: Bindings) {
    Asked(v, p, bindings) ==>
      PlainColumn(v.rows, p.column) && NothingStrays(v.rows, p.column, BoundOf(p, bindings).value)
  }

  /** So it is for every index scan of a plan, under the bindings it runs with. */
  ghost predicate PlanSteady(plan: Plan, views: Views, host: Env, bindings: Bindings) {
    match plan
    case Scan(_) => true
    case PointLookup(_, _) => true
    case IndexScan(table, _, pred) => PredicateSteady(ViewOf(views, table), pred, bindings)
    case Join(outer, inner, outerColumn, binds) =>
      && PlanSteady(outer, views, host, bindings)
      && (Denote(outer, ViewEnv(views, host), bindings).Ok? ==>
            forall r :: r in Denote(outer, ViewEnv(views, host), bindings).value && r.Column(outerColumn).Some? ==>
              PlanSteady(inner, views, host, bindings[binds := r.Column(outerColumn).value]))
    case Filter(input, _) => PlanSteady(input, views, host, bindings)
    case Project(input, _) => PlanSteady(input, views, host, bindings)
    case Sort(input, _) => PlanSteady(input, views, host, bindings)
    case Limit(input, _, _) => PlanSteady(input, views, host, bindings)
    case GroupBy(input, _, _) => PlanSteady(input, views, host, bindings)
  }

  ghost predicate AllCurrent(views: Views) {
    forall table :: table in views ==> ViewRuns.Current(views[table])
  }

  lemma EmptyIsCurrent()
    ensures ViewRuns.Current(ViewRuns.EMPTY)
  {
    assert ViewRuns.IndexedColumns([]) == [];
  }

  lemma {:induction false} SteadyIsServed(views: Views, host: Env, table: string, p: Predicate, bindings: Bindings)
    requires PredicateSteady(ViewOf(views, table), p, bindings) && AllCurrent(views)
    ensures PredicateServed(table, p, ViewEnv(views, host), bindings)
    decreases p, 1
  {
    match p
    case Compare(_, _, _) => LeafSteadyIsServed(views, host, table, p, bindings);
    case In(_, _) => LeafSteadyIsServed(views, host, table, p, bindings);
    case And(terms) => TermsSteadyAreServed(views, host, table, terms, bindings);
    case Or(terms) => TermsSteadyAreServed(views, host, table, terms, bindings);
    case _ =>
  }

  lemma LeafSteadyIsServed(views: Views, host: Env, table: string, p: Predicate, bindings: Bindings)
    requires (p.Compare? || p.In?) && LeafSteady(ViewOf(views, table), p, bindings) && AllCurrent(views)
    ensures LeafServed(table, p, ViewEnv(views, host), bindings)
  {
    EmptyIsCurrent();
    if Asked(ViewOf(views, table), p, bindings) {
      ViewServesExactly(views, host, table, p, bindings);
    } else {
      UnaskedIsServed(views, host, table, p, bindings);
    }
  }

  lemma {:induction false} TermsSteadyAreServed(views: Views, host: Env, table: string, ps: seq<Predicate>,
                                                bindings: Bindings)
    requires PredicatesSteady(ViewOf(views, table), ps, bindings) && AllCurrent(views)
    ensures PredicatesServed(table, ps, ViewEnv(views, host), bindings)
    decreases ps, 0
  {
    if ps != [] {
      SteadyIsServed(views, host, table, ps[0], bindings);
      TermsSteadyAreServed(views, host, table, ps[1..], bindings);
    }
  }

  lemma {:induction false} SteadyPlanIsServed(plan: Plan, views: Views, host: Env, bindings: Bindings)
    requires PlanSteady(plan, views, host, bindings) && AllCurrent(views)
    ensures IndexServed(plan, ViewEnv(views, host), bindings)
  {
    match plan
    case Scan(_) =>
    case PointLookup(_, _) =>
    case IndexScan(table, _, pred) =>
      ViewIsWellKeyed(views, host, table);
      SteadyIsServed(views, host, table, pred, bindings);
    case Join(outer, inner, outerColumn, binds) =>
      SteadyPlanIsServed(outer, views, host, bindings);
      var rows := Denote(outer, ViewEnv(views, host), bindings);
      if rows.Ok? {
        forall r | r in rows.value && r.Column(outerColumn).Some?
          ensures IndexServed(inner, ViewEnv(views, host), bindings[binds := r.Column(outerColumn).value])
        {
          SteadyPlanIsServed(inner, views, host, bindings[binds := r.Column(outerColumn).value]);
        }
      }
    case Filter(input, _) => SteadyPlanIsServed(input, views, host, bindings);
    case Project(input, _) => SteadyPlanIsServed(input, views, host, bindings);
    case Sort(input, _) => SteadyPlanIsServed(input, views, host, bindings);
    case Limit(input, _, _) => SteadyPlanIsServed(input, views, host, bindings);
    case GroupBy(input, _, _) => SteadyPlanIsServed(input, views, host, bindings);
  }

  /** Over views whose indexes are in step, executing any plan gives its plain meaning: the indexes
      are never seen in the result. */
  lemma ViewExecutionIsMeaning(plan: Plan, views: Views, host: Env, bindings: Bindings)
    requires Safe(plan, None) && PlanSteady(plan, views, host, bindings) && AllCurrent(views)
    requires Denote(plan, ViewEnv(views, host), bindings).Ok?
    ensures Evaluate(plan, ViewEnv(views, host), bindings, None) == Denote(plan, ViewEnv(views, host), bindings)
  {
    SteadyPlanIsServed(plan, views, host, bindings);
    ExecutionIsMeaning(plan, ViewEnv(views, host), bindings);
  }

  /** An index scan over a view returns the rows a filtered scan returns, in the same order. */
  lemma ViewIndexScanIsScan(views: Views, host: Env, table: string, index: string, p: Predicate, bindings: Bindings)
    requires PredicateSteady(ViewOf(views, table), p, bindings) && AllCurrent(views)
    requires Denote(Filter(Scan(table), p), ViewEnv(views, host), bindings).Ok?
    ensures var env := ViewEnv(views, host);
            Evaluate(IndexScan(table, index, p), env, bindings, None)
              == Evaluate(Filter(Scan(table), p), env, bindings, None)
  {
    ViewExecutionIsMeaning(IndexScan(table, index, p), views, host, bindings);
    ViewExecutionIsMeaning(Filter(Scan(table), p), views, host, bindings);
  }

  // ----- an index over the pseudo-column of primary keys -----

  /** Only the text itself has its key. */
  lemma KeyOfText(v: Value, s: string)
    ensures Encode(v) == Encode(Text(s)) <==> v == Text(s)
  {
    if Encode(v) == Encode(Text(s)) {
      RankFirst(v);
      assert v.Text? && Encode(v).value[1..] == Utf8(v.s) && Encode(Text(s)).value[1..] == Utf8(s);
      Utf8Injective(v.s, s);
    }
  }

  /** Filtering for a primary key leaves the row that has it, or nothing. */
  lemma RowsWithKey(found: seq<Row>, k: string, rows: Table)
    requires AscendingRows(found) && k in rows
    requires forall r :: r in found ==> r.primaryKey in rows && rows[r.primaryKey] == r.value
    ensures FilterRows(found, Compare(OpEq, KEY_COLUMN, Literal(Text(k))), map[], None)
            == Ok(if Row(k, rows[k]) in found then [Row(k, rows[k])] else [])
  {
    var p, row := Compare(OpEq, KEY_COLUMN, Literal(Text(k))), Row(k, rows[k]);
    forall r ensures Matches(r, p, map[]) == Ok(r.primaryKey == k) {
      CompareStringTotal(r.primaryKey, k, k);
    }
    FilterMembers(found, p, map[]);
    FilterKeepsOrder(found, p, map[]);
    AscendingRowsUnique(FilterRows(found, p, map[], None).value, if row in found then [row] else []);
  }

  lemma KeyCandidates(views: Views, host: Env, table: string, k: string)
    requires ViewRuns.Current(ViewOf(views, table)) && KEY_COLUMN in ViewOf(views, table).indexes
    requires k in ViewOf(views, table).rows
    ensures var p := Compare(OpEq, KEY_COLUMN, Literal(Text(k)));
            var keys := Candidates(table, p, ViewEnv(views, host), map[]);
            && keys.Some? && Ascending(keys.value)
            && (k in keys.value <==> ColumnValue(ViewOf(views, table).rows[k], KEY_COLUMN) == Some(Text(k)))
  {
    var p, rows := Compare(OpEq, KEY_COLUMN, Literal(Text(k))), ViewOf(views, table).rows;
    var key := Encode(Text(k)).value;
    SpanOfPoint(Text(k));
    ViewCandidates(views, host, table, p, map[]);
    var v := ColumnValue(rows[k], KEY_COLUMN);
    if v.Some? {
      KeyOfText(v.value, k);
      if Encode(v.value).Some? {
        SoleSpan(Encode(v.value).value, key);
      }
    }
  }

  /** An index over `_key` files a field of that name, while the executor means the primary key: a
      lookup through it finds the row it asks for exactly when nothing was ever filed in it, so
      that it does not answer, or when the row repeats its key in such a field. */
  lemma KeyColumnLookupExactly(views: Views, host: Env, table: string, index: string, k: string)
    requires ViewRuns.Current(ViewOf(views, table)) && k in ViewOf(views, table).rows
    ensures var v, row := ViewOf(views, table), Row(k, ViewOf(views, table).rows[k]);
            Evaluate(IndexScan(table, index, Compare(OpEq, KEY_COLUMN, Literal(Text(k)))), ViewEnv(views, host),
              map[], None)
            == Ok(if KEY_COLUMN !in v.indexes || ColumnValue(v.rows[k], KEY_COLUMN) == Some(Text(k)) then [row] else [])
  {
    var env, rows := ViewEnv(views, host), ViewOf(views, table).rows;
    var p := Compare(OpEq, KEY_COLUMN, Literal(Text(k)));
    ViewIsWellKeyed(views, host, table);
    RowsOfMembers(rows);
    var keys := Candidates(table, p, env, map[]);
    if KEY_COLUMN in ViewOf(views, table).indexes {
      KeyCandidates(views, host, table, k);
      FetchMembers(table, keys.value, env);
      FetchKeepsOrder(table, keys.value, env);
      RowsWithKey(Fetch(table, keys.value, env), k, rows);
    } else {
      RowsWithKey(env.scan(table), k, rows);
    }
  }

  // ----- an index left stale -----

  /** An index in step answers to one value with the keys of the rows whose value has its key. */
  lemma AnswerExactly(v: View, column: string, x: Value, k: string)
    requires ViewRuns.Current(v) && column in v.indexes && k in v.rows && Encode(x).Some?
    ensures Answer(v, column, Eq(x)).Some?
    ensures k in Answer(v, column, Eq(x)).value <==> KeyOfRow(v.rows[k], column) == Encode(x)
  {
    var key, was := Encode(x).value, KeyOfRow(v.rows[k], column);
    SpanOfPoint(x);
    assert ViewRuns.Covered(v, column);
    SweptIsWithin(v.indexes[column], v.rows, column, [PointSpan(key)]);
    SortedKeysAscend(Swept(v.indexes[column], [PointSpan(key)]));
    if was.Some? {
      SoleSpan(was.value, key);
    }
  }

  /** After a column is renamed, the index on its new name finds a row by the value that was moved
      exactly when the row had a value with the same key there before. */
  lemma RenamedRowFoundExactly(v: View, from: string, to: string, k: string)
    requires ViewRuns.Current(v) && from != to && to in v.indexes
    requires k in v.rows && v.rows[k].Map? && from in v.rows[k].fields && Encode(v.rows[k].fields[from]).Some?
    ensures var x, after := v.rows[k].fields[from], ViewRuns.Step(v, ViewRuns.RenameColumn(from, to));
            && k in after.rows && ColumnValue(after.rows[k], to) == Some(x)
            && Answer(after, to, Eq(x)).Some?
            && (k in Answer(after, to, Eq(x)).value <==> KeyOfRow(v.rows[k], to) == Encode(x))
  {
    AnswerExactly(v, to, v.rows[k].fields[from], k);
  }

  const BY_Y := ViewRuns.IndexDef("by_y", ["y"])
  const WRITES: seq<ViewRuns.Event> := [ViewRuns.Put("a", Map(map["x" := Int(1)])),
    ViewRuns.Put("b", Map(map["y" := Int(2)]))]

  lemma AfterWrites()
    ensures ViewRuns.Run(ViewRuns.EMPTY, WRITES).rows
            == map["a" := Map(map["x" := Int(1)]), "b" := Map(map["y" := Int(2)])]
    ensures ViewRuns.Run(ViewRuns.EMPTY, WRITES).declared == []
  {
    var one := [WRITES[0]];
    ViewRuns.RunStep(ViewRuns.EMPTY, [], WRITES[0]);
    ViewRuns.RunStep(ViewRuns.EMPTY, one, WRITES[1]);
    assert [] + [WRITES[0]] == one && one + [WRITES[1]] == WRITES;
  }

  lemma IndexedByY(v: View)
    requires v.declared == [] && !Unindexable(v.rows, "y")
    ensures var next := ViewRuns.Step(v, ViewRuns.AddIndex(BY_Y));
            ViewRuns.Current(next) && "y" in next.indexes && next.rows == v.rows
  {
    var declared := ViewRuns.Undeclared([], "by_y") + [BY_Y];
    assert declared == [BY_Y] && [BY_Y][..0] == [];
    assert ViewRuns.IndexedColumns([BY_Y]) == ["y"];
    ViewRuns.RebuildHeals(v, declared);
    ViewRuns.AnswersAfterRebuildExactly(v, declared, "y");
  }

  lemma AfterIndexing()
    ensures var v := ViewRuns.Run(ViewRuns.EMPTY, WRITES + [ViewRuns.AddIndex(BY_Y)]);
            ViewRuns.Current(v) && "y" in v.indexes && v.rows == ViewRuns.Run(ViewRuns.EMPTY, WRITES).rows
  {
    var written := ViewRuns.Run(ViewRuns.EMPTY, WRITES);
    AfterWrites();
    ViewRuns.RunStep(ViewRuns.EMPTY, WRITES, ViewRuns.AddIndex(BY_Y));
    assert KeyOfRow(written.rows["b"], "y").Some?;
    IndexedByY(written);
  }

  /** Two writes, an index over a column of one, and the other's column renamed to that: the index
      answers, and not with the row that now has the value asked for. */
  lemma RenamedRowIsLost()
    ensures var v := ViewRuns.Run(ViewRuns.EMPTY, WRITES + [ViewRuns.AddIndex(BY_Y)]
            + [ViewRuns.RenameColumn("x", "y")]);
            && "a" in v.rows && ColumnValue(v.rows["a"], "y") == Some(Int(1))
            && Answer(v, "y", Eq(Int(1))).Some? && "a" !in Answer(v, "y", Eq(Int(1))).value
  {
    AfterWrites();
    AfterIndexing();
    ViewRuns.RunStep(ViewRuns.EMPTY, WRITES + [ViewRuns.AddIndex(BY_Y)], ViewRuns.RenameColumn("x", "y"));
    RenamedRowFoundExactly(ViewRuns.Run(ViewRuns.EMPTY, WRITES + [ViewRuns.AddIndex(BY_Y)]), "x", "y", "a");
  }
}
