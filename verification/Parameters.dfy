/** Parameters are checked before execution so that a plan cannot fail half way on one. */
module Parameters {
  import opened Prelude
  import opened Values
  import opened IndexKeys
  import opened Plans
  import opened Exec

  function Names(needed: seq<Needed>): set<string> {
    set n | n in needed :: n.name
  }

  /** Every parameter the plan can read is bound where it is read. */
  predicate Closed(plan: Plan, bound: set<string>) {
    match plan
    case Scan(_) => true
    case PointLookup(_, key) => Names(ExprParams(key)) <= bound
    case IndexScan(_, _, pred) => Names(PredicateParams(pred)) <= bound
    case Filter(input, pred) => Closed(input, bound) && Names(PredicateParams(pred)) <= bound
    case Project(input, _) => Closed(input, bound)
    case Sort(input, _) => Closed(input, bound)
    case Limit(input, _, _) => Closed(input, bound)
    case GroupBy(input, _, _) => Closed(input, bound)
    case Join(outer, inner, _, binds) => Closed(outer, bound) && Closed(inner, bound + {binds})
  }

  predicate Unbound<T>(r: Result<T, ExecError>) {
    r.Err? && r.error.UnboundParameter?
  }

  lemma NamesAppend(a: seq<Needed>, b: seq<Needed>)
    ensures Names(a + b) == Names(a) + Names(b)
  {
    forall x ensures x in Names(a + b) <==> x in Names(a) + Names(b) {
      if x in Names(a) {
        var n :| n in a && n.name == x;
        assert n in a + b;
      }
      if x in Names(b) {
        var n :| n in b && n.name == x;
        assert n in a + b;
      }
    }
  }

  lemma {:induction false} NamesWithout(needed: seq<Needed>, name: string)
    ensures Names(Without(needed, name)) == Names(needed) - {name}
  {
    if needed != [] {
      NamesWithout(needed[1..], name);
      assert needed == [needed[0]] + needed[1..];
      NamesAppend([needed[0]], needed[1..]);
      NamesAppend([needed[0]], Without(needed[1..], name));
    }
  }

  // ----- predicates -----

  lemma {:induction false} InNeverUnbound(left: Option<Value>, operands: seq<Expr>, bindings: Bindings)
    requires Names(ExprsParams(operands)) <= bindings.Keys
    ensures !Unbound(MatchesIn(left, operands, bindings))
  {
    if operands != [] {
      NamesAppend(ExprParams(operands[0]), ExprsParams(operands[1..]));
      ExprNeverUnbound(operands[0], bindings);
      InNeverUnbound(left, operands[1..], bindings);
    }
  }

  lemma ExprNeverUnbound(e: Expr, bindings: Bindings)
    requires Names(ExprParams(e)) <= bindings.Keys
    ensures !Unbound(Resolve(e, bindings))
  {
    if e.Param? {
      assert Needed(e.name, e.ty) in ExprParams(e);
      assert e.name in Names(ExprParams(e));
    }
  }

  lemma {:induction false} PredicateNeverUnbound(row: Row, p: Predicate, bindings: Bindings)
    requires Names(PredicateParams(p)) <= bindings.Keys
    ensures !Unbound(Matches(row, p, bindings))
    decreases p, 1
  {
    match p
    case Compare(_, _, operand) => ExprNeverUnbound(operand, bindings);
    case In(column, operands) => InNeverUnbound(row.Column(column), operands, bindings);
    case And(terms) => TermsNeverUnbound(row, terms, bindings);
    case Or(terms) => TermsNeverUnbound(row, terms, bindings);
    case Not(inner) => PredicateNeverUnbound(row, inner, bindings);
    case _ =>
  }

  lemma {:induction false} TermsNeverUnbound(row: Row, ps: seq<Predicate>, bindings: Bindings)
    requires Names(PredicatesParams(ps)) <= bindings.Keys
    ensures !Unbound(MatchesAll(row, ps, bindings)) && !Unbound(MatchesAny(row, ps, bindings))
    decreases ps, 0
  {
    if ps != [] {
      NamesAppend(PredicateParams(ps[0]), PredicatesParams(ps[1..]));
      PredicateNeverUnbound(row, ps[0], bindings);
      TermsNeverUnbound(row, ps[1..], bindings);
    }
  }

  lemma {:induction false} FilterNeverUnbound(rows: seq<Row>, p: Predicate, bindings: Bindings, budget: Option<nat>)
    requires Names(PredicateParams(p)) <= bindings.Keys
    ensures !Unbound(FilterRows(rows, p, bindings, budget))
  {
    if rows != [] {
      PredicateNeverUnbound(rows[0], p, bindings);
      FilterNeverUnbound(rows[1..], p, bindings, budget);
      FilterNeverUnbound(rows[1..], p, bindings, Spend(budget, 1));
    }
  }

  // ----- plans -----

  /** A closed plan never meets an unbound parameter, whatever the data. */
  lemma {:induction false} ClosedNeverUnbound(plan: Plan, env: Env, bindings: Bindings, budget: Option<nat>)
    requires Closed(plan, bindings.Keys)
    ensures !Unbound(Evaluate(plan, env, bindings, budget))
    decreases plan, 0, 0
  {
    match plan
    case Scan(_) =>
    case PointLookup(_, key) => ExprNeverUnbound(key, bindings);
    case IndexScan(table, _, pred) =>
      var keys := Candidates(table, pred, env, bindings);
      FilterNeverUnbound(if keys.Some? then Fetch(table, keys.value, env) else env.scan(table), pred, bindings, None);
    case Join(outer, inner, outerColumn, binds) =>
      ClosedNeverUnbound(outer, env, bindings, None);
      var rows := Evaluate(outer, env, bindings, None);
      if rows.Ok? {
        JoinNeverUnbound(rows.value, inner, outerColumn, binds, env, bindings, budget);
      }
    case Filter(input, pred) =>
      ClosedNeverUnbound(input, env, bindings, None);
      var rows := Evaluate(input, env, bindings, None);
      if rows.Ok? {
        FilterNeverUnbound(rows.value, pred, bindings, budget);
      }
    case Project(input, _) => ClosedNeverUnbound(input, env, bindings, budget);
    case Sort(input, _) => ClosedNeverUnbound(input, env, bindings, None);
    case Limit(input, count, offset) =>
      ClosedNeverUnbound(input, env, bindings, Some(Tighten(RowsNeeded(offset, count), budget)));
    case GroupBy(input, _, _) => ClosedNeverUnbound(input, env, bindings, None);
  }

  lemma {:induction false} JoinNeverUnbound(rows: seq<Row>, inner: Plan, outerColumn: string, binds: string, env: Env,
                                            bindings: Bindings, budget: Option<nat>)
    requires Closed(inner, bindings.Keys + {binds})
    ensures !Unbound(EvaluateJoin(rows, inner, outerColumn, binds, env, bindings, budget))
    decreases inner, 1, |rows|
  {
    if rows != [] {
      var key := rows[0].Column(outerColumn);
      if key.None? {
        JoinNeverUnbound(rows[1..], inner, outerColumn, binds, env, bindings, budget);
      } else {
        var under := bindings[binds := key.value];
        assert under.Keys == bindings.Keys + {binds};
        ClosedNeverUnbound(inner, env, under, None);
        var matched := Evaluate(inner, env, under, None);
        if matched.Ok? {
          JoinNeverUnbound(rows[1..], inner, outerColumn, binds, env, bindings, Spend(budget, |matched.value|));
        }
      }
    }
  }

  /** The names a plan reads from its caller: what a join binds is bound on its inner side only. */
  function FreeNames(plan: Plan): set<string> {
    match plan
    case Scan(_) => {}
    case PointLookup(_, key) => Names(ExprParams(key))
    case IndexScan(_, _, pred) => Names(PredicateParams(pred))
    case Filter(input, pred) => FreeNames(input) + Names(PredicateParams(pred))
    case Project(input, _) => FreeNames(input)
    case Sort(input, _) => FreeNames(input)
    case Limit(input, _, _) => FreeNames(input)
    case GroupBy(input, _, _) => FreeNames(input)
    case Join(outer, inner, _, binds) => FreeNames(outer) + (FreeNames(inner) - {binds})
  }

  lemma {:induction false} ClosedExactly(plan: Plan, bound: set<string>)
    ensures Closed(plan, bound) <==> FreeNames(plan) <= bound
  {
    match plan
    case Filter(input, _) => ClosedExactly(input, bound);
    case Project(input, _) => ClosedExactly(input, bound);
    case Sort(input, _) => ClosedExactly(input, bound);
    case Limit(input, _, _) => ClosedExactly(input, bound);
    case GroupBy(input, _, _) => ClosedExactly(input, bound);
    case Join(outer, inner, _, binds) =>
      ClosedExactly(outer, bound);
      ClosedExactly(inner, bound + {binds});
    case _ =>
  }

  /** The names that the joins of a plan bind. */
  function Binders(plan: Plan): set<string> {
    match plan
    case Filter(input, _) => Binders(input)
    case Project(input, _) => Binders(input)
    case Sort(input, _) => Binders(input)
    case Limit(input, _, _) => Binders(input)
    case GroupBy(input, _, _) => Binders(input)
    case Join(outer, inner, _, binds) => Binders(outer) + Binders(inner) + {binds}
    case _ => {}
  }

  /** Collecting a plan's parameters drops what its joins bind from those collected before. */
  lemma {:induction false} CollectedNames(plan: Plan, out: seq<Needed>)
    ensures Names(Collected(plan, out)) == (Names(out) - Binders(plan)) + Names(Params(plan))
  {
    match plan
    case Scan(_) =>
    case PointLookup(_, key) =>
      NamesAppend(out, ExprParams(key));
      NamesAppend([], ExprParams(key));
    case IndexScan(_, _, pred) =>
      NamesAppend(out, PredicateParams(pred));
      NamesAppend([], PredicateParams(pred));
    case Filter(input, pred) =>
      CollectedNames(input, out);
      NamesAppend(Collected(input, out), PredicateParams(pred));
      NamesAppend(Params(input), PredicateParams(pred));
    case Project(input, _) => CollectedNames(input, out);
    case Sort(input, _) => CollectedNames(input, out);
    case Limit(input, _, _) => CollectedNames(input, out);
    case GroupBy(input, _, _) => CollectedNames(input, out);
    case Join(outer, inner, _, binds) =>
      CollectedNames(outer, out);
      CollectedNames(inner, Collected(outer, out));
      CollectedNames(inner, Params(outer));
      NamesWithout(Collected(inner, Collected(outer, out)), binds);
      NamesWithout(Collected(inner, Params(outer)), binds);
  }

  /** What a join reports: of its outer side's names those that no join of the inner side binds, and
      its inner side's names, except the name it binds itself. */
  lemma JoinReports(outer: Plan, inner: Plan, outerColumn: string, binds: string)
    ensures Names(Params(Join(outer, inner, outerColumn, binds)))
            == (Names(Params(outer)) - Binders(inner)) + Names(Params(inner)) - {binds}
  {
    CollectedNames(inner, Params(outer));
    NamesWithout(Collected(inner, Params(outer)), binds);
  }

  /** Nothing is reported that is not read. */
  lemma {:induction false} ReportedAreRead(plan: Plan)
    ensures Names(Params(plan)) <= FreeNames(plan)
  {
    match plan
    case PointLookup(_, key) => NamesAppend([], ExprParams(key));
    case IndexScan(_, _, pred) => NamesAppend([], PredicateParams(pred));
    case Filter(input, pred) =>
      NamesAppend(Params(input), PredicateParams(pred));
      ReportedAreRead(input);
    case Project(input, _) => ReportedAreRead(input);
    case Sort(input, _) => ReportedAreRead(input);
    case Limit(input, _, _) => ReportedAreRead(input);
    case GroupBy(input, _, _) => ReportedAreRead(input);
    case Join(outer, inner, outerColumn, binds) =>
      JoinReports(outer, inner, outerColumn, binds);
      ReportedAreRead(outer);
      ReportedAreRead(inner);
    case _ =>
  }

  /** Binding what a plan reports is enough to close it. */
  ghost predicate ReportSuffices(plan: Plan) {
    forall bound: set<string> :: Names(Params(plan)) <= bound ==> Closed(plan, bound)
  }

  /** What a plan reports is enough exactly when it reports every name it reads. */
  lemma ReportSufficesExactly(plan: Plan)
    ensures ReportSuffices(plan) <==> Names(Params(plan)) == FreeNames(plan)
  {
    ReportedAreRead(plan);
    if ReportSuffices(plan) {
      assert Closed(plan, Names(Params(plan)));
      ClosedExactly(plan, Names(Params(plan)));
    }
    if Names(Params(plan)) == FreeNames(plan) {
      forall bound: set<string> | Names(Params(plan)) <= bound ensures Closed(plan, bound) {
        ClosedExactly(plan, bound);
      }
    }
  }

  /** No join's outer side reads a name that the join, or one on its inner side, binds. */
  predicate Unshadowed(plan: Plan) {
    match plan
    case Filter(input, _) => Unshadowed(input)
    case Project(input, _) => Unshadowed(input)
    case Sort(input, _) => Unshadowed(input)
    case Limit(input, _, _) => Unshadowed(input)
    case GroupBy(input, _, _) => Unshadowed(input)
    case Join(outer, inner, _, binds) =>
      Unshadowed(outer) && Unshadowed(inner) && FreeNames(outer) !! Binders(inner) + {binds}
    case _ => true
  }

  /** So every plan without joins, and every one whose joins bind names of their own, reports exactly
      the names it reads. */
  lemma {:induction false} UnshadowedReportsAll(plan: Plan)
    requires Unshadowed(plan)
    ensures Names(Params(plan)) == FreeNames(plan)
  {
    match plan
    case PointLookup(_, key) => NamesAppend([], ExprParams(key));
    case IndexScan(_, _, pred) => NamesAppend([], PredicateParams(pred));
    case Filter(input, pred) =>
      NamesAppend(Params(input), PredicateParams(pred));
      UnshadowedReportsAll(input);
    case Project(input, _) => UnshadowedReportsAll(input);
    case Sort(input, _) => UnshadowedReportsAll(input);
    case Limit(input, _, _) => UnshadowedReportsAll(input);
    case GroupBy(input, _, _) => UnshadowedReportsAll(input);
    case Join(outer, inner, outerColumn, binds) =>
      JoinReports(outer, inner, outerColumn, binds);
      UnshadowedReportsAll(outer);
      UnshadowedReportsAll(inner);
    case _ =>
  }

  /** A value goes under a declared type if it is of that type, or null. */
  predicate Allowed(ty: ValueType, v: Value) {
    v.Null? || match ty
               case NullType => false
               case BoolType => v.Bool?
               case IntType => v.Int?
               case FloatType => v.Float?
               case TextType => v.Text?
               case BytesType => v.Bytes?
               case TimestampType => v.Timestamp?
               case ListType => v.List?
               case MapType => v.Map?
  }

  predicate Satisfied(n: Needed, bindings: Bindings) {
    n.name in bindings && (n.ty.Some? ==> Allowed(n.ty.value, bindings[n.name]))
  }

  /** The check passes exactly when every parameter asked for is bound to a value that its declared
      type, if it has one, allows; otherwise it names the first for which that is not so, with the type
      declared and the one given. */
  lemma {:induction false} CheckPassesExactly(needed: seq<Needed>, bindings: Bindings)
    ensures var r := CheckBindings(needed, bindings);
            && (r.Ok? <==> forall i :: 0 <= i < |needed| ==> Satisfied(needed[i], bindings))
            && (forall i :: 0 <= i < |needed| && !Satisfied(needed[i], bindings)
                            && (forall j :: 0 <= j < i ==> Satisfied(needed[j], bindings)) ==>
                  var n := needed[i];
                  && r.Err?
                  && if n.name !in bindings then r.error == UnboundParameter(n.name)
                     else r.error.ParameterType? && r.error.name == n.name && n.ty == Some(r.error.declared)
                          && Allowed(r.error.actual, bindings[n.name]))
  {
    if needed != [] {
      CheckPassesExactly(needed[1..], bindings);
      forall i | 1 <= i < |needed| ensures needed[i] == needed[1..][i - 1] {}
    }
  }

  lemma {:induction false} CheckedNamesAreBound(needed: seq<Needed>, bindings: Bindings)
    requires CheckBindings(needed, bindings).Ok?
    ensures Names(needed) <= bindings.Keys
    ensures forall n :: n in needed && n.ty.Some? ==> n.name in bindings && Accepts(n.ty.value, bindings[n.name])
  {
    if needed != [] {
      CheckedNamesAreBound(needed[1..], bindings);
      assert needed == [needed[0]] + needed[1..];
      NamesAppend([needed[0]], needed[1..]);
    }
  }

  /** Once the check has passed, no row can meet an unbound parameter, if all that are read are reported. */
  lemma CheckedPlanNeverUnbound(plan: Plan, env: Env, bindings: Bindings, budget: Option<nat>)
    requires Names(Params(plan)) == FreeNames(plan) && CheckBindings(Params(plan), bindings).Ok?
    ensures !Unbound(Evaluate(plan, env, bindings, budget))
  {
    CheckedNamesAreBound(Params(plan), bindings);
    ClosedExactly(plan, bindings.Keys);
    ClosedNeverUnbound(plan, env, bindings, budget);
  }

  /** What a join asks of its caller is enough, when it is for both sides, exactly when the outer side
      does not itself read the name the join binds, nor, unless the inner side asks for it too, one that
      a join on the inner side binds. */
  lemma JoinParametersSufficeExactly(outer: Plan, inner: Plan, outerColumn: string, binds: string)
    requires ReportSuffices(outer) && ReportSuffices(inner)
    ensures ReportSuffices(Join(outer, inner, outerColumn, binds))
            <==> binds !in Names(Params(outer)) && Names(Params(outer)) * Binders(inner) <= Names(Params(inner))
  {
    ReportSufficesExactly(outer);
    ReportSufficesExactly(inner);
    ReportSufficesExactly(Join(outer, inner, outerColumn, binds));
    JoinReports(outer, inner, outerColumn, binds);
  }

  /** A join whose outer side reads the join's own name passes the check with nothing bound
      and then fails on it. */
  lemma ShadowedParameterFailsHalfWay(env: Env)
    ensures var plan := Join(PointLookup("t", Param("x", None)), Scan("u"), "c", "x");
            && CheckBindings(Params(plan), map[]).Ok?
            && Execute(plan, env, map[]) == Err(UnboundParameter("x"))
  {
    var outer: Plan := PointLookup("t", Param("x", None));
    var plan := Join(outer, Scan("u"), "c", "x");
    assert Params(outer) == [] + [Needed("x", None)] == [Needed("x", None)];
    assert Collected(Scan("u"), Params(outer)) == Params(outer);
    assert Without([Needed("x", None)], "x") == Without([], "x") == [];
    assert Params(plan) == [];
    assert Evaluate(outer, env, map[], None) == Err(UnboundParameter("x"));
  }

  /** So does one whose inner side has a join that binds a name the outer side reads. */
  lemma DistantJoinShadowsToo(env: Env)
    ensures var within := Join(Scan("u"), Scan("v"), "c", "x");
            var plan := Join(PointLookup("t", Param("x", None)), within, "c", "y");
            && CheckBindings(Params(plan), map[]).Ok?
            && Execute(plan, env, map[]) == Err(UnboundParameter("x"))
  {
    var outer, within: Plan := PointLookup("t", Param("x", None)), Join(Scan("u"), Scan("v"), "c", "x");
    assert Params(outer) == [] + [Needed("x", None)] == [Needed("x", None)];
    assert Collected(Scan("v"), Collected(Scan("u"), Params(outer))) == Params(outer);
    assert Without([Needed("x", None)], "x") == Without([], "x") == [];
    assert Collected(within, Params(outer)) == [];
    assert Evaluate(outer, env, map[], None) == Err(UnboundParameter("x"));
  }
}
