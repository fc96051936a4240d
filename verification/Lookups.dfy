/** Rows by key and by index: what a lookup returns, and which keys a predicate is answered with. */
module Lookups {
  import opened Prelude
  import opened Strings
  import opened Values
  import opened IndexKeys
  import opened Plans
  import opened Exec
  import opened Refinement

  /** A lookup by key returns what filtering a scan by that key does. */
  lemma PointLookupIsFilteredScan(table: string, key: Expr, env: Env, bindings: Bindings)
    requires WellKeyed(table, env) && Resolve(key, bindings).Ok?
    ensures var named := Literal(Text(KeyText(Resolve(key, bindings).value, env)));
            Denote(PointLookup(table, key), env, bindings)
            == Denote(Filter(Scan(table), Compare(OpEq, KEY_COLUMN, named)), env, bindings)
  {
    var text := KeyText(Resolve(key, bindings).value, env);
    var same := Compare(OpEq, KEY_COLUMN, Literal(Text(text)));
    var all, found := env.scan(table), LookupRows(table, text, env);
    forall r ensures Matches(r, same, bindings) == Ok(r.primaryKey == text) {
      CompareStringTotal(r.primaryKey, text, r.primaryKey);
    }
    FilterMembers(all, same, bindings);
    FilterKeepsOrder(all, same, bindings);
    var kept := FilterRows(all, same, bindings, None).value;
    forall r ensures r in kept <==> r in found {
      if r in found {
        assert r == Row(text, env.row(table, text).value);
      }
    }
    AscendingRowsUnique(kept, found);
    assert Denote(Scan(table), env, bindings) == Ok(all);
  }

  /** A conjunction is answered by the first of its terms that an index answers, and by none of them
      only if none can be. */
  lemma {:induction false} AndIsAnsweredByFirst(table: string, terms: seq<Predicate>, env: Env, bindings: Bindings)
    ensures var keys := Candidates(table, And(terms), env, bindings);
            && (keys.None? <==> forall i :: 0 <= i < |terms| ==> Candidates(table, terms[i], env, bindings).None?)
            && (forall i :: 0 <= i < |terms| && Candidates(table, terms[i], env, bindings).Some?
                            && (forall j :: 0 <= j < i ==> Candidates(table, terms[j], env, bindings).None?) ==>
                  keys == Candidates(table, terms[i], env, bindings))
  {
    if terms != [] {
      AndIsAnsweredByFirst(table, terms[1..], env, bindings);
      assert Candidates(table, And(terms[1..]), env, bindings) == FirstCandidates(table, terms[1..], env, bindings);
      forall i | 1 <= i < |terms| ensures terms[i] == terms[1..][i - 1] {}
    }
  }

  /** A disjunction is answered exactly when each of its terms is, by the keys of all of them in order. */
  lemma {:induction false} OrIsAnsweredByAll(table: string, terms: seq<Predicate>, env: Env, bindings: Bindings,
                                             key: string)
    ensures var keys := Candidates(table, Or(terms), env, bindings);
            && (keys.Some? <==> forall i :: 0 <= i < |terms| ==> Candidates(table, terms[i], env, bindings).Some?)
            && (keys.Some? ==>
                  && Ascending(keys.value)
                  && (key in keys.value <==>
                      exists i :: 0 <= i < |terms| && key in Candidates(table, terms[i], env, bindings).value))
  {
    UnionIsAnsweredByAll(table, terms, env, bindings, key);
    if UnionCandidates(table, terms, env, bindings).Some? {
      SortedKeysAscend(UnionCandidates(table, terms, env, bindings).value);
    }
  }

  lemma {:induction false} UnionIsAnsweredByAll(table: string, terms: seq<Predicate>, env: Env, bindings: Bindings,
                                                key: string)
    ensures var keys := UnionCandidates(table, terms, env, bindings);
            && (keys.Some? <==> forall i :: 0 <= i < |terms| ==> Candidates(table, terms[i], env, bindings).Some?)
            && (keys.Some? ==>
                  (key in keys.value <==>
                   exists i :: 0 <= i < |terms| && key in Candidates(table, terms[i], env, bindings).value))
  {
    if terms != [] {
      UnionIsAnsweredByAll(table, terms[1..], env, bindings, key);
      forall i | 1 <= i < |terms| ensures terms[i] == terms[1..][i - 1] {}
    }
  }

  /** An IN asks an index for the values of its operands, in their order, if all of them resolve, and
      for nothing otherwise. */
  lemma InAsksForAll(table: string, column: string, operands: seq<Expr>, values: seq<Value>, env: Env,
                     bindings: Bindings)
    ensures (forall i :: 0 <= i < |operands| ==> Resolve(operands[i], bindings).Ok?) && |values| == |operands|
            && (forall i :: 0 <= i < |operands| ==> Resolve(operands[i], bindings) == Ok(values[i])) ==>
              Candidates(table, In(column, operands), env, bindings) == env.candidates(table, column, AnyOf(values))
    ensures (exists i :: 0 <= i < |operands| && Resolve(operands[i], bindings).Err?) ==>
              Candidates(table, In(column, operands), env, bindings) == None
  {
    ResolvedExactly(operands, bindings);
    var resolved := ResolveAll(operands, bindings);
    if resolved.Some? && |values| == |operands|
      && forall i :: 0 <= i < |operands| ==> Resolve(operands[i], bindings) == Ok(values[i]) {
      assert resolved.value == values;
    }
  }

  lemma {:induction false} ResolvedExactly(operands: seq<Expr>, bindings: Bindings)
    ensures var resolved := ResolveAll(operands, bindings);
            && (resolved.Some? <==> forall i :: 0 <= i < |operands| ==> Resolve(operands[i], bindings).Ok?)
            && (resolved.Some? ==>
                  |resolved.value| == |operands|
                  && forall i :: 0 <= i < |operands| ==> Resolve(operands[i], bindings) == Ok(resolved.value[i]))
  {
    if operands != [] {
      ResolvedExactly(operands[1..], bindings);
      forall i | 1 <= i < |operands| ensures operands[i] == operands[1..][i - 1] {}
    }
  }
}
