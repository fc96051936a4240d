/** Which index the optimizer gives a filtered scan. */
module IndexChoice {
  import opened Prelude
  import opened Values
  import opened Plans
  import opened Exec
  import opened Optimizer

  /** The terms a predicate is the conjunction of, from left to right, conjunctions within it opened up. */
  function Conjuncts(p: Predicate): seq<Predicate>
    decreases p, 1
  {
    if p.And? then ConjunctsOfAll(p.terms) else [p]
  }

  function ConjunctsOfAll(terms: seq<Predicate>): seq<Predicate>
    decreases terms, 0
  {
    if terms == [] then [] else Conjuncts(terms[0]) + ConjunctsOfAll(terms[1..])
  }

  /** A comparison other than `!=`, or an IN, on a column that has an index. */
  predicate Indexed(p: Predicate, stats: Statistics, table: string) {
    && ((p.Compare? && p.op != OpNe) || p.In?)
    && table in stats && p.column in stats[table]
  }

  /** The first indexed term of a list. */
  function FirstIndexed(terms: seq<Predicate>, stats: Statistics, table: string): Option<string> {
    if terms == [] then None
    else if Indexed(terms[0], stats, table) then Some(stats[table][terms[0].column])
    else FirstIndexed(terms[1..], stats, table)
  }

  lemma {:induction false} FirstIndexedOfTwo(a: seq<Predicate>, b: seq<Predicate>, stats: Statistics, table: string)
    ensures var first := FirstIndexed(a, stats, table);
            FirstIndexed(a + b, stats, table) == if first.Some? then first else FirstIndexed(b, stats, table)
  {
    if a == [] {
      assert a + b == b;
    } else {
      assert (a + b)[1..] == a[1..] + b;
      FirstIndexedOfTwo(a[1..], b, stats, table);
    }
  }

  lemma {:induction false} FirstIndexedExactly(terms: seq<Predicate>, stats: Statistics, table: string)
    ensures FirstIndexed(terms, stats, table).None?
            <==> forall i :: 0 <= i < |terms| ==> !Indexed(terms[i], stats, table)
    ensures forall i :: 0 <= i < |terms| && Indexed(terms[i], stats, table)
                        && (forall j :: 0 <= j < i ==> !Indexed(terms[j], stats, table)) ==>
              FirstIndexed(terms, stats, table) == Some(stats[table][terms[i].column])
  {
    if terms != [] {
      FirstIndexedExactly(terms[1..], stats, table);
      forall i | 1 <= i < |terms| ensures terms[i] == terms[1..][i - 1] {}
    }
  }

  lemma {:induction false} IndexIsFirstOf(p: Predicate, stats: Statistics, table: string)
    ensures IndexFor(p, stats, table) == FirstIndexed(Conjuncts(p), stats, table)
    decreases p, 1
  {
    if p.And? {
      FirstIndexIsFirstOf(p.terms, stats, table);
    } else {
      assert [p][1..] == [];
    }
  }

  lemma {:induction false} FirstIndexIsFirstOf(terms: seq<Predicate>, stats: Statistics, table: string)
    ensures (if table in stats then FirstIndexFor(terms, stats, table) else None)
            == FirstIndexed(ConjunctsOfAll(terms), stats, table)
    decreases terms, 0
  {
    if terms != [] {
      IndexIsFirstOf(terms[0], stats, table);
      FirstIndexIsFirstOf(terms[1..], stats, table);
      FirstIndexedOfTwo(Conjuncts(terms[0]), ConjunctsOfAll(terms[1..]), stats, table);
    }
  }

  /** A filtered scan is given the index of its predicate's first indexed conjunct, and stays a scan
      exactly when no conjunct is indexed; so a disjunction or a negation never uses an index. */
  lemma SelectionExactly(table: string, p: Predicate, stats: Statistics, i: nat)
    ensures var chosen, terms := SelectIndexes(Filter(Scan(table), p), stats), Conjuncts(p);
            && (chosen == Filter(Scan(table), p) <==> forall j :: 0 <= j < |terms| ==> !Indexed(terms[j], stats, table))
            && (i < |terms| && Indexed(terms[i], stats, table)
                && (forall j :: 0 <= j < i ==> !Indexed(terms[j], stats, table)) ==>
                  chosen == IndexScan(table, stats[table][terms[i].column], p))
  {
    IndexIsFirstOf(p, stats, table);
    FirstIndexedExactly(Conjuncts(p), stats, table);
    assert SelectIndexes(Scan(table), stats) == Scan(table);
  }
}
