/** Which rows a predicate selects, in terms of the order of values alone. */
module Predicates {
  import opened Prelude
  import opened Values
  import opened Plans
  import opened Exec

  // ----- comparisons -----

  /** Where a value compares with the operand exactly one of `<`, `=` and `>` holds and `!=` is the
      complement of `=`; where it does not, or the column is missing, none of the six holds.  So `!=`
      is not the negation of `=`, which holds wherever `=` does not. */
  lemma ComparisonsPartition(row: Row, column: string, operand: Expr, bindings: Bindings)
    requires Resolve(operand, bindings).Ok?
    ensures var holds := op => Matches(row, Compare(op, column, operand), bindings) == Ok(true);
            var cell, right := row.Column(column), Resolve(operand, bindings).value;
            var comparable := cell.Some? && CompareValues(cell.value, right).Some?;
            && (holds(OpLt) <==> comparable && CompareValues(cell.value, right).value == Less)
            && (holds(OpEq) <==> comparable && CompareValues(cell.value, right).value == Equal)
            && (holds(OpGt) <==> comparable && CompareValues(cell.value, right).value == Greater)
            && (holds(OpNe) <==> comparable && CompareValues(cell.value, right).value != Equal)
            && (holds(OpLte) <==> holds(OpLt) || holds(OpEq))
            && (holds(OpGte) <==> holds(OpGt) || holds(OpEq))
            && (comparable <==> holds(OpLt) || holds(OpEq) || holds(OpGt))
            && (forall op :: Matches(row, Compare(op, column, operand), bindings) == Ok(holds(op)))
  {}

  lemma IsNullExactly(row: Row, column: string, bindings: Bindings)
    ensures Matches(row, IsNull(column), bindings)
            == Ok(row.Column(column) == None || row.Column(column) == Some(Value.Null))
  {}

  // ----- conjunctions, disjunctions and lists of alternatives -----

  /** A conjunction holds when all its terms do; otherwise the first term that does not hold
      decides, by being false or by failing. */
  lemma {:induction false} AndExactly(row: Row, terms: seq<Predicate>, bindings: Bindings)
    ensures var verdict := Matches(row, And(terms), bindings);
            && (verdict == Ok(true) <==>
                forall i :: 0 <= i < |terms| ==> Matches(row, terms[i], bindings) == Ok(true))
            && (forall i :: 0 <= i < |terms| && Matches(row, terms[i], bindings) != Ok(true)
                            && (forall j :: 0 <= j < i ==> Matches(row, terms[j], bindings) == Ok(true)) ==>
                  verdict == Matches(row, terms[i], bindings))
  {
    if terms != [] {
      AndExactly(row, terms[1..], bindings);
      forall i | 1 <= i < |terms| ensures terms[i] == terms[1..][i - 1] {}
    }
  }

  /** A disjunction fails to hold when all its terms do; otherwise the first term that is not false
      decides, by being true or by failing. */
  lemma {:induction false} OrExactly(row: Row, terms: seq<Predicate>, bindings: Bindings)
    ensures var verdict := Matches(row, Or(terms), bindings);
            && (verdict == Ok(false) <==>
                forall i :: 0 <= i < |terms| ==> Matches(row, terms[i], bindings) == Ok(false))
            && (forall i :: 0 <= i < |terms| && Matches(row, terms[i], bindings) != Ok(false)
                            && (forall j :: 0 <= j < i ==> Matches(row, terms[j], bindings) == Ok(false)) ==>
                  verdict == Matches(row, terms[i], bindings))
  {
    if terms != [] {
      OrExactly(row, terms[1..], bindings);
      forall i | 1 <= i < |terms| ensures terms[i] == terms[1..][i - 1] {}
    }
  }

  function Equalities(column: string, operands: seq<Expr>): seq<Predicate> {
    seq(|operands|, i requires 0 <= i < |operands| => Compare(OpEq, column, operands[i]))
  }

  /** An IN is the disjunction of its equalities, failures included. */
  lemma {:induction false} InIsAnyEquality(row: Row, column: string, operands: seq<Expr>, bindings: Bindings)
    ensures Matches(row, In(column, operands), bindings) == Matches(row, Or(Equalities(column, operands)), bindings)
  {
    if operands != [] {
      InIsAnyEquality(row, column, operands[1..], bindings);
      var all := Equalities(column, operands);
      assert all[0] == Compare(OpEq, column, operands[0]) && all[1..] == Equalities(column, operands[1..]);
      assert Matches(row, all[0], bindings).Ok? <==> Resolve(operands[0], bindings).Ok?;
    }
  }

  /** A negation holds exactly where its term is false, and fails where it fails. */
  lemma NotIsComplement(row: Row, p: Predicate, bindings: Bindings)
    ensures Matches(row, Not(p), bindings) == Ok(true) <==> Matches(row, p, bindings) == Ok(false)
    ensures Matches(row, Not(p), bindings).Err? <==> Matches(row, p, bindings).Err?
    ensures Matches(row, Not(Not(p)), bindings) == Matches(row, p, bindings)
  {}

  function Negations(terms: seq<Predicate>): seq<Predicate> {
    seq(|terms|, i requires 0 <= i < |terms| => Not(terms[i]))
  }

  lemma {:induction false} NoneOfAnyIsAll(row: Row, terms: seq<Predicate>, bindings: Bindings)
    ensures var any, none := MatchesAny(row, terms, bindings), MatchesAll(row, Negations(terms), bindings);
            if any.Ok? then none == Ok(!any.value) else none == any
  {
    if terms != [] {
      NoneOfAnyIsAll(row, terms[1..], bindings);
      assert Negations(terms)[0] == Not(terms[0]) && Negations(terms)[1..] == Negations(terms[1..]);
      NotIsComplement(row, terms[0], bindings);
    }
  }

  /** Negating a disjunction is conjoining the negations, with the same term failing if one does. */
  lemma NegatedOrIsAnd(row: Row, terms: seq<Predicate>, bindings: Bindings)
    ensures Matches(row, Not(Or(terms)), bindings) == Matches(row, And(Negations(terms)), bindings)
  {
    NoneOfAnyIsAll(row, terms, bindings);
    assert Matches(row, Or(terms), bindings) == MatchesAny(row, terms, bindings);
  }

  // ----- parameters -----

  /** An expression with its bound parameter written in place. */
  function Written(e: Expr, bindings: Bindings): Expr {
    if e.Param? && e.name in bindings then Literal(bindings[e.name]) else e
  }

  function WrittenAll(es: seq<Expr>, bindings: Bindings): seq<Expr> {
    seq(|es|, i requires 0 <= i < |es| => Written(es[i], bindings))
  }

  function WrittenIn(p: Predicate, bindings: Bindings): Predicate {
    match p
    case Compare(op, column, operand) => Compare(op, column, Written(operand, bindings))
    case In(column, operands) => In(column, WrittenAll(operands, bindings))
    case And(terms) => And(seq(|terms|, i requires 0 <= i < |terms| => WrittenIn(terms[i], bindings)))
    case Or(terms) => Or(seq(|terms|, i requires 0 <= i < |terms| => WrittenIn(terms[i], bindings)))
    case Not(inner) => Not(WrittenIn(inner, bindings))
    case _ => p
  }

  /** A parameter stands for the value bound to it and nothing else: a predicate judges every row as
      it does with the values written in place, and fails on the same unbound parameter. */
  lemma {:induction false} ParametersStandForValues(row: Row, p: Predicate, bindings: Bindings)
    ensures Matches(row, p, bindings) == Matches(row, WrittenIn(p, bindings), map[])
    decreases p, 1
  {
    match p
    case In(column, operands) => OperandsStandForValues(row, column, operands, bindings);
    case And(terms) => TermsStandForValues(row, terms, bindings);
    case Or(terms) => TermsStandForValues(row, terms, bindings);
    case Not(inner) => ParametersStandForValues(row, inner, bindings);
    case _ =>
  }

  lemma {:induction false} OperandsStandForValues(row: Row, column: string, operands: seq<Expr>, bindings: Bindings)
    ensures MatchesIn(row.Column(column), operands, bindings)
            == MatchesIn(row.Column(column), WrittenAll(operands, bindings), map[])
  {
    if operands != [] {
      OperandsStandForValues(row, column, operands[1..], bindings);
      assert WrittenAll(operands, bindings)[1..] == WrittenAll(operands[1..], bindings);
    }
  }

  lemma {:induction false} TermsStandForValues(row: Row, terms: seq<Predicate>, bindings: Bindings)
    ensures var written := seq(|terms|, i requires 0 <= i < |terms| => WrittenIn(terms[i], bindings));
            && MatchesAll(row, terms, bindings) == MatchesAll(row, written, map[])
            && MatchesAny(row, terms, bindings) == MatchesAny(row, written, map[])
    decreases terms, 0
  {
    if terms != [] {
      ParametersStandForValues(row, terms[0], bindings);
      TermsStandForValues(row, terms[1..], bindings);
      assert seq(|terms|, i requires 0 <= i < |terms| => WrittenIn(terms[i], bindings))[1..]
        == seq(|terms[1..]|, i requires 0 <= i < |terms[1..]| => WrittenIn(terms[1..][i], bindings));
    }
  }
}
