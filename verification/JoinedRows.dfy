/** What a join returns: which rows, in which order, and with which fields. */
module JoinedRows {
  import opened Prelude
  import opened Values
  import opened Plans
  import opened Exec

  /** What one side of a join brings under a name.  A value that is not a map has one name, the side's own. */
  function Brought(side: Value, own: string, name: string): Option<Value> {
    if side.Map? then
      if name in side.fields then Some(side.fields[name]) else None
    else if name == own then Some(side)
    else None
  }

  /** A row about the outer entity with the fields of both and no others, the inner winning a collision. */
  ghost predicate Joined(row: Row, outer: Row, inner: Row) {
    && row.primaryKey == outer.primaryKey
    && row.value.Map?
    && forall name ::
         Brought(row.value, "", name)
         == if Brought(inner.value, "inner", name).Some? then Brought(inner.value, "inner", name)
            else Brought(outer.value, "outer", name)
  }

  lemma CombinationIsJoined(outer: Row, inner: Row)
    ensures Joined(Combine(outer, inner), outer, inner)
  {}

  /** The rows of the inner plan for one outer row, as a join asks for them: none without a key. */
  type Partners = Row -> Rows

  ghost function PartnersIn(inner: Plan, outerColumn: string, binds: string, env: Env, bindings: Bindings): Partners {
    (row: Row) =>
      var key := row.Column(outerColumn);
      if key.None? then Ok([]) else Denote(inner, env, bindings[binds := key.value])
  }

  /** How many rows the first `n` outer rows join into. */
  function JoinedBefore(rows: seq<Row>, n: nat, partners: Partners): nat
    requires n <= |rows|
  {
    if n == 0 then 0
    else (if partners(rows[0]).Ok? then |partners(rows[0]).value| else 0) + JoinedBefore(rows[1..], n - 1, partners)
  }

  /** The `k`th row of a join comes from the `a`th outer row and the `b`th of its partners. */
  ghost predicate IsPairOf(row: Row, k: int, rows: seq<Row>, a: int, b: int, partners: Partners) {
    && 0 <= a < |rows|
    && partners(rows[a]).Ok?
    && 0 <= b < |partners(rows[a]).value|
    && k == JoinedBefore(rows, a, partners) + b
    && Joined(row, rows[a], partners(rows[a]).value[b])
  }

  /** Every outer row with each of its partners, in the order of both; the first failure is the result. */
  function Paired(rows: seq<Row>, partners: Partners): Rows {
    if rows == [] then Ok([])
    else
      var first :- partners(rows[0]);
      var rest :- Paired(rows[1..], partners);
      Ok(CombineAll(rows[0], first) + rest)
  }

  lemma {:induction false} JoinIsPaired(rows: seq<Row>, inner: Plan, outerColumn: string, binds: string, env: Env,
                                        bindings: Bindings)
    ensures DenoteJoin(rows, inner, outerColumn, binds, env, bindings)
            == Paired(rows, PartnersIn(inner, outerColumn, binds, env, bindings))
  {
    if rows != [] {
      JoinIsPaired(rows[1..], inner, outerColumn, binds, env, bindings);
      var rest := DenoteJoin(rows[1..], inner, outerColumn, binds, env, bindings);
      if rows[0].Column(outerColumn).None? && rest.Ok? {
        assert CombineAll(rows[0], []) + rest.value == rest.value;
      }
    }
  }

  /** The meaning of a join: the rows of its outer plan, each with its partners. */
  lemma JoinMeaning(outer: Plan, inner: Plan, outerColumn: string, binds: string, env: Env, bindings: Bindings)
    ensures var rows := Denote(outer, env, bindings);
            Denote(Join(outer, inner, outerColumn, binds), env, bindings)
            == if rows.Err? then rows else Paired(rows.value, PartnersIn(inner, outerColumn, binds, env, bindings))
  {
    var rows := Denote(outer, env, bindings);
    if rows.Ok? {
      JoinIsPaired(rows.value, inner, outerColumn, binds, env, bindings);
    }
  }

  /** A join fails exactly when the inner plan fails for an outer row with a key, and then as it does
      for the first of these. */
  lemma {:induction false} JoinFailsExactly(rows: seq<Row>, partners: Partners)
    ensures Paired(rows, partners).Ok? <==> forall i :: 0 <= i < |rows| ==> partners(rows[i]).Ok?
    ensures forall i :: 0 <= i < |rows| && partners(rows[i]).Err?
                        && (forall j :: 0 <= j < i ==> partners(rows[j]).Ok?) ==>
              Paired(rows, partners) == partners(rows[i])
  {
    if rows != [] {
      JoinFailsExactly(rows[1..], partners);
      forall i | 1 <= i < |rows| ensures rows[i] == rows[1..][i - 1] {}
    }
  }

  /** Every outer row is joined with each of its partners, right after all pairs of earlier outer rows
      and those of this one with earlier partners. */
  lemma {:induction false} EveryPairIsJoined(rows: seq<Row>, partners: Partners, a: nat, b: nat)
    requires Paired(rows, partners).Ok? && a < |rows| && partners(rows[a]).Ok? && b < |partners(rows[a]).value|
    ensures var k := JoinedBefore(rows, a, partners) + b;
            k < |Paired(rows, partners).value| && IsPairOf(Paired(rows, partners).value[k], k, rows, a, b, partners)
  {
    if a == 0 {
      CombinationIsJoined(rows[0], partners(rows[0]).value[b]);
    } else {
      EveryPairIsJoined(rows[1..], partners, a - 1, b);
    }
  }

  /** And every row of a join comes about so. */
  lemma {:induction false} EveryJoinedRowIsAPair(rows: seq<Row>, partners: Partners, k: nat) returns (a: nat, b: nat)
    requires Paired(rows, partners).Ok? && k < |Paired(rows, partners).value|
    ensures IsPairOf(Paired(rows, partners).value[k], k, rows, a, b, partners)
  {
    var first := partners(rows[0]).value;
    if k < |first| {
      a, b := 0, k;
      CombinationIsJoined(rows[0], first[b]);
    } else {
      a, b := EveryJoinedRowIsAPair(rows[1..], partners, k - |first|);
      a := a + 1;
      assert rows[1..][a - 1] == rows[a];
    }
  }

  /** A joined row goes under its outer row's key, and each of its columns is the inner row's where
      that has it and otherwise the outer row's. */
  lemma JoinedColumns(row: Row, outer: Row, inner: Row, name: string)
    requires Joined(row, outer, inner) && outer.value.Map? && inner.value.Map? && name != KEY_COLUMN
    ensures row.Column(KEY_COLUMN) == Some(Text(outer.primaryKey))
    ensures row.Column(name) == if inner.Column(name).Some? then inner.Column(name) else outer.Column(name)
  {
    assert Brought(row.value, "", name) == row.Column(name);
  }
}
