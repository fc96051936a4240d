/** Comparing migrated rows against the source, and what a report without findings means. */
module Verifying {
  import opened Prelude
  import opened Values
  import opened Floats
  import opened Importing

  datatype Severity = Expected | Unexpected

  datatype Finding = Finding(severity: Severity, table: string, column: Option<string>, primaryKey: Option<string>)

  /** Rust's `==` on values: floats compare as numbers, at every depth. */
  predicate SameValue(a: Value, b: Value)
    decreases a
  {
    match a
    case Float(f) => b.Float? && PartialCompare(f, b.f) == Some(Equal)
    case List(items) =>
      b.List? && |items| == |b.items| && forall i :: 0 <= i < |items| ==> SameValue(items[i], b.items[i])
    case Map(fields) =>
      b.Map? && fields.Keys == b.fields.Keys && forall k :: k in fields ==> SameValue(fields[k], b.fields[k])
    case _ => a == b
  }

  predicate HoldsNaN(v: Value) {
    match v
    case Float(f) => IsNaN(f)
    case List(items) => exists i :: 0 <= i < |items| && HoldsNaN(items[i])
    case Map(fields) => exists k :: k in fields && HoldsNaN(fields[k])
    case _ => false
  }

  /** The value with every negative zero in it, at any depth, replaced by the positive one. */
  function Unsigned(v: Value): Value {
    match v
    case Float(f) => Float(if f == SignMagnitude(true, 0) then SignMagnitude(false, 0) else f)
    case List(items) => List(seq(|items|, i requires 0 <= i < |items| => Unsigned(items[i])))
    case Map(fields) => Map(map k | k in fields :: Unsigned(fields[k]))
    case _ => v
  }

  /** Neither value holds a NaN, and they differ at most in the signs of zeros. */
  predicate EqualUpToZeros(a: Value, b: Value) {
    !HoldsNaN(a) && !HoldsNaN(b) && Unsigned(a) == Unsigned(b)
  }

  /** The comparison equates exactly the values that differ at most in the signs of zeros, and
      nothing that holds a NaN. */
  lemma {:induction false} SameValueExactly(a: Value, b: Value)
    ensures SameValue(a, b) <==> EqualUpToZeros(a, b)
    decreases a
  {
    match a
    case List(items) =>
      if b.List? && |items| != |b.items| {
        assert |Unsigned(a).items| == |items| && |Unsigned(b).items| == |b.items|;
      } else if b.List? {
        forall i | 0 <= i < |items| ensures SameValue(items[i], b.items[i]) <==> EqualUpToZeros(items[i], b.items[i]) {
          SameValueExactly(items[i], b.items[i]);
        }
        ListsEqualExactly(items, b.items);
      }
    case Map(fields) =>
      if b.Map? && fields.Keys != b.fields.Keys {
        assert Unsigned(a).fields.Keys == fields.Keys && Unsigned(b).fields.Keys == b.fields.Keys;
      } else if b.Map? {
        forall k | k in fields ensures SameValue(fields[k], b.fields[k]) <==> EqualUpToZeros(fields[k], b.fields[k]) {
          SameValueExactly(fields[k], b.fields[k]);
        }
        MapsEqualExactly(fields, b.fields);
      }
    case _ =>
  }

  lemma ListsEqualExactly(a: seq<Value>, b: seq<Value>)
    requires |a| == |b|
    ensures EqualUpToZeros(List(a), List(b)) <==> forall i :: 0 <= i < |a| ==> EqualUpToZeros(a[i], b[i])
  {
    var x, y := Unsigned(List(a)).items, Unsigned(List(b)).items;
    assert forall i :: 0 <= i < |a| ==> x[i] == Unsigned(a[i]) && y[i] == Unsigned(b[i]);
  }

  lemma MapsEqualExactly(a: map<string, Value>, b: map<string, Value>)
    requires a.Keys == b.Keys
    ensures EqualUpToZeros(Map(a), Map(b)) <==> forall k :: k in a ==> EqualUpToZeros(a[k], b[k])
  {
    var x, y := Unsigned(Map(a)).fields, Unsigned(Map(b)).fields;
    assert forall k :: k in a ==> x[k] == Unsigned(a[k]) && y[k] == Unsigned(b[k]);
    assert x.Keys == a.Keys && y.Keys == b.Keys;
  }

  /** So a value equals itself exactly when there is no NaN in it. */
  lemma SameAsItselfExactly(v: Value)
    ensures SameValue(v, v) <==> !HoldsNaN(v)
  {
    SameValueExactly(v, v);
  }

  /** A field of a row; absent and null are the same. */
  function Field(row: Value, column: string): Value {
    if row.Map? && column in row.fields then row.fields[column] else Value.Null
  }

  predicate Agrees(column: ColumnPlan, expected: Value, actual: Value) {
    SameValue(Field(expected, column.targetName), Field(actual, column.targetName))
  }

  /** The row has a value of its own under a column: one that is there and not null. */
  predicate HasValue(row: Value, column: string) {
    row.Map? && column in row.fields && !row.fields[column].Null?
  }

  /** Either both rows have a value under a column and the two differ at most in the signs of zeros,
      or neither has one. */
  predicate EqualUnder(column: string, expected: Value, actual: Value) {
    && (HasValue(expected, column) <==> HasValue(actual, column))
    && (HasValue(expected, column) ==> EqualUpToZeros(expected.fields[column], actual.fields[column]))
  }

  lemma AgreesExactly(column: ColumnPlan, expected: Value, actual: Value)
    ensures Agrees(column, expected, actual) <==> EqualUnder(column.targetName, expected, actual)
  {
    SameValueExactly(Field(expected, column.targetName), Field(actual, column.targetName));
  }

  function ColumnSeverity(column: ColumnPlan): Severity {
    if column.lossy then Expected else Unexpected
  }

  /** The findings after the first `n` columns of a row were compared. */
  function AfterColumns(found: seq<Finding>, plan: TablePlan, primaryKey: string, expected: Value, actual: Value,
                        n: nat): seq<Finding>
    requires n <= |plan.columns|
  {
    if n == 0 then found
    else
      var before, column := AfterColumns(found, plan, primaryKey, expected, actual, n - 1), plan.columns[n - 1];
      if Agrees(column, expected, actual) then before
      else before + [Finding(ColumnSeverity(column), plan.sourceName, Some(column.sourceName), Some(primaryKey))]
  }

  function AfterRow(found: seq<Finding>, plan: TablePlan, primaryKey: string, expected: Value,
                    actual: Option<Value>): seq<Finding> {
    match actual
    case None => found + [Finding(Unexpected, plan.sourceName, None, Some(primaryKey))]
    case Some(value) => AfterColumns(found, plan, primaryKey, expected, value, |plan.columns|)
  }

  function AfterCount(found: seq<Finding>, table: string, source: nat, target: nat): seq<Finding> {
    if source != target then found + [Finding(Unexpected, table, None, None)] else found
  }

  /** No finding is unexpected. */
  predicate Clean(findings: seq<Finding>) {
    forall f :: f in findings ==> f.severity == Expected
  }

  lemma CleanPlus(found: seq<Finding>, f: Finding)
    ensures Clean(found + [f]) <==> Clean(found) && f.severity == Expected
  {
    assert forall g :: g in found + [f] <==> g in found || g == f;
  }

  class Report {
    var findings: seq<Finding>
    var rowsCompared: nat
    var tablesCompared: nat

    constructor ()
      ensures findings == [] && rowsCompared == 0 && tablesCompared == 0
    {
      findings, rowsCompared, tablesCompared := [], 0, 0;
    }

    predicate IsClean()
      reads this
    {
      Clean(findings)
    }

    method Flag(severity: Severity, table: string, column: Option<string>, primaryKey: Option<string>)
      modifies this`findings
      ensures findings == old(findings) + [Finding(severity, table, column, primaryKey)]
    {
      findings := findings + [Finding(severity, table, column, primaryKey)];
    }

    method VerifyRowCount(table: string, source: nat, target: nat)
      modifies this`findings
      ensures findings == AfterCount(old(findings), table, source, target)
    {
      if source != target {
        Flag(Unexpected, table, None, None);
      }
    }

    method CompareRow(plan: TablePlan, primaryKey: string, expected: Value, actual: Value)
      modifies this`findings
      ensures findings == AfterColumns(old(findings), plan, primaryKey, expected, actual, |plan.columns|)
    {
      for i := 0 to |plan.columns|
        invariant findings == AfterColumns(old(findings), plan, primaryKey, expected, actual, i)
      {
        var column := plan.columns[i];
        var want, got := Field(expected, column.targetName), Field(actual, column.targetName);
        if SameValue(want, got) {
          continue;
        }
        Flag(ColumnSeverity(column), plan.sourceName, Some(column.sourceName), Some(primaryKey));
      }
    }

    method VerifyRow(plan: TablePlan, primaryKey: string, expected: Value, actual: Option<Value>)
      modifies this`findings
      ensures findings == AfterRow(old(findings), plan, primaryKey, expected, actual)
    {
      if actual.None? {
        Flag(Unexpected, plan.sourceName, None, Some(primaryKey));
        return;
      }
      CompareRow(plan, primaryKey, expected, actual.value);
    }
  }

  // ----- what a row without unexpected findings means -----

  predicate ExactColumnsAgree(plan: TablePlan, expected: Value, actual: Value, n: nat)
    requires n <= |plan.columns|
  {
    n == 0 || (ExactColumnsAgree(plan, expected, actual, n - 1)
               && (plan.columns[n - 1].lossy || EqualUnder(plan.columns[n - 1].targetName, expected, actual)))
  }

  lemma {:induction false} ExactColumnsAgreeExactly(plan: TablePlan, expected: Value, actual: Value, n: nat)
    requires n <= |plan.columns|
    ensures ExactColumnsAgree(plan, expected, actual, n)
            <==> forall i :: 0 <= i < n && !plan.columns[i].lossy ==>
                               EqualUnder(plan.columns[i].targetName, expected, actual)
  {
    if n > 0 {
      ExactColumnsAgreeExactly(plan, expected, actual, n - 1);
    }
  }

  /** The row arrived, and every column mapped exactly has the value the source has. */
  predicate RowAgrees(plan: TablePlan, expected: Value, actual: Option<Value>) {
    actual.Some? && ExactColumnsAgree(plan, expected, actual.value, |plan.columns|)
  }

  lemma {:induction false} ColumnsCleanExactly(found: seq<Finding>, plan: TablePlan, primaryKey: string,
                                               expected: Value, actual: Value, n: nat)
    requires n <= |plan.columns|
    ensures Clean(AfterColumns(found, plan, primaryKey, expected, actual, n))
            <==> Clean(found) && ExactColumnsAgree(plan, expected, actual, n)
  {
    if n > 0 {
      var column := plan.columns[n - 1];
      AgreesExactly(column, expected, actual);
      ColumnsCleanExactly(found, plan, primaryKey, expected, actual, n - 1);
      CleanPlus(AfterColumns(found, plan, primaryKey, expected, actual, n - 1),
                Finding(ColumnSeverity(column), plan.sourceName, Some(column.sourceName), Some(primaryKey)));
    }
  }

  lemma {:induction false} ColumnsFoundExactly(found: seq<Finding>, plan: TablePlan, primaryKey: string,
                                               expected: Value, actual: Value, n: nat)
    requires n <= |plan.columns|
    ensures found <= AfterColumns(found, plan, primaryKey, expected, actual, n)
    ensures |AfterColumns(found, plan, primaryKey, expected, actual, n)| == |found|
            <==> forall i :: 0 <= i < n ==> EqualUnder(plan.columns[i].targetName, expected, actual)
  {
    if n > 0 {
      AgreesExactly(plan.columns[n - 1], expected, actual);
      ColumnsFoundExactly(found, plan, primaryKey, expected, actual, n - 1);
    }
  }

  /** Every difference in a column is reported, and only a difference in an exact column, or a
      missing row, is unexpected. */
  lemma RowCleanExactly(found: seq<Finding>, plan: TablePlan, primaryKey: string, expected: Value,
                        actual: Option<Value>)
    ensures Clean(AfterRow(found, plan, primaryKey, expected, actual))
            <==> Clean(found) && RowAgrees(plan, expected, actual)
    ensures RowAgrees(plan, expected, actual)
            <==> actual.Some? && forall i :: 0 <= i < |plan.columns| && !plan.columns[i].lossy ==>
                                   EqualUnder(plan.columns[i].targetName, expected, actual.value)
    ensures AfterRow(found, plan, primaryKey, expected, actual) == found
            <==> actual.Some? && forall i :: 0 <= i < |plan.columns| ==>
                                   EqualUnder(plan.columns[i].targetName, expected, actual.value)
  {
    CleanPlus(found, Finding(Unexpected, plan.sourceName, None, Some(primaryKey)));
    if actual.Some? {
      ColumnsCleanExactly(found, plan, primaryKey, expected, actual.value, |plan.columns|);
      ColumnsFoundExactly(found, plan, primaryKey, expected, actual.value, |plan.columns|);
      ExactColumnsAgreeExactly(plan, expected, actual.value, |plan.columns|);
    } else {
      assert |AfterRow(found, plan, primaryKey, expected, actual)| == |found| + 1;
    }
  }

  /** No exactly mapped column of a row holds a NaN. */
  predicate FreeOfNaN(plan: TablePlan, row: Value) {
    forall i :: 0 <= i < |plan.columns| && !plan.columns[i].lossy ==>
      var column := plan.columns[i].targetName;
      HasValue(row, column) ==> !HoldsNaN(row.fields[column])
  }

  /** A row agrees with itself exactly when no exactly mapped column of it holds a NaN. */
  lemma RowAgreesWithItselfExactly(plan: TablePlan, row: Value)
    ensures RowAgrees(plan, row, Some(row)) <==> FreeOfNaN(plan, row)
  {
    ExactColumnsAgreeExactly(plan, row, row, |plan.columns|);
  }
}
