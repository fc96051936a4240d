/** What a migration achieves: completeness, re-runs, and what its report is worth. */
module MigrationResults {
  import opened Prelude
  import opened Values
  import opened Addresses
  import opened Importing
  import opened Verifying
  import opened Migration
  import Joining

  // ----- re-running -----

  /** The value a sequence of writes leaves under a key, if it writes the key at all. */
  function LastWrite(puts: seq<Put>, key: string): Option<Value> {
    if puts == [] then None
    else if puts[|puts| - 1].key == key then Some(puts[|puts| - 1].value)
    else LastWrite(puts[..|puts| - 1], key)
  }

  lemma {:induction false} ApplyReads(rows: Rows, puts: seq<Put>, key: string)
    ensures Lookup(Apply(rows, puts), key)
            == if LastWrite(puts, key).Some? then LastWrite(puts, key) else Lookup(rows, key)
  {
    if puts != [] {
      ApplyReads(rows, puts[..|puts| - 1], key);
    }
  }

  lemma {:induction false} LastWriteIsWrite(puts: seq<Put>, key: string)
    ensures LastWrite(puts, key).Some? <==> exists i :: 0 <= i < |puts| && puts[i].key == key
    ensures LastWrite(puts, key).Some? ==>
            exists i :: 0 <= i < |puts| && puts[i] == Put(key, LastWrite(puts, key).value)
  {
    if puts != [] {
      var shorter := puts[..|puts| - 1];
      LastWriteIsWrite(shorter, key);
      assert forall i :: 0 <= i < |shorter| ==> puts[i] == shorter[i];
    }
  }

  lemma SameRows(a: Rows, b: Rows)
    requires forall key :: Lookup(a, key) == Lookup(b, key)
    ensures a == b
  {
    forall key ensures key in a <==> key in b {
      assert Lookup(a, key) == Lookup(b, key);
    }
    forall key | key in a ensures a[key] == b[key] {
      assert Lookup(a, key) == Lookup(b, key);
    }
  }

  ghost function Concat(attempts: seq<seq<Put>>): seq<Put> {
    if attempts == [] then [] else attempts[0] + Concat(attempts[1..])
  }

  lemma {:induction false} ConcatMembers(attempts: seq<seq<Put>>, puts: seq<Put>, p: Put)
    requires forall i :: 0 <= i < |attempts| ==> attempts[i] <= puts
    requires p in Concat(attempts)
    ensures p in puts
  {
    if p in attempts[0] {
      var i :| 0 <= i < |attempts[0]| && attempts[0][i] == p;
      assert puts[i] == p;
    } else {
      forall i | 0 <= i < |attempts[1..]| ensures attempts[1..][i] <= puts {
        assert attempts[1..][i] == attempts[i + 1];
      }
      ConcatMembers(attempts[1..], puts, p);
    }
  }

  /** However many runs were cut short, and wherever, one complete run afterwards reaches the
      target that an uninterrupted run would have reached. */
  lemma InterruptedRunsAddNothing(rows: Rows, attempts: seq<seq<Put>>, puts: seq<Put>)
    requires forall i :: 0 <= i < |attempts| ==> attempts[i] <= puts
    ensures Apply(Apply(rows, Concat(attempts)), puts) == Apply(rows, puts)
  {
    var before := Concat(attempts);
    forall key ensures Lookup(Apply(Apply(rows, before), puts), key) == Lookup(Apply(rows, puts), key) {
      ApplyReads(Apply(rows, before), puts, key);
      ApplyReads(rows, puts, key);
      ApplyReads(rows, before, key);
      LastWriteIsWrite(puts, key);
      LastWriteIsWrite(before, key);
      if LastWrite(before, key).Some? {
        var i :| 0 <= i < |before| && before[i].key == key;
        ConcatMembers(attempts, puts, before[i]);
      }
    }
    SameRows(Apply(Apply(rows, before), puts), Apply(rows, puts));
  }

  /** What is read back under a written key is some write to that key. */
  lemma ReadBackIsAWrite(rows: Rows, puts: seq<Put>, i: nat) returns (j: nat)
    requires i < |puts|
    ensures j < |puts| && puts[j].key == puts[i].key && Lookup(Apply(rows, puts), puts[i].key) == Some(puts[j].value)
  {
    ApplyReads(rows, puts, puts[i].key);
    LastWriteIsWrite(puts, puts[i].key);
    j :| 0 <= j < |puts| && puts[j] == Put(puts[i].key, LastWrite(puts, puts[i].key).value);
  }

  ghost predicate Lands(rows: Rows, puts: seq<Put>, i: nat)
    requires i < |puts|
  {
    Lookup(Apply(rows, puts), puts[i].key) == Some(puts[i].value)
  }

  /** No two writes disagree about a key. */
  predicate Consistent(puts: seq<Put>) {
    forall i, j :: 0 <= i < |puts| && 0 <= j < |puts| && puts[i].key == puts[j].key ==> puts[i].value == puts[j].value
  }

  /** Every write can be read back in the end exactly when no two of them disagree about a key. */
  lemma EveryWriteLandsExactly(rows: Rows, puts: seq<Put>)
    ensures (forall i :: 0 <= i < |puts| ==> Lands(rows, puts, i)) <==> Consistent(puts)
  {
    if Consistent(puts) {
      forall i | 0 <= i < |puts| ensures Lands(rows, puts, i) {
        var j := ReadBackIsAWrite(rows, puts, i);
      }
    }
    if forall i :: 0 <= i < |puts| ==> Lands(rows, puts, i) {
      forall i, j | 0 <= i < |puts| && 0 <= j < |puts| && puts[i].key == puts[j].key
        ensures puts[i].value == puts[j].value
      {
        assert Lands(rows, puts, i) && Lands(rows, puts, j);
      }
    }
  }

  // ----- keys apart -----

  /** Table names differ and have no colon, and no part of a composite key has U+001F. */
  ghost predicate Apart(tables: seq<Table>) {
    && (forall i :: 0 <= i < |tables| ==> ':' !in tables[i].plan.targetName)
    && (forall i, j :: 0 <= i < j < |tables| ==> tables[i].plan.targetName != tables[j].plan.targetName)
    && (forall i, j :: 0 <= i < |tables| && 0 <= j < |tables[i].rows| ==>
          tables[i].plan.keyArity <= 1 || Joining.Free(tables[i].rows[j].key, UNIT_SEPARATOR))
  }

  predicate Distinct(puts: seq<Put>) {
    forall i, j :: 0 <= i < j < |puts| ==> puts[i].key != puts[j].key
  }

  /** Two rows of a table have different rendered keys. */
  lemma RowsApart(t: Table, i: nat, j: nat)
    requires Sound(t) && i < j < |t.rows|
    requires t.plan.keyArity <= 1 || Joining.Free(t.rows[i].key, UNIT_SEPARATOR)
    ensures RenderKey(t.rows[i].key) != RenderKey(t.rows[j].key)
  {
    Joining.JoinIdentifiesExactly(t.rows[i].key, UNIT_SEPARATOR);
    KeysCompareAsPositions(t.rows, t.less, |t.rows|, i, j);
    KeysCompareAsPositions(t.rows, t.less, |t.rows|, j, j);
  }

  lemma TablePutsAre(t: Table, parse: Parser)
    requires Sound(t)
    ensures |TablePuts(t, parse)| == |TableRows(t, parse)| <= |t.rows|
    ensures forall i :: 0 <= i < |TablePuts(t, parse)| ==>
              Imported(t.plan, t.rows[i], parse).Ok?
              && TablePuts(t, parse)[i]
                 == Put(RowKey(t.plan.targetName, RenderKey(t.rows[i].key)),
                    Imported(t.plan, t.rows[i], parse).value.value)
  {
    TableRowsAre(t, parse);
    PutsOfAre(t.plan, TableRows(t, parse));
  }

  lemma TableDistinct(tables: seq<Table>, k: nat, parse: Parser)
    requires AllSound(tables) && Apart(tables) && k < |tables|
    ensures Distinct(TablePuts(tables[k], parse))
  {
    var t, puts := tables[k], TablePuts(tables[k], parse);
    TablePutsAre(t, parse);
    forall i, j | 0 <= i < j < |puts| ensures puts[i].key != puts[j].key {
      RowsApart(t, i, j);
      if puts[i].key == puts[j].key {
        RowKeysApart(t.plan.targetName, RenderKey(t.rows[i].key), t.plan.targetName, RenderKey(t.rows[j].key));
      }
    }
  }

  /** Each write is that of some row of some table. */
  lemma {:induction false} WritesComeFromRows(tables: seq<Table>, k: nat, batchSize: nat, parse: Parser, p: Put)
    requires AllSound(tables) && k <= |tables| && p in WritesFrom(tables, k, batchSize, parse)
    ensures exists i, j :: k <= i < |tables| && 0 <= j < |TablePuts(tables[i], parse)|
                           && TablePuts(tables[i], parse)[j] == p
    decreases |tables| - k
  {
    if p !in TablePuts(tables[k], parse) {
      WritesComeFromRows(tables, k + 1, batchSize, parse, p);
    }
  }

  lemma {:induction false} WritesDistinct(tables: seq<Table>, k: nat, batchSize: nat, parse: Parser)
    requires AllSound(tables) && Apart(tables) && k <= |tables|
    ensures Distinct(WritesFrom(tables, k, batchSize, parse))
    decreases |tables| - k
  {
    if k < |tables| {
      WritesDistinct(tables, k + 1, batchSize, parse);
      TableDistinct(tables, k, parse);
      var first, rest := TablePuts(tables[k], parse), WritesFrom(tables, k + 1, batchSize, parse);
      forall i, j | 0 <= i < |first| && 0 <= j < |rest| ensures first[i].key != rest[j].key {
        OtherTable(tables, k, i, batchSize, parse, rest[j]);
      }
    }
  }

  lemma OtherTable(tables: seq<Table>, k: nat, i: nat, batchSize: nat, parse: Parser, p: Put)
    requires AllSound(tables) && Apart(tables) && k < |tables| && i < |TablePuts(tables[k], parse)|
    requires p in WritesFrom(tables, k + 1, batchSize, parse)
    ensures TablePuts(tables[k], parse)[i].key != p.key
  {
    WritesComeFromRows(tables, k + 1, batchSize, parse, p);
    var l, j :| k + 1 <= l < |tables| && 0 <= j < |TablePuts(tables[l], parse)| && TablePuts(tables[l], parse)[j] == p;
    TablePutsAre(tables[k], parse);
    TablePutsAre(tables[l], parse);
    var t, u := tables[k].plan.targetName, tables[l].plan.targetName;
    if RowKey(t, RenderKey(tables[k].rows[i].key)) == RowKey(u, RenderKey(tables[l].rows[j].key)) {
      RowKeysApart(t, RenderKey(tables[k].rows[i].key), u, RenderKey(tables[l].rows[j].key));
    }
  }

  // ----- completeness -----

  /** The writes from a readable table on: its own, then those of the tables after it. */
  lemma WritesStep(tables: seq<Table>, k: nat, batchSize: nat, parse: Parser)
    requires AllSound(tables) && AllReadable(tables, parse) && k < |tables| && batchSize >= 1
    ensures Readable(tables[k], parse)
    ensures |WritesFrom(tables, k, batchSize, parse)|
            == |tables[k].rows| + |WritesFrom(tables, k + 1, batchSize, parse)|
  {
    ReadableTable(tables, |tables|, k, parse);
    TableRowsAre(tables[k], parse);
    var first, rest := TablePuts(tables[k], parse), WritesFrom(tables, k + 1, batchSize, parse);
    assert WritesFrom(tables, k, batchSize, parse) == first + rest;
  }

  lemma {:induction false} RowIsWritten(tables: seq<Table>, k: nat, batchSize: nat, parse: Parser, i: nat, p: Put)
    requires AllSound(tables) && AllReadable(tables, parse) && batchSize >= 1
    requires k <= i < |tables| && p in TablePuts(tables[i], parse)
    ensures p in WritesFrom(tables, k, batchSize, parse)
    decreases |tables| - k
  {
    if i > k {
      RowIsWritten(tables, k + 1, batchSize, parse, i, p);
    }
    WriteOfStep(tables, k, batchSize, parse, p);
  }

  lemma WriteOfStep(tables: seq<Table>, k: nat, batchSize: nat, parse: Parser, p: Put)
    requires AllSound(tables) && AllReadable(tables, parse) && k < |tables| && batchSize >= 1
    requires p in TablePuts(tables[k], parse) || p in WritesFrom(tables, k + 1, batchSize, parse)
    ensures p in WritesFrom(tables, k, batchSize, parse)
  {
    ReadableTable(tables, |tables|, k, parse);
    var first, rest := TablePuts(tables[k], parse), WritesFrom(tables, k + 1, batchSize, parse);
    assert WritesFrom(tables, k, batchSize, parse) == first + rest;
  }

  /** How many rows the tables from one on have. */
  function RowsIn(tables: seq<Table>, k: nat): nat
    requires k <= |tables|
    decreases |tables| - k
  {
    if k == |tables| then 0 else |tables[k].rows| + RowsIn(tables, k + 1)
  }

  function TotalRows(tables: seq<Table>): nat {
    RowsIn(tables, 0)
  }

  lemma {:induction false} WritesCount(tables: seq<Table>, k: nat, batchSize: nat, parse: Parser)
    requires AllSound(tables) && AllReadable(tables, parse) && batchSize >= 1 && k <= |tables|
    ensures |WritesFrom(tables, k, batchSize, parse)| == RowsIn(tables, k)
    decreases |tables| - k
  {
    if k < |tables| {
      WritesStep(tables, k, batchSize, parse);
      WritesCount(tables, k + 1, batchSize, parse);
    }
  }

  /** As many rows are written as the source has exactly when the batch size is not zero, or
      there is nothing to migrate. */
  lemma CopiesEverythingExactly(tables: seq<Table>, batchSize: nat, parse: Parser)
    requires AllSound(tables) && AllReadable(tables, parse)
    ensures |Writes(tables, batchSize, parse)| == TotalRows(tables) <==> batchSize >= 1 || TotalRows(tables) == 0
  {
    if batchSize >= 1 {
      WritesCount(tables, 0, batchSize, parse);
    }
  }

  /** In the end every row of the source is in the target, under the address that leads to it,
      with the value its cells parse to; and every key the run wrote is that of a row. */
  lemma MigrationIsComplete(rows: Rows, tables: seq<Table>, batchSize: nat, parse: Parser, i: nat, j: nat)
    requires AllSound(tables) && AllReadable(tables, parse) && Apart(tables) && batchSize >= 1
    requires i < |tables| && j < |tables[i].rows|
    ensures var name, primaryKey := tables[i].plan.targetName, RenderKey(tables[i].rows[j].key);
            var row := Imported(tables[i].plan, tables[i].rows[j], parse);
            && row.Ok?
            && Lookup(Apply(rows, Writes(tables, batchSize, parse)), RowKey(name, primaryKey)) == Some(row.value.value)
            && (name != "" && primaryKey != "" ==>
               ParseAddress(RowKey(name, primaryKey)) == Some(RowAddress(name, primaryKey)))
  {
    var puts := Writes(tables, batchSize, parse);
    ReadableTable(tables, |tables|, i, parse);
    TableRowsAre(tables[i], parse);
    TablePutsAre(tables[i], parse);
    RowIsWritten(tables, 0, batchSize, parse, i, TablePuts(tables[i], parse)[j]);
    WritesDistinct(tables, 0, batchSize, parse);
    EveryWriteLandsExactly(rows, puts);
    var p := TablePuts(tables[i], parse)[j];
    var n :| 0 <= n < |puts| && puts[n] == p;
    assert Consistent(puts) && Lands(rows, puts, n);
    AddressRoundTripExactly(tables[i].plan.targetName, RenderKey(tables[i].rows[j].key));
  }

  lemma {:induction false} DistinctCount(puts: seq<Put>)
    requires Distinct(puts)
    ensures |Apply(map[], puts)| == |puts|
    ensures forall key :: key in Apply(map[], puts) <==> exists i :: 0 <= i < |puts| && puts[i].key == key
  {
    if puts != [] {
      var shorter, last := puts[..|puts| - 1], puts[|puts| - 1];
      DistinctCount(shorter);
      assert last.key !in Apply(map[], shorter);
      forall key ensures key in Apply(map[], puts) <==> exists i :: 0 <= i < |puts| && puts[i].key == key {
        if key in Apply(map[], shorter) {
          var i :| 0 <= i < |shorter| && shorter[i].key == key;
          assert puts[i].key == key;
        }
        if exists i :: 0 <= i < |puts| && puts[i].key == key {
          var i :| 0 <= i < |puts| && puts[i].key == key;
          assert i < |shorter| ==> shorter[i].key == key;
        }
      }
      assert Apply(map[], puts).Keys == Apply(map[], shorter).Keys + {last.key};
      assert |Apply(map[], puts)| == |Apply(map[], puts).Keys|;
    }
  }

  /** A target that was empty holds as many rows as the source has: each row exactly once. */
  lemma EachRowOnce(tables: seq<Table>, batchSize: nat, parse: Parser)
    requires AllSound(tables) && AllReadable(tables, parse) && Apart(tables) && batchSize >= 1
    ensures |Apply(map[], Writes(tables, batchSize, parse))| == TotalRows(tables)
  {
    WritesDistinct(tables, 0, batchSize, parse);
    DistinctCount(Writes(tables, batchSize, parse));
    WritesCount(tables, 0, batchSize, parse);
  }

  // ----- the report -----

  predicate SourceAgrees(plan: TablePlan, row: ImportedRow, rows: Rows) {
    RowAgrees(plan, row.value, Lookup(rows, KeyOf(plan, row)))
  }

  predicate RowsAgree(plan: TablePlan, source: seq<ImportedRow>, n: nat, rows: Rows)
    requires n <= |source|
  {
    n == 0 || (RowsAgree(plan, source, n - 1, rows) && SourceAgrees(plan, source[n - 1], rows))
  }

  lemma {:induction false} RowsAgreeExactly(plan: TablePlan, source: seq<ImportedRow>, n: nat, rows: Rows)
    requires n <= |source|
    ensures RowsAgree(plan, source, n, rows) <==> forall i :: 0 <= i < n ==> SourceAgrees(plan, source[i], rows)
  {
    if n > 0 {
      RowsAgreeExactly(plan, source, n - 1, rows);
    }
  }

  lemma {:induction false} RowsCleanExactly(found: seq<Finding>, plan: TablePlan, source: seq<ImportedRow>, n: nat,
                                            rows: Rows)
    requires n <= |source|
    ensures Clean(AfterRows(found, plan, source, n, rows)) <==> Clean(found) && RowsAgree(plan, source, n, rows)
  {
    if n > 0 {
      var last := source[n - 1];
      RowsCleanExactly(found, plan, source, n - 1, rows);
      RowCleanExactly(AfterRows(found, plan, source, n - 1, rows), plan, last.primaryKey, last.value,
        Lookup(rows, KeyOf(plan, last)));
    }
  }

  lemma {:induction false} AgreeingRowsArePresent(plan: TablePlan, source: seq<ImportedRow>, n: nat, rows: Rows)
    requires n <= |source| && RowsAgree(plan, source, n, rows)
    ensures PresentUpTo(plan, source, n, rows) == n
  {
    if n > 0 {
      AgreeingRowsArePresent(plan, source, n - 1, rows);
    }
  }

  lemma {:induction false} PresentExactly(plan: TablePlan, source: seq<ImportedRow>, n: nat, rows: Rows)
    requires n <= |source|
    ensures PresentUpTo(plan, source, n, rows) == n <==> forall j :: 0 <= j < n ==> KeyOf(plan, source[j]) in rows
  {
    if n > 0 {
      PresentExactly(plan, source, n - 1, rows);
    }
  }

  /** After its rows a table gets one more finding, about no row in particular, exactly when some row
      of the source is missing from the target. */
  lemma CountFoundExactly(found: seq<Finding>, plan: TablePlan, source: seq<ImportedRow>, rows: Rows)
    ensures AfterTable(found, plan, source, rows)
            == AfterRows(found, plan, source, |source|, rows)
               + if forall j :: 0 <= j < |source| ==> KeyOf(plan, source[j]) in rows then []
                 else [Finding(Unexpected, plan.sourceName, None, None)]
  {
    PresentExactly(plan, source, |source|, rows);
  }

  lemma TableCleanExactly(found: seq<Finding>, plan: TablePlan, source: seq<ImportedRow>, rows: Rows)
    ensures Clean(AfterTable(found, plan, source, rows)) <==> Clean(found) && RowsAgree(plan, source, |source|, rows)
  {
    var n := |source|;
    RowsCleanExactly(found, plan, source, n, rows);
    CleanPlus(AfterRows(found, plan, source, n, rows), Finding(Unexpected, plan.sourceName, None, None));
    if RowsAgree(plan, source, n, rows) {
      AgreeingRowsArePresent(plan, source, n, rows);
    }
  }

  /** What the second reading of each table returns. */
  ghost function Readings(tables: seq<Table>, batchSize: nat, parse: Parser): seq<seq<ImportedRow>>
    requires AllSound(tables)
  {
    seq(|tables|, i requires 0 <= i < |tables| => Reached(tables[i], batchSize, parse))
  }

  predicate TablesAgree(tables: seq<Table>, readings: seq<seq<ImportedRow>>, k: nat, rows: Rows)
    requires k <= |tables| == |readings|
  {
    k == 0 || (TablesAgree(tables, readings, k - 1, rows)
               && RowsAgree(tables[k - 1].plan, readings[k - 1], |readings[k - 1]|, rows))
  }

  lemma {:induction false} TablesAgreeExactly(tables: seq<Table>, readings: seq<seq<ImportedRow>>, k: nat, rows: Rows)
    requires k <= |tables| == |readings|
    ensures TablesAgree(tables, readings, k, rows)
            <==> forall i :: 0 <= i < k ==> RowsAgree(tables[i].plan, readings[i], |readings[i]|, rows)
  {
    if k > 0 {
      TablesAgreeExactly(tables, readings, k - 1, rows);
    }
  }

  lemma LastTableClean(found: seq<Finding>, tables: seq<Table>, k: nat, batchSize: nat, rows: Rows, parse: Parser,
                       readings: seq<seq<ImportedRow>>)
    requires AllSound(tables) && 0 < k <= |tables| && readings == Readings(tables, batchSize, parse)
    ensures Clean(AfterTables(found, tables, k, batchSize, rows, parse))
            <==> Clean(AfterTables(found, tables, k - 1, batchSize, rows, parse))
                 && RowsAgree(tables[k - 1].plan, readings[k - 1], |readings[k - 1]|, rows)
  {
    TableCleanExactly(AfterTables(found, tables, k - 1, batchSize, rows, parse),
                      tables[k - 1].plan, Reached(tables[k - 1], batchSize, parse), rows);
  }

  lemma {:induction false} TablesCleanExactly(found: seq<Finding>, tables: seq<Table>, k: nat, batchSize: nat,
                                              rows: Rows, parse: Parser, readings: seq<seq<ImportedRow>>)
    requires AllSound(tables) && k <= |tables| && readings == Readings(tables, batchSize, parse)
    ensures Clean(AfterTables(found, tables, k, batchSize, rows, parse))
            <==> Clean(found) && TablesAgree(tables, readings, k, rows)
  {
    if k > 0 {
      TablesCleanExactly(found, tables, k - 1, batchSize, rows, parse, readings);
      LastTableClean(found, tables, k, batchSize, rows, parse, readings);
    } else {
      assert AfterTables(found, tables, k, batchSize, rows, parse) == found;
    }
  }

  /** The report has no unexpected finding beyond those about the schema exactly when every row the
      source then has is in the target and agrees with it on every column mapped exactly, or the
      batches hold no rows, so that none is compared. */
  lemma ReportCleanExactly(found: seq<Finding>, tables: seq<Table>, batchSize: nat, rows: Rows, parse: Parser)
    requires AllSound(tables)
    ensures Clean(AfterTables(found, tables, |tables|, batchSize, rows, parse))
            <==> Clean(found)
                 && (batchSize == 0
                     || forall i, j :: 0 <= i < |tables| && 0 <= j < |TableRows(tables[i], parse)| ==>
                          SourceAgrees(tables[i].plan, TableRows(tables[i], parse)[j], rows))
  {
    var readings := Readings(tables, batchSize, parse);
    TablesCleanExactly(found, tables, |tables|, batchSize, rows, parse, readings);
    TablesAgreeExactly(tables, readings, |tables|, rows);
    forall i | 0 <= i < |tables|
      ensures RowsAgree(tables[i].plan, readings[i], |readings[i]|, rows)
              <==> batchSize == 0 || forall j :: 0 <= j < |TableRows(tables[i], parse)| ==>
                                       SourceAgrees(tables[i].plan, TableRows(tables[i], parse)[j], rows)
    {
      RowsAgreeExactly(tables[i].plan, readings[i], |readings[i]|, rows);
    }
  }

  /** With batches of no rows, nothing is written, nothing is compared, and nothing is found. */
  lemma {:induction false} EmptyBatchesFindNothing(found: seq<Finding>, tables: seq<Table>, k: nat, rows: Rows,
                                                   parse: Parser)
    requires AllSound(tables) && k <= |tables|
    ensures Writes(tables, 0, parse) == []
    ensures AfterTables(found, tables, k, 0, rows, parse) == found && RowsReached(tables, k, 0, parse) == 0
  {
    if k > 0 {
      EmptyBatchesFindNothing(found, tables, k - 1, rows, parse);
    }
  }

  lemma ReachedStep(tables: seq<Table>, k: nat, batchSize: nat, parse: Parser)
    requires AllSound(tables) && AllReadable(tables, parse) && batchSize >= 1 && k < |tables|
    ensures RowsReached(tables, k + 1, batchSize, parse)
            == RowsReached(tables, k, batchSize, parse) + |tables[k].rows|
  {
    ReadableTable(tables, |tables|, k, parse);
    TableRowsAre(tables[k], parse);
  }

  lemma RowsInStep(tables: seq<Table>, k: nat)
    requires k < |tables|
    ensures RowsIn(tables, k) == |tables[k].rows| + RowsIn(tables, k + 1)
  {}

  lemma {:induction false} ComparedSoFar(tables: seq<Table>, k: nat, batchSize: nat, parse: Parser)
    requires AllSound(tables) && AllReadable(tables, parse) && batchSize >= 1 && k <= |tables|
    ensures RowsReached(tables, k, batchSize, parse) + RowsIn(tables, k) == TotalRows(tables)
  {
    if k > 0 {
      var before := k - 1;
      ComparedSoFar(tables, before, batchSize, parse);
      ReachedStep(tables, before, batchSize, parse);
      RowsInStep(tables, before);
    }
  }

  /** With batches of some rows, as many rows are compared as the source has. */
  lemma EveryRowIsCompared(tables: seq<Table>, batchSize: nat, parse: Parser)
    requires AllSound(tables) && AllReadable(tables, parse) && batchSize >= 1
    ensures RowsReached(tables, |tables|, batchSize, parse) == TotalRows(tables)
  {
    ComparedSoFar(tables, |tables|, batchSize, parse);
  }

  /** A complete migration of a source that stays as it is gets a clean report exactly when no
      exactly mapped column holds a NaN: a NaN that arrived intact is reported as a difference. */
  lemma CompleteMigrationIsCleanExactly(found: seq<Finding>, rows: Rows, tables: seq<Table>, batchSize: nat,
                                        parse: Parser)
    requires AllSound(tables) && AllReadable(tables, parse) && Apart(tables) && batchSize >= 1
    ensures Clean(AfterTables(found, tables, |tables|, batchSize, Apply(rows, Writes(tables, batchSize, parse)), parse))
            <==> Clean(found)
                 && forall i, j :: 0 <= i < |tables| && 0 <= j < |TableRows(tables[i], parse)| ==>
                      FreeOfNaN(tables[i].plan, TableRows(tables[i], parse)[j].value)
  {
    var after := Apply(rows, Writes(tables, batchSize, parse));
    ReportCleanExactly(found, tables, batchSize, after, parse);
    forall i, j | 0 <= i < |tables| && 0 <= j < |TableRows(tables[i], parse)|
      ensures SourceAgrees(tables[i].plan, TableRows(tables[i], parse)[j], after)
              <==> FreeOfNaN(tables[i].plan, TableRows(tables[i], parse)[j].value)
    {
      ArrivedRow(rows, tables, batchSize, parse, i, j);
      RowAgreesWithItselfExactly(tables[i].plan, TableRows(tables[i], parse)[j].value);
    }
  }

  lemma ArrivedRow(rows: Rows, tables: seq<Table>, batchSize: nat, parse: Parser, i: nat, j: nat)
    requires AllSound(tables) && AllReadable(tables, parse) && Apart(tables) && batchSize >= 1
    requires i < |tables| && j < |TableRows(tables[i], parse)|
    ensures var row := TableRows(tables[i], parse)[j];
            Lookup(Apply(rows, Writes(tables, batchSize, parse)), KeyOf(tables[i].plan, row)) == Some(row.value)
  {
    TableRowsAre(tables[i], parse);
    MigrationIsComplete(rows, tables, batchSize, parse, i, j);
  }
}
