/** Driving a migration: schema, then rows, then verification against a second read. */
module Migration {
  import opened Prelude
  import opened Values
  import opened Addresses
  import opened Importing
  import opened Verifying

  datatype Put = Put(key: string, value: Value)

  type Rows = map<string, Value>

  /** What goes wrong with one write; it may have landed all the same. */
  datatype Fault = Fault(landed: bool, reason: string)

  datatype SchemaReply = Applied | Gated(nextStep: string) | Refused(reason: string)

  /** What the source and the target answer: to each schema change, to each read of a batch of a
      table, to each write and to each lookup. */
  datatype World = World(
    schema: nat -> SchemaReply, read: (nat, nat) -> Option<string>, put: nat -> Option<Fault>,
      get: (nat, nat) -> Option<string>)

  ghost predicate Faultless(w: World) {
    && (forall i :: w.schema(i).Applied?)
    && (forall i, j :: w.read(i, j).None?)
    && (forall i :: w.put(i).None?)
    && (forall i, j :: w.get(i, j).None?)
  }

  ghost predicate AllSound(tables: seq<Table>) {
    forall i :: 0 <= i < |tables| ==> Sound(tables[i])
  }

  /** The rows of the first `k` tables can all be read. */
  ghost predicate ReadableUpTo(tables: seq<Table>, k: nat, parse: Parser)
    requires AllSound(tables) && k <= |tables|
  {
    k == 0 || (ReadableUpTo(tables, k - 1, parse) && Readable(tables[k - 1], parse))
  }

  ghost predicate AllReadable(tables: seq<Table>, parse: Parser)
    requires AllSound(tables)
  {
    ReadableUpTo(tables, |tables|, parse)
  }

  lemma {:induction false} ReadableTable(tables: seq<Table>, k: nat, i: nat, parse: Parser)
    requires AllSound(tables) && i < k <= |tables| && ReadableUpTo(tables, k, parse)
    ensures Readable(tables[i], parse)
  {
    if i < k - 1 {
      ReadableTable(tables, k - 1, i, parse);
    }
  }

  // ----- the writes of a run -----

  /** The target after some writes, later ones over earlier ones. */
  function Apply(rows: Rows, puts: seq<Put>): Rows {
    if puts == [] then rows
    else
      var last := puts[|puts| - 1];
      Apply(rows, puts[..|puts| - 1])[last.key := last.value]
  }

  lemma ApplyOne(rows: Rows, puts: seq<Put>, p: Put)
    ensures Apply(rows, puts + [p]) == Apply(rows, puts)[p.key := p.value]
  {
    assert (puts + [p])[..|puts|] == puts;
  }

  lemma {:induction false} ApplyAppend(rows: Rows, a: seq<Put>, b: seq<Put>)
    ensures Apply(rows, a + b) == Apply(Apply(rows, a), b)
  {
    if b == [] {
      assert a + b == a;
    } else {
      var last := b[|b| - 1];
      assert a + b == (a + b[..|b| - 1]) + [last];
      ApplyAppend(rows, a, b[..|b| - 1]);
      ApplyOne(rows, a + b[..|b| - 1], last);
    }
  }

  function PutOf(plan: TablePlan, row: ImportedRow): Put {
    Put(RowKey(plan.targetName, row.primaryKey), row.value)
  }

  /** A table's rows from its `n`th on, as far as they can be read. */
  ghost function RowsFrom(t: Table, n: nat, parse: Parser): seq<ImportedRow>
    requires Sound(t) && n <= |t.rows|
    decreases |t.rows| - n
  {
    if n == |t.rows| || Imported(t.plan, t.rows[n], parse).Err? then []
    else [Imported(t.plan, t.rows[n], parse).value] + RowsFrom(t, n + 1, parse)
  }

  lemma {:induction false} RowsFromAre(t: Table, n: nat, parse: Parser)
    requires Sound(t) && n <= |t.rows|
    ensures var rows := RowsFrom(t, n, parse);
            && n + |rows| <= |t.rows|
            && (forall i :: n <= i < n + |rows| ==> Imported(t.plan, t.rows[i], parse) == Ok(rows[i - n]))
            && (n + |rows| < |t.rows| ==> Imported(t.plan, t.rows[n + |rows|], parse).Err?)
    decreases |t.rows| - n
  {
    if n < |t.rows| && Imported(t.plan, t.rows[n], parse).Ok? {
      RowsFromAre(t, n + 1, parse);
    }
  }

  ghost function TableRows(t: Table, parse: Parser): seq<ImportedRow>
    requires Sound(t)
  {
    RowsFrom(t, 0, parse)
  }

  /** A table can be read exactly when none of its rows stops the reading. */
  lemma TableRowsAre(t: Table, parse: Parser)
    requires Sound(t)
    ensures |TableRows(t, parse)| <= |t.rows|
    ensures Readable(t, parse) <==> |TableRows(t, parse)| == |t.rows|
    ensures forall i :: 0 <= i < |TableRows(t, parse)| ==>
            Imported(t.plan, t.rows[i], parse) == Ok(TableRows(t, parse)[i])
  {
    RowsFromAre(t, 0, parse);
    ReadableRowsExactly(t, |t.rows|, parse);
  }

  function PutsOf(plan: TablePlan, rows: seq<ImportedRow>): (puts: seq<Put>)
    ensures |puts| == |rows|
  {
    if rows == [] then [] else PutsOf(plan, rows[..|rows| - 1]) + [PutOf(plan, rows[|rows| - 1])]
  }

  lemma {:induction false} PutsOfAre(plan: TablePlan, rows: seq<ImportedRow>)
    ensures forall i :: 0 <= i < |rows| ==> PutsOf(plan, rows)[i] == PutOf(plan, rows[i])
  {
    if rows != [] {
      PutsOfAre(plan, rows[..|rows| - 1]);
    }
  }

  lemma BatchPuts(plan: TablePlan, rows: seq<ImportedRow>, n: nat, batch: seq<ImportedRow>)
    requires n + |batch| <= |rows| && batch == rows[n..n + |batch|]
    ensures forall i :: 0 <= i < |batch| ==> PutsOf(plan, rows)[n + i] == PutOf(plan, batch[i])
  {
    PutsOfAre(plan, rows);
  }

  ghost function TablePuts(t: Table, parse: Parser): seq<Put>
    requires Sound(t)
  {
    PutsOf(t.plan, TableRows(t, parse))
  }

  /** The writes of a table when asked for in batches of a size: none when the size is zero. */
  ghost function TableWrites(t: Table, batchSize: nat, parse: Parser): seq<Put>
    requires Sound(t)
  {
    if batchSize == 0 then [] else TablePuts(t, parse)
  }

  ghost function WritesFrom(tables: seq<Table>, k: nat, batchSize: nat, parse: Parser): seq<Put>
    requires AllSound(tables) && k <= |tables|
    decreases |tables| - k
  {
    if k == |tables| || batchSize == 0 then []
    else if Readable(tables[k], parse) then TablePuts(tables[k], parse) + WritesFrom(tables, k + 1, batchSize, parse)
    else TablePuts(tables[k], parse)
  }

  /** Every write of a migration, in order. */
  ghost function Writes(tables: seq<Table>, batchSize: nat, parse: Parser): seq<Put>
    requires AllSound(tables)
  {
    WritesFrom(tables, 0, batchSize, parse)
  }

  // ----- the findings of a run -----

  function Lookup(rows: Rows, key: string): Option<Value> {
    if key in rows then Some(rows[key]) else None
  }

  function KeyOf(plan: TablePlan, row: ImportedRow): string {
    RowKey(plan.targetName, row.primaryKey)
  }

  /** The findings after the first `n` rows of a table were compared with a target. */
  function AfterRows(found: seq<Finding>, plan: TablePlan, source: seq<ImportedRow>, n: nat, rows: Rows): seq<Finding>
    requires n <= |source|
  {
    if n == 0 then found
    else AfterRow(AfterRows(found, plan, source, n - 1, rows), plan, source[n - 1].primaryKey, source[n - 1].value,
                  Lookup(rows, KeyOf(plan, source[n - 1])))
  }

  function PresentUpTo(plan: TablePlan, source: seq<ImportedRow>, n: nat, rows: Rows): (count: nat)
    requires n <= |source|
    ensures count <= n
  {
    if n == 0 then 0 else PresentUpTo(plan, source, n - 1, rows) + if KeyOf(plan, source[n - 1]) in rows then 1 else 0
  }

  /** The findings after a table's rows and their count were compared. */
  function AfterTable(found: seq<Finding>, plan: TablePlan, source: seq<ImportedRow>, rows: Rows): seq<Finding> {
    AfterCount(AfterRows(found, plan, source, |source|, rows), plan.sourceName, |source|,
      PresentUpTo(plan, source, |source|, rows))
  }

  /** The rows of a table that the loops reach: all of them, unless batches are empty. */
  ghost function Reached(t: Table, batchSize: nat, parse: Parser): seq<ImportedRow>
    requires Sound(t)
  {
    if batchSize == 0 then [] else TableRows(t, parse)
  }

  /** The findings after the first `k` tables were compared. */
  ghost function AfterTables(found: seq<Finding>, tables: seq<Table>, k: nat, batchSize: nat, rows: Rows,
                             parse: Parser): seq<Finding>
    requires AllSound(tables) && k <= |tables|
  {
    if k == 0 then found
    else AfterTable(AfterTables(found, tables, k - 1, batchSize, rows, parse),
                    tables[k - 1].plan, Reached(tables[k - 1], batchSize, parse), rows)
  }

  /** How many rows the loops reach in the first `k` tables. */
  ghost function RowsReached(tables: seq<Table>, k: nat, batchSize: nat, parse: Parser): nat
    requires AllSound(tables) && k <= |tables|
  {
    if k == 0 then 0 else RowsReached(tables, k - 1, batchSize, parse) + |Reached(tables[k - 1], batchSize, parse)|
  }

  // ----- the target -----

  class Target {
    var rows: Rows
    ghost const base: Rows
    ghost var log: seq<Put>

    /** The target holds what it started with, and every write that landed since. */
    ghost predicate Valid()
      reads this
    {
      rows == Apply(base, log)
    }

    constructor (base: Rows)
      ensures Valid() && this.base == base && log == []
    {
      rows, this.base, log := base, base, [];
    }

    method Write(key: string, value: Value, fault: Option<Fault>) returns (r: Result<(), string>)
      requires Valid()
      modifies this
      ensures Valid()
      ensures r.Ok? <==> fault.None?
      ensures log == if fault.None? || fault.value.landed then old(log) + [Put(key, value)] else old(log)
    {
      if fault.None? || fault.value.landed {
        ApplyOne(base, log, Put(key, value));
        rows, log := rows[key := value], log + [Put(key, value)];
      }
      r := if fault.None? then Ok(()) else Err(fault.value.reason);
    }

    method Get(key: string, fault: Option<string>) returns (r: Result<Option<Value>, string>)
      ensures r.Ok? <==> fault.None?
      ensures r.Ok? ==> r.value == Lookup(rows, key)
    {
      r := if fault.Some? then Err(fault.value) else Ok(if key in rows then Some(rows[key]) else None);
    }
  }

  // ----- the copy loop -----

  method ApplySchema(changes: nat, w: World) returns (r: Result<(), string>)
    ensures r.Ok? <==> forall i :: 0 <= i < changes ==> w.schema(i).Applied?
  {
    for i := 0 to changes
      invariant forall j :: 0 <= j < i ==> w.schema(j).Applied?
    {
      match w.schema(i) {
        case Applied =>
        case Gated(nextStep) => return Err(nextStep);
        case Refused(reason) => return Err(reason);
      }
    }
    r := Ok(());
  }

  lemma NextLanded<T>(start: seq<T>, all: seq<T>, n: nat)
    requires n < |all|
    ensures start + all[..n] + [all[n]] == start + all[..n + 1]
  {}

  lemma Landed<T>(start: seq<T>, all: seq<T>, n: nat)
    requires n <= |all|
    ensures start <= start + all[..n] <= start + all
    ensures n == 0 ==> start + all[..n] == start + []
    ensures n == |all| ==> start + all[..n] == start + all
  {}

  lemma TableDone<T>(start: seq<T>, first: seq<T>, rest: seq<T>, log: seq<T>)
    requires start <= log <= start + first
    ensures start <= log <= start + (first + rest)
    ensures log == start + first ==> log + rest == start + (first + rest)
  {}

  /** Write the rows of a batch, whose writes are the `n`th of `puts` and those after it. */
  method WriteBatch(target: Target, plan: TablePlan, batch: seq<ImportedRow>, written: nat, w: World,
                    ghost start: seq<Put>, ghost puts: seq<Put>, ghost n: nat, ghost next: nat)
    returns (r: Result<(), string>)
    requires target.Valid() && next == n + |batch| <= |puts| && target.log == start + puts[..n]
    requires forall i :: 0 <= i < |batch| ==> puts[n + i] == PutOf(plan, batch[i])
    modifies target
    ensures target.Valid() && start <= target.log <= start + puts
    ensures r.Ok? ==> target.log == start + puts[..next]
    ensures r.Err? ==> exists i :: w.put(i).Some?
  {
    for i := 0 to |batch|
      invariant target.Valid() && target.log == start + puts[..n + i]
    {
      NextLanded(start, puts, n + i);
      var row := target.Write(RowKey(plan.targetName, batch[i].primaryKey), batch[i].value, w.put(written + i));
      if row.Err? {
        Landed(start, puts, n + i);
        Landed(start, puts, n + i + 1);
        return Err(row.error);
      }
    }
    Landed(start, puts, next);
    r := Ok(());
  }

  lemma BatchIsRows(t: Table, n: nat, rows: seq<ImportedRow>, parse: Parser)
    requires Sound(t) && n <= |TableRows(t, parse)| && n + |rows| <= |t.rows|
    requires forall j :: n <= j < n + |rows| ==> Imported(t.plan, t.rows[j], parse) == Ok(rows[j - n])
    ensures n + |rows| <= |TableRows(t, parse)| && rows == TableRows(t, parse)[n..n + |rows|]
  {
    var all := TableRows(t, parse);
    RowsFromAre(t, 0, parse);
    forall i | 0 <= i < |rows| && n + i < |all| ensures all[n + i] == rows[i] {
      assert Imported(t.plan, t.rows[n + i], parse) == Ok(rows[n + i - n]);
    }
  }

  /** What a batch read after `n` rows of a table holds: the rows that come next, and none only at
      the end of the table or for an empty batch size. */
  ghost predicate IsNext(t: Table, n: nat, batchSize: nat, batch: Batch, parse: Parser)
    requires Sound(t) && n <= |TableRows(t, parse)| <= |t.rows|
  {
    var rows, all := batch.rows, TableRows(t, parse);
    && n + |rows| <= |all| && rows == all[n..n + |rows|]
    && batch.cursor == CursorAt(t, n + |rows|)
    && (rows == [] <==> batchSize == 0 || n == |t.rows|)
  }

  lemma BatchIsNext(t: Table, n: nat, batchSize: nat, batch: Result<Batch, string>, parse: Parser)
    requires Sound(t) && n <= |TableRows(t, parse)| <= |t.rows|
    requires IsBatchOf(batch, t, CursorAt(t, n), t.rows[n..Min(n + batchSize, |t.rows|)], parse)
    ensures if batch.Err? then !Readable(t, parse) else IsNext(t, n, batchSize, batch.value, parse)
  {
    BatchContinues(t, n, batchSize, batch, parse);
    if batch.Ok? {
      BatchIsRows(t, n, batch.value.rows, parse);
    }
  }

  /** The next batch of a table from a cursor after `n` of its rows. */
  method ReadBatch(t: Table, cursor: Cursor, batchSize: nat, parse: Parser, unread: Option<string>, ghost n: nat)
    returns (batch: Result<Batch, string>)
    requires Sound(t) && n <= |TableRows(t, parse)| <= |t.rows| && cursor == CursorAt(t, n)
    ensures batch.Err? ==> !Readable(t, parse) || unread.Some?
    ensures batch.Ok? ==> IsNext(t, n, batchSize, batch.value, parse)
  {
    if unread.Some? {
      return Err(unread.value);
    }
    batch := NextBatch(t, cursor, batchSize, parse);
    QueryContinues(t, n, batchSize);
    BatchIsNext(t, n, batchSize, batch, parse);
  }

  /** Read the next batch of a table and write its rows. */
  method CopyBatch(target: Target, t: Table, k: nat, cursor: Cursor, batchSize: nat, written: nat, parse: Parser,
                   w: World, ghost start: seq<Put>, ghost puts: seq<Put>, ghost n: nat)
    returns (batch: Result<Batch, string>)
    requires Sound(t) && puts == TableWrites(t, batchSize, parse) && n <= |puts| <= |t.rows| && cursor == CursorAt(t, n)
    requires target.Valid() && target.log == start + puts[..n]
    modifies target
    ensures target.Valid() && start <= target.log <= start + puts
    ensures batch.Ok? ==> var next := n + |batch.value.rows|;
                          && next <= |puts| && batch.value.cursor == CursorAt(t, next)
                             && target.log == start + puts[..next]
                          && (next == n ==> batchSize == 0 || n == |t.rows|)
    ensures batch.Err? ==> !Readable(t, parse) || !Faultless(w)
  {
    TableRowsAre(t, parse);
    Landed(start, puts, n);
    batch := ReadBatch(t, cursor, batchSize, parse, w.read(k, cursor.rowsImported), n);
    if batch.Ok? && batch.value.rows != [] {
      ghost var next := n + |batch.value.rows|;
      BatchPuts(t.plan, TableRows(t, parse), n, batch.value.rows);
      var wrote := WriteBatch(target, t.plan, batch.value.rows, written, w, start, puts, n, next);
      if wrote.Err? {
        return Err(wrote.error);
      }
    }
  }

  /** Copy one table, batch by batch; the cursor moves on only after its rows were written. */
  method CopyTable(target: Target, t: Table, k: nat, batchSize: nat, written: nat, parse: Parser, w: World)
    returns (r: Result<nat, string>)
    requires Sound(t) && target.Valid()
    modifies target
    ensures target.Valid() && old(target.log) <= target.log <= old(target.log) + TableWrites(t, batchSize, parse)
    ensures r.Ok? ==> r.value - written == |target.log| - |old(target.log)|
    ensures r.Ok? ==> (batchSize == 0 || Readable(t, parse))
                      && target.log == old(target.log) + TableWrites(t, batchSize, parse)
    ensures r.Err? ==> !Readable(t, parse) || !Faultless(w)
  {
    ghost var start, puts, n := target.log, TableWrites(t, batchSize, parse), 0;
    TableRowsAre(t, parse);
    Landed(start, puts, 0);
    var cursor := BEGINNING;
    while true
      invariant n <= |puts| && cursor == CursorAt(t, n)
      invariant target.Valid() && target.log == start + puts[..n]
      decreases |t.rows| - n
    {
      var batch := CopyBatch(target, t, k, cursor, batchSize, written + cursor.rowsImported, parse, w, start, puts, n);
      if batch.Err? {
        return Err(batch.error);
      }
      if batch.value.rows == [] {
        break;
      }
      cursor, n := batch.value.cursor, n + |batch.value.rows|;
    }
    Landed(start, puts, n);
    r := Ok(written + cursor.rowsImported);
  }

  lemma TableCopied(tables: seq<Table>, k: nat, batchSize: nat, parse: Parser, before: seq<Put>, log: seq<Put>)
    requires AllSound(tables) && k < |tables|
    requires before <= log <= before + TableWrites(tables[k], batchSize, parse)
    ensures before <= log <= before + WritesFrom(tables, k, batchSize, parse)
    ensures (batchSize == 0 || Readable(tables[k], parse))
            && log == before + TableWrites(tables[k], batchSize, parse) ==>
              log + WritesFrom(tables, k + 1, batchSize, parse) == before + WritesFrom(tables, k, batchSize, parse)
  {
    var first, rest := TableWrites(tables[k], batchSize, parse), WritesFrom(tables, k + 1, batchSize, parse);
    if batchSize == 0 || Readable(tables[k], parse) {
      TableDone(before, first, rest, log);
      assert batchSize > 0 ==> WritesFrom(tables, k, batchSize, parse) == first + rest;
    }
  }

  /** Copy every table. Whatever happens, a prefix of the writes has landed. */
  method CopyAll(target: Target, tables: seq<Table>, batchSize: nat, parse: Parser, w: World)
    returns (r: Result<nat, string>)
    requires AllSound(tables) && target.Valid()
    modifies target
    ensures target.Valid() && old(target.log) <= target.log <= old(target.log) + Writes(tables, batchSize, parse)
    ensures r.Ok? ==> r.value == |target.log| - |old(target.log)|
    ensures r.Ok? ==> (batchSize == 0 || AllReadable(tables, parse))
                      && target.log == old(target.log) + Writes(tables, batchSize, parse)
    ensures r.Err? ==> !AllReadable(tables, parse) || !Faultless(w)
  {
    ghost var start, all := target.log, Writes(tables, batchSize, parse);
    var written := 0;
    for k := 0 to |tables|
      invariant target.Valid() && start <= target.log && |target.log| == |start| + written
      invariant start + all == target.log + WritesFrom(tables, k, batchSize, parse)
      invariant batchSize == 0 || ReadableUpTo(tables, k, parse)
    {
      ghost var before := target.log;
      var copied := CopyTable(target, tables[k], k, batchSize, written, parse, w);
      TableCopied(tables, k, batchSize, parse, before, target.log);
      if copied.Err? {
        if AllReadable(tables, parse) {
          ReadableTable(tables, |tables|, k, parse);
        }
        return Err(copied.error);
      }
      written := copied.value;
    }
    r := Ok(written);
  }

  // ----- the verifying loop -----

  /** Compare a batch with what the target has, continuing a table's findings after `n` rows. */
  method VerifyBatch(target: Target, plan: TablePlan, batch: seq<ImportedRow>, k: nat, n: nat, w: World,
                     report: Report, ghost rows: Rows, ghost all: seq<ImportedRow>, ghost start: seq<Finding>,
                     ghost next: nat)
    returns (r: Result<nat, string>)
    requires next == n + |batch| <= |all| && batch == all[n..next]
    requires target.rows == rows && report.findings == AfterRows(start, plan, all, n, rows)
    modifies report`findings
    ensures r.Ok? ==> report.findings == AfterRows(start, plan, all, next, rows)
                      && PresentUpTo(plan, all, n, rows) + r.value == PresentUpTo(plan, all, next, rows)
    ensures r.Err? ==> !Faultless(w)
  {
    var inTarget := 0;
    for i := 0 to |batch|
      invariant report.findings == AfterRows(start, plan, all, n + i, rows)
      invariant PresentUpTo(plan, all, n, rows) + inTarget == PresentUpTo(plan, all, n + i, rows)
    {
      var row := batch[i];
      var actual := target.Get(RowKey(plan.targetName, row.primaryKey), w.get(k, n + i));
      if actual.Err? {
        return Err(actual.error);
      }
      if actual.value.Some? {
        inTarget := inTarget + 1;
      }
      report.VerifyRow(plan, row.primaryKey, row.value, actual.value);
    }
    r := Ok(inTarget);
  }

  /** Read a table again, batch by batch, and compare its rows: how many there were, and how many
      of them the target has. */
  method VerifyRows(target: Target, t: Table, k: nat, batchSize: nat, parse: Parser, w: World, report: Report)
    returns (r: Result<(nat, nat), string>)
    requires Sound(t)
    modifies report`findings
    ensures r.Ok? ==> var source := Reached(t, batchSize, parse);
                      && (batchSize == 0 || Readable(t, parse))
                      && report.findings == AfterRows(old(report.findings), t.plan, source, |source|, target.rows)
                      && r.value == (|source|, PresentUpTo(t.plan, source, |source|, target.rows))
    ensures r.Err? ==> !Readable(t, parse) || !Faultless(w)
  {
    ghost var start, all, rows := report.findings, TableRows(t, parse), target.rows;
    TableRowsAre(t, parse);
    var cursor, inSource, inTarget := BEGINNING, 0, 0;
    while true
      invariant inSource <= |all| && cursor == CursorAt(t, inSource)
      invariant report.findings == AfterRows(start, t.plan, all, inSource, rows)
      invariant inTarget == PresentUpTo(t.plan, all, inSource, rows)
      invariant batchSize == 0 ==> inSource == 0
      decreases |t.rows| - inSource
    {
      var batch := ReadBatch(t, cursor, batchSize, parse, w.read(k, cursor.rowsImported), inSource);
      if batch.Err? {
        return Err(batch.error);
      }
      if batch.value.rows == [] {
        break;
      }
      ghost var next := inSource + |batch.value.rows|;
      assert next <= |all| && batch.value.cursor == CursorAt(t, next);
      var present := VerifyBatch(target, t.plan, batch.value.rows, k, inSource, w, report, rows, all, start, next);
      if present.Err? {
        return Err(present.error);
      }
      cursor, inSource, inTarget := batch.value.cursor, inSource + |batch.value.rows|, inTarget + present.value;
    }
    NoRowsFound(start, t.plan, all, rows);
    r := Ok((inSource, inTarget));
  }

  /** Compare one table with what the target has. */
  method VerifyTable(target: Target, t: Table, k: nat, batchSize: nat, parse: Parser, w: World, report: Report)
    returns (r: Result<(), string>)
    requires Sound(t)
    modifies report
    ensures r.Ok? ==> (batchSize == 0 || Readable(t, parse))
                      && report.findings == AfterTable(old(report.findings), t.plan, Reached(t, batchSize, parse),
                         target.rows)
                      && report.rowsCompared == old(report.rowsCompared) + |Reached(t, batchSize, parse)|
                      && report.tablesCompared == old(report.tablesCompared) + 1
    ensures r.Err? ==> !Readable(t, parse) || !Faultless(w)
  {
    var counts := VerifyRows(target, t, k, batchSize, parse, w, report);
    if counts.Err? {
      return Err(counts.error);
    }
    report.VerifyRowCount(t.plan.sourceName, counts.value.0, counts.value.1);
    report.rowsCompared := report.rowsCompared + counts.value.0;
    report.tablesCompared := report.tablesCompared + 1;
    r := Ok(());
  }

  lemma NoRowsFound(start: seq<Finding>, plan: TablePlan, all: seq<ImportedRow>, rows: Rows)
    ensures AfterRows(start, plan, all, 0, rows) == AfterRows(start, plan, [], 0, rows)
    ensures PresentUpTo(plan, all, 0, rows) == PresentUpTo(plan, [], 0, rows)
  {}

  method VerifyAll(target: Target, tables: seq<Table>, batchSize: nat, parse: Parser, w: World, report: Report)
    returns (r: Result<(), string>)
    requires AllSound(tables)
    modifies report
    ensures r.Ok? ==> (batchSize == 0 || AllReadable(tables, parse))
                      && report.findings == AfterTables(old(report.findings), tables, |tables|, batchSize,
                         target.rows, parse)
                      && report.rowsCompared
                         == old(report.rowsCompared) + RowsReached(tables, |tables|, batchSize, parse)
                      && report.tablesCompared == old(report.tablesCompared) + |tables|
    ensures r.Err? ==> !AllReadable(tables, parse) || !Faultless(w)
  {
    ghost var start, rows := report.findings, target.rows;
    for k := 0 to |tables|
      invariant report.findings == AfterTables(start, tables, k, batchSize, rows, parse)
      invariant report.rowsCompared == old(report.rowsCompared) + RowsReached(tables, k, batchSize, parse)
      invariant report.tablesCompared == old(report.tablesCompared) + k
      invariant batchSize == 0 || ReadableUpTo(tables, k, parse)
    {
      var verified := VerifyTable(target, tables[k], k, batchSize, parse, w, report);
      if verified.Err? {
        if AllReadable(tables, parse) {
          ReadableTable(tables, |tables|, k, parse);
        }
        return Err(verified.error);
      }
    }
    r := Ok(());
  }

  // ----- the whole run -----

  datatype Outcome = Outcome(rowsWritten: nat, findings: seq<Finding>, rowsCompared: nat, tablesCompared: nat)

  lemma LaterWrites(base: Rows, before: seq<Put>, log: seq<Put>)
    requires before <= log
    ensures Apply(base, log) == Apply(Apply(base, before), log[|before|..])
  {
    assert log == before + log[|before|..];
    ApplyAppend(base, before, log[|before|..]);
  }

  /** Migrate, then verify against a second reading of the source, which may have changed since. */
  method Migrate(target: Target, changes: nat, tables: seq<Table>, again: seq<Table>, batchSize: nat,
                 schemaFindings: seq<Finding>, parse: Parser, w: World) returns (r: Result<Outcome, string>)
    requires AllSound(tables) && AllSound(again) && target.Valid()
    modifies target
    ensures target.Valid() && old(target.log) <= target.log <= old(target.log) + Writes(tables, batchSize, parse)
    ensures target.rows == Apply(old(target.rows), target.log[|old(target.log)|..])
    ensures r.Ok? ==> target.log == old(target.log) + Writes(tables, batchSize, parse)
                      && target.rows == Apply(old(target.rows), Writes(tables, batchSize, parse))
                      && r.value.rowsWritten == |Writes(tables, batchSize, parse)|
                      && r.value.findings == AfterTables(schemaFindings, again, |again|, batchSize, target.rows, parse)
                      && r.value.rowsCompared == RowsReached(again, |again|, batchSize, parse)
                      && (batchSize == 0 || (AllReadable(tables, parse) && AllReadable(again, parse)))
    ensures r.Err? ==> !AllReadable(tables, parse) || !AllReadable(again, parse) || !Faultless(w)
  {
    var applied := ApplySchema(changes, w);
    if applied.Err? {
      return Err(applied.error);
    }
    ghost var before := target.log;
    var copied := CopyAll(target, tables, batchSize, parse, w);
    LaterWrites(target.base, before, target.log);
    if copied.Err? {
      return Err(copied.error);
    }
    var report := new Report();
    report.findings := schemaFindings;
    var verified := VerifyAll(target, again, batchSize, parse, w, report);
    if verified.Err? {
      return Err(verified.error);
    }
    r := Ok(Outcome(copied.value, report.findings, report.rowsCompared, report.tablesCompared));
  }
}
