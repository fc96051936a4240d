/** Reading a source table in key-ordered batches. */
module Importing {
  import opened Prelude
  import opened Values
  import Joining

  datatype ColumnPlan = ColumnPlan(sourceName: string, targetName: string, ty: ValueType, lossy: bool)

  datatype TablePlan = TablePlan(sourceName: string, targetName: string, columns: seq<ColumnPlan>, keyArity: nat)

  /** A row of the source as the query returns it: every column as text or NULL, then the key. */
  datatype SourceRow = SourceRow(cells: seq<Option<string>>, key: seq<string>)

  /** Postgres' order on the key of one table. */
  type KeyLess = (seq<string>, seq<string>) -> bool

  /** A table of the source, its rows in the order of their primary keys. */
  datatype Table = Table(plan: TablePlan, rows: seq<SourceRow>, less: KeyLess)

  /** The `n`th key comes after all those before it, and none of them after it. */
  predicate Follows(rows: seq<SourceRow>, less: KeyLess, n: nat)
    requires n < |rows|
  {
    && !less(rows[n].key, rows[n].key)
    && forall i :: 0 <= i < n ==> less(rows[i].key, rows[n].key) && !less(rows[n].key, rows[i].key)
  }

  predicate InKeyOrder(rows: seq<SourceRow>, less: KeyLess, n: nat)
    requires n <= |rows|
  {
    n == 0 || (InKeyOrder(rows, less, n - 1) && Follows(rows, less, n - 1))
  }

  /** What the database promises: rows of the right shape, unique keys, and one order for both
      the comparison and the sorting. */
  ghost predicate Sound(t: Table) {
    && (forall i :: 0 <= i < |t.rows| ==>
          |t.rows[i].cells| == |t.plan.columns| && |t.rows[i].key| == t.plan.keyArity)
    && InKeyOrder(t.rows, t.less, |t.rows|)
  }

  lemma {:induction false} KeysCompareAsPositions(rows: seq<SourceRow>, less: KeyLess, n: nat, i: nat, j: nat)
    requires i < n <= |rows| && j < n && InKeyOrder(rows, less, n)
    ensures less(rows[i].key, rows[j].key) <==> i < j
  {
    if i < n - 1 && j < n - 1 {
      KeysCompareAsPositions(rows, less, n - 1, i, j);
    }
  }

  /** Parses the text of a column of a type. */
  type Parser = (string, ValueType) -> Result<Value, string>

  datatype ImportedRow = ImportedRow(primaryKey: string, value: Value)

  datatype Cursor = Cursor(after: Option<seq<string>>, rowsImported: nat)

  datatype Batch = Batch(rows: seq<ImportedRow>, cursor: Cursor)

  const BEGINNING := Cursor(None, 0)

  /** U+001F, which no scalar's text contains. */
  const UNIT_SEPARATOR: char := '\U{1f}'

  function RenderKey(parts: seq<string>): string {
    Joining.JoinText(parts, UNIT_SEPARATOR)
  }

  // ----- one row -----

  function ParseCell(text: Option<string>, ty: ValueType, parse: Parser): Result<Value, string> {
    match text
    case None => Ok(Value.Null)
    case Some(s) => parse(s, ty)
  }

  /** The fields of the first `n` columns; a null is absence. */
  function Fields(columns: seq<ColumnPlan>, cells: seq<Option<string>>, n: nat, parse: Parser): Result<map<string,
                  Value>, string>
    requires n <= |columns| == |cells|
  {
    if n == 0 then Ok(map[])
    else
      var before :- Fields(columns, cells, n - 1, parse);
      var value :- ParseCell(cells[n - 1], columns[n - 1].ty, parse);
      Ok(if value.Null? then before else before[columns[n - 1].targetName := value])
  }

  function Imported(plan: TablePlan, row: SourceRow, parse: Parser): Result<ImportedRow, string>
    requires |row.cells| == |plan.columns|
  {
    var fields :- Fields(plan.columns, row.cells, |plan.columns|, parse);
    Ok(ImportedRow(RenderKey(row.key), Map(fields)))
  }

  /** The first `n` rows of a table can all be read. */
  ghost predicate ReadableRows(t: Table, n: nat, parse: Parser)
    requires Sound(t) && n <= |t.rows|
  {
    n == 0 || (ReadableRows(t, n - 1, parse) && Imported(t.plan, t.rows[n - 1], parse).Ok?)
  }

  ghost predicate Readable(t: Table, parse: Parser)
    requires Sound(t)
  {
    ReadableRows(t, |t.rows|, parse)
  }

  lemma {:induction false} ReadableRowsExactly(t: Table, n: nat, parse: Parser)
    requires Sound(t) && n <= |t.rows|
    ensures ReadableRows(t, n, parse) <==> forall i :: 0 <= i < n ==> Imported(t.plan, t.rows[i], parse).Ok?
  {
    if n > 0 {
      ReadableRowsExactly(t, n - 1, parse);
    }
  }

  /** Each column reads as the text of its cell does, a null cell and a null value as nothing. */
  lemma {:induction false} FieldsAreCells(columns: seq<ColumnPlan>, cells: seq<Option<string>>, n: nat, parse: Parser,
                                          i: nat)
    requires i < n <= |columns| == |cells| && Fields(columns, cells, n, parse).Ok?
    requires forall j, k :: 0 <= j < k < |columns| ==> columns[j].targetName != columns[k].targetName
    ensures var fields, name := Fields(columns, cells, n, parse).value, columns[i].targetName;
            match cells[i]
            case None => name !in fields
            case Some(text) =>
              var read := parse(text, columns[i].ty);
              && read.Ok?
              && if read.value.Null? then name !in fields else name in fields && fields[name] == read.value
  {
    if i < n - 1 {
      FieldsAreCells(columns, cells, n - 1, parse, i);
    } else {
      FieldsAreNamed(columns, cells, n - 1, parse, columns[i].targetName);
    }
  }

  /** A row cannot be read exactly when some cell with a text in it cannot. */
  lemma {:induction false} FieldsFailExactly(columns: seq<ColumnPlan>, cells: seq<Option<string>>, n: nat,
                                             parse: Parser)
    requires n <= |columns| == |cells|
    ensures Fields(columns, cells, n, parse).Err?
            <==> exists i :: 0 <= i < n && cells[i].Some? && parse(cells[i].value, columns[i].ty).Err?
  {
    if n > 0 {
      FieldsFailExactly(columns, cells, n - 1, parse);
    }
  }

  lemma {:induction false} FieldsAreNamed(columns: seq<ColumnPlan>, cells: seq<Option<string>>, n: nat, parse: Parser,
                                          name: string)
    requires n <= |columns| == |cells| && Fields(columns, cells, n, parse).Ok?
    requires forall j :: 0 <= j < n ==> columns[j].targetName != name
    ensures name !in Fields(columns, cells, n, parse).value
  {
    if n > 0 {
      FieldsAreNamed(columns, cells, n - 1, parse, name);
    }
  }

  // ----- one query -----

  /** `WHERE key > after ORDER BY key LIMIT n`. */
  function Matching(rows: seq<SourceRow>, less: KeyLess, after: Option<seq<string>>): seq<SourceRow> {
    if rows == [] then []
    else if after.None? || less(after.value, rows[0].key) then [rows[0]] + Matching(rows[1..], less, after)
    else Matching(rows[1..], less, after)
  }

  function Query(t: Table, after: Option<seq<string>>, limit: nat): seq<SourceRow> {
    Take(Matching(t.rows, t.less, after), limit)
  }

  /** The cursor after the first `n` rows. */
  function CursorAt(t: Table, n: nat): Cursor
    requires n <= |t.rows|
  {
    Cursor(if n == 0 then None else Some(t.rows[n - 1].key), n)
  }

  lemma {:induction false} MatchingFrom(rows: seq<SourceRow>, less: KeyLess, after: Option<seq<string>>, n: nat)
    requires n <= |rows|
    requires forall i :: 0 <= i < |rows| ==> (after.None? || less(after.value, rows[i].key) <==> n <= i)
    ensures Matching(rows, less, after) == rows[n..]
    decreases |rows|
  {
    if rows != [] {
      MatchingFrom(rows[1..], less, after, if n == 0 then 0 else n - 1);
    }
  }

  /** The query after the first `n` rows returns the rows that come next, as many as asked. */
  lemma QueryContinues(t: Table, n: nat, limit: nat)
    requires Sound(t) && n <= |t.rows|
    ensures Query(t, CursorAt(t, n).after, limit) == t.rows[n..Min(n + limit, |t.rows|)]
  {
    if n > 0 {
      forall i | 0 <= i < |t.rows| ensures t.less(t.rows[n - 1].key, t.rows[i].key) <==> n <= i {
        KeysCompareAsPositions(t.rows, t.less, |t.rows|, n - 1, i);
      }
    }
    MatchingFrom(t.rows, t.less, CursorAt(t, n).after, n);
  }

  /** What a batch holds of the rows the query returned. */
  ghost predicate IsBatchOf(b: Result<Batch, string>, t: Table, cursor: Cursor, selected: seq<SourceRow>, parse: Parser)
    requires forall i :: 0 <= i < |selected| ==> |selected[i].cells| == |t.plan.columns|
  {
    if exists i :: 0 <= i < |selected| && Imported(t.plan, selected[i], parse).Err? then b.Err?
    else
      && b.Ok?
      && |b.value.rows| == |selected|
      && (forall i :: 0 <= i < |selected| ==> Imported(t.plan, selected[i], parse) == Ok(b.value.rows[i]))
      && b.value.cursor == Cursor(if selected == [] then cursor.after else Some(selected[|selected| - 1].key),
                                  cursor.rowsImported + |selected|)
  }

  lemma {:induction false} MatchingMembers(rows: seq<SourceRow>, less: KeyLess, after: Option<seq<string>>,
                                           row: SourceRow)
    requires row in Matching(rows, less, after)
    ensures row in rows
  {
    if row != rows[0] || (after.Some? && !less(after.value, rows[0].key)) {
      MatchingMembers(rows[1..], less, after, row);
    }
  }

  /** Read one row of a result. */
  method ImportRow(plan: TablePlan, row: SourceRow, parse: Parser) returns (r: Result<ImportedRow, string>)
    requires |row.cells| == |plan.columns|
    ensures r.Ok? <==> Imported(plan, row, parse).Ok?
    ensures r.Ok? ==> r == Imported(plan, row, parse)
  {
    var fields: map<string, Value> := map[];
    ghost var n := |plan.columns|;
    for i := 0 to |plan.columns|
      invariant Fields(plan.columns, row.cells, i, parse) == Ok(fields)
    {
      var value := ParseCell(row.cells[i], plan.columns[i].ty, parse);
      if value.Err? {
        FieldsFail(plan.columns, row.cells, i + 1, n, parse);
        return Err(value.error);
      }
      if !value.value.Null? {
        fields := fields[plan.columns[i].targetName := value.value];
      }
    }
    r := Ok(ImportedRow(RenderKey(row.key), Map(fields)));
  }

  lemma {:induction false} FieldsFail(columns: seq<ColumnPlan>, cells: seq<Option<string>>, i: nat, n: nat,
                                      parse: Parser)
    requires i <= n <= |columns| == |cells| && Fields(columns, cells, i, parse).Err?
    ensures Fields(columns, cells, n, parse).Err?
  {
    if i < n {
      FieldsFail(columns, cells, i, n - 1, parse);
    }
  }

  /** `next_batch`. */
  method NextBatch(t: Table, cursor: Cursor, batchSize: nat, parse: Parser) returns (b: Result<Batch, string>)
    requires forall i :: 0 <= i < |t.rows| ==> |t.rows[i].cells| == |t.plan.columns|
    ensures forall i :: 0 <= i < |Query(t, cursor.after, batchSize)| ==>
              |Query(t, cursor.after, batchSize)[i].cells| == |t.plan.columns|
    ensures IsBatchOf(b, t, cursor, Query(t, cursor.after, batchSize), parse)
  {
    var selected := Query(t, cursor.after, batchSize);
    forall i | 0 <= i < |selected| ensures |selected[i].cells| == |t.plan.columns| {
      MatchingMembers(t.rows, t.less, cursor.after, selected[i]);
    }
    var rows, lastKey := [], None;
    for i := 0 to |selected|
      invariant |rows| == i && lastKey == if i == 0 then None else Some(selected[i - 1].key)
      invariant forall j :: 0 <= j < i ==> Imported(t.plan, selected[j], parse) == Ok(rows[j])
    {
      var row := ImportRow(t.plan, selected[i], parse);
      if row.Err? {
        return Err(row.error);
      }
      rows := rows + [row.value];
      lastKey := Some(selected[i].key);
    }
    var after := if lastKey.Some? then lastKey else cursor.after;
    b := Ok(Batch(rows, Cursor(after, cursor.rowsImported + |selected|)));
  }

  /** From the cursor after the first `n` rows, a batch is the rows that come next and its cursor
      is the one after them; it is empty only when nothing is left or nothing was asked for. */
  lemma BatchContinues(t: Table, n: nat, batchSize: nat, b: Result<Batch, string>, parse: Parser)
    requires Sound(t) && n <= |t.rows|
    requires IsBatchOf(b, t, CursorAt(t, n), t.rows[n..Min(n + batchSize, |t.rows|)], parse)
    ensures b.Ok? ==> n + |b.value.rows| <= |t.rows|
                      && b.value.cursor == CursorAt(t, n + |b.value.rows|)
                      && (forall j :: n <= j < n + |b.value.rows| ==>
                         Imported(t.plan, t.rows[j], parse) == Ok(b.value.rows[j - n]))
                      && (b.value.rows == [] <==> batchSize == 0 || n == |t.rows|)
    ensures b.Err? ==> !Readable(t, parse)
  {
    var selected := t.rows[n..Min(n + batchSize, |t.rows|)];
    ReadableRowsExactly(t, |t.rows|, parse);
    if b.Err? {
      var i :| 0 <= i < |selected| && Imported(t.plan, selected[i], parse).Err?;
      assert selected[i] == t.rows[n + i];
    }
  }
}
