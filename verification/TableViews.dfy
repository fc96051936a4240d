/** The materialized view of one table as an object, updated in place by writes and schema changes. */
module TableViews {
  import opened Prelude
  import opened Values
  import opened IndexKeys
  import opened ViewIndex
  import opened ViewRuns
  import Strings

  /** What the index on a column answers to a bound, in key order: nothing where nothing was ever
      filed under the column, and nothing where some operand has no key. */
  ghost function Answer(v: View, column: string, bound: IndexBound): Option<seq<string>> {
    if column !in v.indexes || EncodedRange(bound).None? then None
    else Some(Strings.SortedKeys(Swept(v.indexes[column], EncodedRange(bound).value)))
  }

  class TableView {
    var rows: Table
    var declared: seq<IndexDef>
    var indexes: Indexes

    constructor ()
      ensures Value() == EMPTY
    {
      rows, declared, indexes := map[], [], map[];
    }

    function Value(): View
      reads this
    {
      View(rows, declared, indexes)
    }

    /** Keep the indexes in step with one row changing. */
    method ReindexRow(k: string, before: Option<Value>, after: Option<Value>)
      modifies this`indexes
      ensures indexes == ViewRuns.ReindexRow(old(indexes), IndexedColumns(declared), k, before, after)
    {
      var columns := IndexedColumns(declared);
      for i := 0 to |columns|
        invariant indexes == ReindexColumns(old(indexes), columns, i, k, before, after)
      {
        var column := columns[i];
        var was, now := ColumnOf(before, column), ColumnOf(after, column);
        if SameColumn(was, now) {
          continue;
        }
        if was.Some? && Encode(was.value).Some? && column in indexes {
          indexes := indexes[column := Remove(indexes[column], Encode(was.value).value, k)];
        }
        if now.Some? && Encode(now.value).Some? {
          indexes := indexes[column := Insert(EntriesOf(indexes, column), Encode(now.value).value, k)];
        }
      }
    }

    /** Build every index afresh from the rows. */
    method RebuildIndexes()
      modifies this`indexes
      ensures Value() == Step(old(Value()), Rebuild)
    {
      indexes := map[];
      Strings.SortedKeysAscend(rows.Keys);
      var keys := Strings.SortKeySet(rows.Keys);
      for i := 0 to |keys|
        invariant indexes == RebuiltFrom(rows, keys, i, IndexedColumns(declared))
      {
        assert keys[i] in keys;
        ReindexRow(keys[i], None, Some(rows[keys[i]]));
      }
    }

    method Put(k: string, value: Value)
      modifies this
      ensures Value() == Step(old(Value()), Event.Put(k, value))
    {
      var previous := Lookup(rows, k);
      rows := rows[k := value];
      ReindexRow(k, previous, Some(value));
    }

    method Delete(k: string)
      modifies this
      ensures Value() == Step(old(Value()), Event.Delete(k))
    {
      var previous := Lookup(rows, k);
      rows := rows - {k};
      ReindexRow(k, previous, None);
    }

    method AddTable(defs: seq<IndexDef>)
      modifies this
      ensures Value() == Step(old(Value()), Event.AddTable(defs))
    {
      declared := defs;
    }

    method DropTable()
      modifies this
      ensures Value() == Step(old(Value()), Event.DropTable)
    {
      declared := [];
      rows := map[];
    }

    method AddIndex(index: IndexDef)
      modifies this
      ensures Value() == Step(old(Value()), Event.AddIndex(index))
    {
      declared := Undeclared(declared, index.name) + [index];
      RebuildIndexes();
    }

    method DropIndex(name: string)
      modifies this
      ensures Value() == Step(old(Value()), Event.DropIndex(name))
    {
      declared := Undeclared(declared, name);
      RebuildIndexes();
    }

    /** Move one column's values to a new name in every row. The indexes are not touched. */
    method RenameColumnValues(from: string, to: string)
      modifies this`rows
      ensures rows == RenamedRows(old(rows), from, to)
    {
      if from == to {
        return;
      }
      ghost var was := rows;
      var keys := Strings.SortKeySet(rows.Keys);
      for i := 0 to |keys|
        invariant rows == ChangedRows(was, keys, i, Renaming(from, to))
      {
        UnchangedYet(was, keys, i, Renaming(from, to));
        NothingWritten(rows, keys[i]);
        var row := rows[keys[i]];
        if row.Map? && from in row.fields {
          rows := rows[keys[i] := Map((row.fields - {from})[to := row.fields[from]])];
        }
      }
      AllRenamed(was, keys, from, to);
    }

    /** Remove one column from every row, and a row that has no other. The indexes are not touched. */
    method DropColumnValues(column: string)
      modifies this`rows
      ensures rows == RowsWithout(old(rows), column)
    {
      ghost var was := rows;
      var keys := Strings.SortKeySet(rows.Keys);
      for i := 0 to |keys|
        invariant rows == ChangedRows(was, keys, i, Dropping(column))
      {
        UnchangedYet(was, keys, i, Dropping(column));
        NothingWritten(rows, keys[i]);
        var row := rows[keys[i]];
        if row.Map? {
          var fields := row.fields - {column};
          rows := if fields == map[] then rows - {keys[i]} else rows[keys[i] := Map(fields)];
        } else if column == VALUE_COLUMN {
          rows := rows - {keys[i]};
        }
      }
      AllDropped(was, keys, column);
    }

    method RenameColumn(from: string, to: string)
      modifies this`rows
      ensures Value() == Step(old(Value()), Event.RenameColumn(from, to))
    {
      RenameColumnValues(from, to);
    }

    method DropColumn(column: string)
      modifies this`rows
      ensures Value() == Step(old(Value()), Event.DropColumn(column))
    {
      DropColumnValues(column);
    }

    /** The candidate keys for a bound; an ordered map is swept span by span. */
    method Candidates(column: string, bound: IndexBound) returns (keys: Option<seq<string>>)
      requires EncodedRange(bound).Some? ==> forall s :: s in EncodedRange(bound).value ==> !Reversed(s)
      ensures keys == Answer(Value(), column, bound)
    {
      if column !in indexes {
        return None;
      }
      var spans := EncodedRange(bound);
      if spans.None? {
        return None;
      }
      var found := SweepAll(indexes[column], spans.value);
      var sorted := Strings.SortKeySet(found);
      keys := Some(sorted);
    }
  }

  function Renaming(from: string, to: string): Value -> Option<Value> {
    (row: Value) => Some(Renamed(row, from, to))
  }

  function Dropping(column: string): Value -> Option<Value> {
    (row: Value) => WithoutColumn(row, column)
  }

  /** The rows after the first `n` of some keys had theirs changed, or removed. */
  ghost function ChangedRows(rows: Table, keys: seq<string>, n: nat, change: Value -> Option<Value>): Table
    requires n <= |keys|
  {
    if n == 0 then rows
    else
      var before, k := ChangedRows(rows, keys, n - 1, change), keys[n - 1];
      if k in rows then Written(before, k, change(rows[k])) else before
  }

  lemma {:induction false} ChangedByNow(rows: Table, keys: seq<string>, n: nat, k: string,
                                        change: Value -> Option<Value>)
    requires n <= |keys|
    ensures Lookup(ChangedRows(rows, keys, n, change), k)
            == if k in keys[..n] && k in rows then change(rows[k]) else Lookup(rows, k)
  {
    if n > 0 {
      ChangedByNow(rows, keys, n - 1, k, change);
      assert keys[..n] == keys[..n - 1] + [keys[n - 1]];
    }
  }

  /** When a key's turn comes, its row is still the one it was. */
  lemma UnchangedYet(rows: Table, keys: seq<string>, n: nat, change: Value -> Option<Value>)
    requires keys == Strings.SortedKeys(rows.Keys) && n < |keys|
    ensures keys[n] in rows && Lookup(ChangedRows(rows, keys, n, change), keys[n]) == Some(rows[keys[n]])
  {
    Strings.SortedKeysAscend(rows.Keys);
    assert keys[n] in keys;
    forall i | 0 <= i < n ensures keys[i] != keys[n] {
      Strings.CompareStringTotal(keys[i], keys[n], keys[n]);
    }
    ChangedByNow(rows, keys, n, keys[n], change);
  }

  lemma AllChanged(rows: Table, keys: seq<string>, change: Value -> Option<Value>, after: Table)
    requires keys == Strings.SortedKeys(rows.Keys)
    requires forall k :: Lookup(after, k) == if k in rows then change(rows[k]) else None
    ensures ChangedRows(rows, keys, |keys|, change) == after
  {
    Strings.SortedKeysAscend(rows.Keys);
    assert keys[..|keys|] == keys;
    forall k ensures Lookup(ChangedRows(rows, keys, |keys|, change), k) == Lookup(after, k) {
      ChangedByNow(rows, keys, |keys|, k, change);
    }
    SameLookups(ChangedRows(rows, keys, |keys|, change), after);
  }

  lemma NothingWritten(rows: Table, k: string)
    requires k in rows
    ensures Written(rows, k, Some(rows[k])) == rows
  {}

  lemma AllRenamed(rows: Table, keys: seq<string>, from: string, to: string)
    requires from != to && keys == Strings.SortedKeys(rows.Keys)
    ensures ChangedRows(rows, keys, |keys|, Renaming(from, to)) == RenamedRows(rows, from, to)
  {
    AllChanged(rows, keys, Renaming(from, to), RenamedRows(rows, from, to));
  }

  lemma AllDropped(rows: Table, keys: seq<string>, column: string)
    requires keys == Strings.SortedKeys(rows.Keys)
    ensures ChangedRows(rows, keys, |keys|, Dropping(column)) == RowsWithout(rows, column)
  {
    AllChanged(rows, keys, Dropping(column), RowsWithout(rows, column));
  }

  lemma SameLookups(a: Table, b: Table)
    requires forall k :: Lookup(a, k) == Lookup(b, k)
    ensures a == b
  {
    forall k ensures k in a <==> k in b {
      assert Lookup(a, k) == Lookup(b, k);
    }
    forall k | k in a ensures a[k] == b[k] {
      assert Lookup(a, k) == Lookup(b, k);
    }
  }

  /** Every key filed under an encoding that some span covers. */
  method SweepAll(entries: Entries, spans: seq<Span>) returns (found: set<string>)
    ensures found == Swept(entries, spans)
  {
    found := {};
    var left := entries.Keys;
    while left != {}
      invariant left <= entries.Keys
      invariant forall k :: k in found
                            <==> exists e :: e in entries && e !in left && k in entries[e] && InSomeSpan(e, spans)
      decreases left
    {
      var e :| e in left;
      ghost var was := found;
      if InSomeSpan(e, spans) {
        found := found + entries[e];
      }
      forall k ensures k in found
                       <==> exists d :: d in entries && d !in left - {e} && k in entries[d] && InSomeSpan(d, spans) {
        if k in was {
          var d :| d in entries && d !in left && k in entries[d] && InSomeSpan(d, spans);
          assert d !in left - {e};
        } else if k in found {
          assert e in entries && k in entries[e] && InSomeSpan(e, spans);
        }
      }
      left := left - {e};
    }
  }
}
