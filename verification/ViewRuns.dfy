/** The materialized view of one table over every run: which writes and which schema changes keep
    its indexes in step with its rows, and which leave them stale. */
module ViewRuns {
  import opened Prelude
  import Strings
  import opened Values
  import opened IndexKeys
  import opened ViewIndex

  datatype IndexDef = IndexDef(name: string, columns: seq<string>)

  /** Column by column, for the columns under which something was filed since the last rebuild. */
  type Indexes = map<string, Entries>

  datatype View = View(rows: Table, declared: seq<IndexDef>, indexes: Indexes)

  const EMPTY := View(map[], [], map[])

  datatype Event =
    | Put(key: string, value: Value)
    | Delete(key: string)
    | AddTable(indexes: seq<IndexDef>)
    | DropTable
    | AddIndex(index: IndexDef)
    | DropIndex(name: string)
    | RenameColumn(from: string, to: string)
    | DropColumn(column: string)
    | Rebuild

  /** Only indexes over a single column are kept. */
  function IndexedColumns(declared: seq<IndexDef>): seq<string> {
    if declared == [] then []
    else
      var before, last := IndexedColumns(declared[..|declared| - 1]), declared[|declared| - 1];
      if |last.columns| == 1 then before + [last.columns[0]] else before
  }

  function EntriesOf(indexes: Indexes, column: string): Entries {
    if column in indexes then indexes[column] else map[]
  }

  function ReindexColumn(indexes: Indexes, column: string, k: string, before: Option<Value>,
                         after: Option<Value>): Indexes {
    if SameColumn(ColumnOf(before, column), ColumnOf(after, column)) then indexes
    else
      var was, now := KeyOf(before, column), KeyOf(after, column);
      var removed := if was.Some? && column in indexes
                     then indexes[column := Remove(indexes[column], was.value, k)] else indexes;
      if now.Some? then removed[column := Insert(EntriesOf(removed, column), now.value, k)] else removed
  }

  /** The indexes after one row changed, as far as the first `n` columns have been looked at. */
  function ReindexColumns(indexes: Indexes, columns: seq<string>, n: nat, k: string, before: Option<Value>,
                          after: Option<Value>): Indexes
    requires n <= |columns|
  {
    if n == 0 then indexes
    else ReindexColumn(ReindexColumns(indexes, columns, n - 1, k, before, after), columns[n - 1], k, before, after)
  }

  function ReindexRow(indexes: Indexes, columns: seq<string>, k: string, before: Option<Value>,
                      after: Option<Value>): Indexes {
    ReindexColumns(indexes, columns, |columns|, k, before, after)
  }

  /** The indexes rebuilt from the first `n` of the rows with these keys. */
  function RebuiltFrom(rows: Table, keys: seq<string>, n: nat, columns: seq<string>): Indexes
    requires n <= |keys| && forall k :: k in keys ==> k in rows
  {
    if n == 0 then map[]
    else ReindexRow(RebuiltFrom(rows, keys, n - 1, columns), columns, keys[n - 1], None, Some(rows[keys[n - 1]]))
  }

  ghost function Rebuilt(rows: Table, columns: seq<string>): Indexes {
    Strings.SortedKeysAscend(rows.Keys);
    var keys := Strings.SortedKeys(rows.Keys);
    RebuiltFrom(rows, keys, |keys|, columns)
  }

  function Undeclared(declared: seq<IndexDef>, name: string): seq<IndexDef> {
    if declared == [] then []
    else if declared[0].name == name then Undeclared(declared[1..], name)
    else [declared[0]] + Undeclared(declared[1..], name)
  }

  function Renamed(row: Value, from: string, to: string): Value {
    if row.Map? && from in row.fields then Map((row.fields - {from})[to := row.fields[from]]) else row
  }

  /** A row whose last column goes with it is gone. */
  function WithoutColumn(row: Value, column: string): Option<Value> {
    if row.Map? then if row.fields - {column} == map[] then None else Some(Map(row.fields - {column}))
    else if column == VALUE_COLUMN then None
    else Some(row)
  }

  function RenamedRows(rows: Table, from: string, to: string): Table {
    if from == to then rows else map k | k in rows :: Renamed(rows[k], from, to)
  }

  function RowsWithout(rows: Table, column: string): Table {
    map k | k in rows && WithoutColumn(rows[k], column).Some? :: WithoutColumn(rows[k], column).value
  }

  ghost function Changed(v: View, k: string, after: Option<Value>): View {
    v.(rows := Written(v.rows, k, after),
       indexes := ReindexRow(v.indexes, IndexedColumns(v.declared), k, Lookup(v.rows, k), after))
  }

  ghost function Redeclared(v: View, declared: seq<IndexDef>): View {
    View(v.rows, declared, Rebuilt(v.rows, IndexedColumns(declared)))
  }

  ghost function Step(v: View, e: Event): View {
    match e
    case Put(key, value) => Changed(v, key, Some(value))
    case Delete(key) => Changed(v, key, None)
    case AddTable(declared) => v.(declared := declared)
    case DropTable => View(map[], [], v.indexes)
    case AddIndex(index) => Redeclared(v, Undeclared(v.declared, index.name) + [index])
    case DropIndex(name) => Redeclared(v, Undeclared(v.declared, name))
    case RenameColumn(from, to) => v.(rows := RenamedRows(v.rows, from, to))
    case DropColumn(column) => v.(rows := RowsWithout(v.rows, column))
    case Rebuild => Redeclared(v, v.declared)
  }

  // ----- the invariant, and exactly what keeps it -----

  predicate Covered(v: View, column: string) {
    column in IndexedColumns(v.declared) || column in v.indexes
  }

  /** Every index that is declared, and every one that would still answer, is in step. */
  ghost predicate Current(v: View) {
    forall c :: Covered(v, c) ==> InStep(EntriesOf(v.indexes, c), v.rows, c)
  }

  ghost predicate HarmlessChange(v: View, k: string, after: Option<Value>) {
    forall c :: Covered(v, c) ==>
      var before := Lookup(v.rows, k);
      if c in IndexedColumns(v.declared) then !ZeroSwap(ColumnOf(before, c), ColumnOf(after, c))
      else KeyOf(before, c) == KeyOf(after, c)
  }

  /** The key a row would have under a column after another column is renamed to it. */
  predicate SameKeyRenamed(row: Value, from: string, to: string) {
    row.Map? && from in row.fields ==> KeyOfRow(row, to) == Encode(row.fields[from])
  }

  /** A write is harmless unless it swaps the zeros; a schema change, if the rows have nothing to
      file under the columns it touches. */
  ghost predicate Harmless(v: View, e: Event) {
    match e
    case Put(key, value) => HarmlessChange(v, key, Some(value))
    case Delete(key) => HarmlessChange(v, key, None)
    case AddTable(declared) => forall c :: c in IndexedColumns(declared) && !Covered(v, c) ==> Unindexable(v.rows, c)
    case DropTable => forall c :: c in v.indexes ==> Unindexable(v.rows, c)
    case RenameColumn(from, to) => from != to ==>
      && (Covered(v, from) ==> Unindexable(v.rows, from))
      && (Covered(v, to) ==> forall k :: k in v.rows ==> SameKeyRenamed(v.rows[k], from, to))
    case DropColumn(column) => Covered(v, column) ==> Unindexable(v.rows, column)
    case _ => true
  }

  lemma ReindexColumnEntries(indexes: Indexes, column: string, k: string, before: Option<Value>, after: Option<Value>)
    ensures var out := ReindexColumn(indexes, column, k, before, after);
            && EntriesOf(out, column) == Reindexed(EntriesOf(indexes, column), k, before, after, column)
            && (forall c :: c != column ==> (c in out <==> c in indexes) && EntriesOf(out, c) == EntriesOf(indexes, c))
            && (forall c :: c in indexes ==> c in out)
  {}

  /** What a change of one row does to the index of a column. */
  lemma {:induction false} ReindexColumnsKeep(indexes: Indexes, columns: seq<string>, n: nat, rows: Table, k: string,
                                              after: Option<Value>, c: string)
    requires n <= |columns| && InStep(EntriesOf(indexes, c), rows, c)
    ensures var before := Lookup(rows, k);
            var out := ReindexColumns(indexes, columns, n, k, before, after);
            && (c in indexes ==> c in out) && (c in out ==> c in indexes || c in columns[..n])
            && (if c in columns[..n] && !ZeroSwap(ColumnOf(before, c), ColumnOf(after, c))
                then InStep(EntriesOf(out, c), Written(rows, k, after), c)
                else EntriesOf(out, c) == EntriesOf(indexes, c))
  {
    if n > 0 {
      var before, column := Lookup(rows, k), columns[n - 1];
      var soFar := ReindexColumns(indexes, columns, n - 1, k, before, after);
      ReindexColumnsKeep(indexes, columns, n - 1, rows, k, after, c);
      ReindexColumnEntries(soFar, column, k, before, after);
      assert columns[..n] == columns[..n - 1] + [column];
      if column == c {
        if c in columns[..n - 1] && !ZeroSwap(ColumnOf(before, c), ColumnOf(after, c)) {
          ReindexAgain(EntriesOf(soFar, c), rows, k, before, after, c);
        } else {
          ReindexKeepsStepExactly(EntriesOf(indexes, c), rows, k, after, c);
        }
      }
    }
  }

  lemma ChangeKeepsCurrentExactly(v: View, k: string, after: Option<Value>)
    requires Current(v)
    ensures Current(Changed(v, k, after)) <==> HarmlessChange(v, k, after)
  {
    var columns, before, next := IndexedColumns(v.declared), Lookup(v.rows, k), Changed(v, k, after);
    assert columns[..|columns|] == columns;
    forall c | Covered(v, c)
      ensures Covered(next, c)
      ensures InStep(EntriesOf(next.indexes, c), next.rows, c)
              <==> if c in columns then !ZeroSwap(ColumnOf(before, c), ColumnOf(after, c))
                   else KeyOf(before, c) == KeyOf(after, c)
    {
      ReindexColumnsKeep(v.indexes, columns, |columns|, v.rows, k, after, c);
      if c in columns {
        ZeroSwapIsStale(v, k, after, c);
      } else {
        OneRowUntouched(v.indexes[c], v.rows, k, after, c);
      }
    }
    forall c | c in next.indexes ensures Covered(v, c) {
      NothingNewCovered(v.indexes, columns, |columns|, k, before, after, c);
    }
    assert Current(next) <==> forall c :: Covered(v, c) ==> InStep(EntriesOf(next.indexes, c), next.rows, c);
  }

  lemma {:induction false} NothingNewCovered(indexes: Indexes, columns: seq<string>, n: nat, k: string,
                                             before: Option<Value>, after: Option<Value>, c: string)
    requires n <= |columns| && c in ReindexColumns(indexes, columns, n, k, before, after)
    ensures c in indexes || (c in columns && KeyOf(after, c).Some?)
  {
    if n > 0 {
      var soFar := ReindexColumns(indexes, columns, n - 1, k, before, after);
      ReindexColumnEntries(soFar, columns[n - 1], k, before, after);
      if c in soFar {
        NothingNewCovered(indexes, columns, n - 1, k, before, after, c);
      }
    }
  }

  lemma ZeroSwapIsStale(v: View, k: string, after: Option<Value>, c: string)
    requires InStep(EntriesOf(v.indexes, c), v.rows, c)
    ensures ZeroSwap(ColumnOf(Lookup(v.rows, k), c), ColumnOf(after, c)) ==>
              !InStep(EntriesOf(v.indexes, c), Written(v.rows, k, after), c)
  {
    if ZeroSwap(ColumnOf(Lookup(v.rows, k), c), ColumnOf(after, c)) {
      SwappedZeroIsStale(EntriesOf(v.indexes, c), v.rows, k, after, c);
    }
  }

  lemma OneRowUntouched(entries: Entries, rows: Table, k: string, after: Option<Value>, c: string)
    requires InStep(entries, rows, c)
    ensures InStep(entries, Written(rows, k, after), c) <==> KeyOf(Lookup(rows, k), c) == KeyOf(after, c)
  {
    UntouchedInStepExactly(entries, rows, Written(rows, k, after), c);
    forall x | x != k ensures Lookup(rows, x) == Lookup(Written(rows, k, after), x) {}
    assert Lookup(Written(rows, k, after), k) == after;
  }

  // ----- schema changes -----

  /** The first `n` of the rows with some keys. */
  function Part(rows: Table, keys: seq<string>, n: nat): Table
    requires n <= |keys| && forall k :: k in keys ==> k in rows
  {
    if n == 0 then map[] else Written(Part(rows, keys, n - 1), keys[n - 1], Some(rows[keys[n - 1]]))
  }

  lemma {:induction false} PartMembers(rows: Table, keys: seq<string>, n: nat, k: string)
    requires n <= |keys| && forall k :: k in keys ==> k in rows
    ensures Lookup(Part(rows, keys, n), k) == if k in keys[..n] then Some(rows[k]) else None
  {
    if n > 0 {
      PartMembers(rows, keys, n - 1, k);
      assert keys[..n] == keys[..n - 1] + [keys[n - 1]];
    }
  }

  lemma WholePart(rows: Table, keys: seq<string>)
    requires forall k :: k in keys <==> k in rows
    ensures Part(rows, keys, |keys|) == rows
  {
    var part := Part(rows, keys, |keys|);
    assert keys[..|keys|] == keys;
    forall k ensures Lookup(part, k) == Lookup(rows, k) {
      PartMembers(rows, keys, |keys|, k);
    }
    forall k ensures k in part <==> k in rows {
      assert Lookup(part, k) == Lookup(rows, k);
    }
    forall k | k in part ensures part[k] == rows[k] {
      assert Lookup(part, k) == Lookup(rows, k);
    }
  }

  lemma NextKeyIsNew(rows: Table, keys: seq<string>, n: nat)
    requires n < |keys| && Strings.Ascending(keys) && forall k :: k in keys ==> k in rows
    ensures keys[n] !in Part(rows, keys, n)
  {
    PartMembers(rows, keys, n, keys[n]);
    forall i | 0 <= i < n ensures keys[i] != keys[n] {
      Strings.CompareStringTotal(keys[i], keys[n], keys[n]);
    }
  }

  lemma {:induction false} RebuiltFromColumns(rows: Table, keys: seq<string>, n: nat, columns: seq<string>, c: string)
    requires n <= |keys| && (forall k :: k in keys ==> k in rows) && c in RebuiltFrom(rows, keys, n, columns)
    ensures c in columns && !Unindexable(rows, c)
  {
    if n > 0 {
      var before := RebuiltFrom(rows, keys, n - 1, columns);
      if c in before {
        RebuiltFromColumns(rows, keys, n - 1, columns, c);
      } else {
        NothingNewCovered(before, columns, |columns|, keys[n - 1], None, Some(rows[keys[n - 1]]), c);
        assert keys[n - 1] in keys;
      }
    }
  }

  lemma RowReindexed(indexes: Indexes, columns: seq<string>, rows: Table, k: string, value: Value, c: string)
    requires c in columns && k !in rows && InStep(EntriesOf(indexes, c), rows, c)
    ensures InStep(EntriesOf(ReindexRow(indexes, columns, k, None, Some(value)), c), Written(rows, k, Some(value)), c)
  {
    assert columns[..|columns|] == columns;
    ReindexColumnsKeep(indexes, columns, |columns|, rows, k, Some(value), c);
  }

  lemma {:induction false} RebuiltFromInStep(rows: Table, keys: seq<string>, n: nat, columns: seq<string>, c: string)
    requires n <= |keys| && Strings.Ascending(keys) && (forall k :: k in keys ==> k in rows) && c in columns
    ensures InStep(EntriesOf(RebuiltFrom(rows, keys, n, columns), c), Part(rows, keys, n), c)
  {
    if n > 0 {
      RebuiltFromInStep(rows, keys, n - 1, columns, c);
      NextKeyIsNew(rows, keys, n - 1);
      var before := RebuiltFrom(rows, keys, n - 1, columns);
      RowReindexed(before, columns, Part(rows, keys, n - 1), keys[n - 1], rows[keys[n - 1]], c);
    }
  }

  /** After a rebuild every index is in step, however stale they were before. */
  lemma RebuildHeals(v: View, declared: seq<IndexDef>)
    ensures Current(Redeclared(v, declared))
  {
    var columns, keys := IndexedColumns(declared), Strings.SortedKeys(v.rows.Keys);
    Strings.SortedKeysAscend(v.rows.Keys);
    WholePart(v.rows, keys);
    forall c | c in columns || c in Rebuilt(v.rows, columns)
      ensures InStep(EntriesOf(Rebuilt(v.rows, columns), c), v.rows, c)
    {
      if c in Rebuilt(v.rows, columns) {
        RebuiltFromColumns(v.rows, keys, |keys|, columns, c);
      }
      RebuiltFromInStep(v.rows, keys, |keys|, columns, c);
    }
  }

  /** After a rebuild the columns that answer are the declared ones with anything to file. */
  lemma AnswersAfterRebuildExactly(v: View, declared: seq<IndexDef>, c: string)
    ensures c in Redeclared(v, declared).indexes <==> c in IndexedColumns(declared) && !Unindexable(v.rows, c)
  {
    var columns, keys := IndexedColumns(declared), Strings.SortedKeys(v.rows.Keys);
    Strings.SortedKeysAscend(v.rows.Keys);
    if c in Rebuilt(v.rows, columns) {
      RebuiltFromColumns(v.rows, keys, |keys|, columns, c);
    }
    if c in columns && !Unindexable(v.rows, c) {
      RebuildHeals(v, declared);
      assert Covered(Redeclared(v, declared), c);
      EmptyInStepExactly(v.rows, c);
    }
  }

  lemma AddTableExactly(v: View, declared: seq<IndexDef>)
    requires Current(v)
    ensures Current(Step(v, AddTable(declared))) <==> Harmless(v, AddTable(declared))
  {
    var next := Step(v, AddTable(declared));
    forall c ensures !Covered(v, c) ==> (InStep(EntriesOf(v.indexes, c), v.rows, c) <==> Unindexable(v.rows, c)) {
      EmptyInStepExactly(v.rows, c);
    }
    forall c | c in v.indexes ensures Covered(v, c) && Covered(next, c) {}
  }

  ghost predicate SameKeys(rows: Table, after: Table, c: string) {
    forall k :: KeyOf(Lookup(rows, k), c) == KeyOf(Lookup(after, k), c)
  }

  /** Rows changed and indexes not: all is in step after exactly where no covered key changed. */
  lemma RowsOnlyExactly(v: View, rows: Table)
    requires Current(v)
    ensures Current(v.(rows := rows)) <==> forall c :: Covered(v, c) ==> SameKeys(v.rows, rows, c)
  {
    var next := v.(rows := rows);
    forall c ensures Covered(next, c) <==> Covered(v, c) {}
    forall c | Covered(v, c) ensures InStep(EntriesOf(next.indexes, c), rows, c) <==> SameKeys(v.rows, rows, c) {
      UntouchedInStepExactly(EntriesOf(v.indexes, c), v.rows, rows, c);
    }
  }

  lemma DropTableExactly(v: View)
    requires Current(v)
    ensures Current(Step(v, DropTable)) <==> Harmless(v, DropTable)
  {
    var next := Step(v, DropTable);
    forall c | c in v.indexes
      ensures InStep(EntriesOf(next.indexes, c), map[], c) <==> Unindexable(v.rows, c)
    {
      assert Covered(v, c);
      UntouchedInStepExactly(v.indexes[c], v.rows, map[], c);
      assert forall k :: k in v.rows ==> KeyOf(Lookup(v.rows, k), c) == KeyOfRow(v.rows[k], c);
      assert forall k :: k !in v.rows ==> KeyOf(Lookup(v.rows, k), c).None?;
      assert forall k :: KeyOf(Lookup(map[], k), c).None?;
    }
    assert forall c :: Covered(next, c) <==> c in v.indexes;
  }

  lemma RenamedKey(row: Value, from: string, to: string, c: string)
    requires from != to
    ensures KeyOfRow(Renamed(row, from, to), c)
            == if c == from then None
               else if c == to && row.Map? && from in row.fields then Encode(row.fields[from])
               else KeyOfRow(row, c)
  {}

  lemma RenameSameKeysExactly(rows: Table, from: string, to: string, c: string)
    requires from != to
    ensures SameKeys(rows, RenamedRows(rows, from, to), c)
            <==> && (c == from ==> Unindexable(rows, from))
                 && (c == to ==> forall k :: k in rows ==> SameKeyRenamed(rows[k], from, to))
  {
    var after := RenamedRows(rows, from, to);
    forall k ensures KeyOf(Lookup(rows, k), c) == KeyOf(Lookup(after, k), c)
                     <==> k in rows ==> && (c == from ==> KeyOfRow(rows[k], from).None?)
                                        && (c == to ==> SameKeyRenamed(rows[k], from, to)) {
      if k in rows {
        RenamedKey(rows[k], from, to, c);
      }
    }
  }

  lemma RenameColumnExactly(v: View, from: string, to: string)
    requires Current(v)
    ensures Current(Step(v, RenameColumn(from, to))) <==> Harmless(v, RenameColumn(from, to))
  {
    if from != to {
      RowsOnlyExactly(v, RenamedRows(v.rows, from, to));
      RenameSameKeysExactly(v.rows, from, to, from);
      RenameSameKeysExactly(v.rows, from, to, to);
      forall c | c != from && c != to ensures SameKeys(v.rows, RenamedRows(v.rows, from, to), c) {
        RenameSameKeysExactly(v.rows, from, to, c);
      }
    }
  }

  lemma KeyWithout(row: Value, column: string, c: string)
    ensures KeyOf(WithoutColumn(row, column), c) == if c == column then None else KeyOfRow(row, c)
  {
    if row.Map? && c != column && c in row.fields {
      assert c in row.fields - {column};
    }
  }

  lemma DropSameKeysExactly(rows: Table, column: string, c: string)
    ensures SameKeys(rows, RowsWithout(rows, column), c) <==> (c == column ==> Unindexable(rows, column))
  {
    var after := RowsWithout(rows, column);
    forall k ensures KeyOf(Lookup(rows, k), c) == KeyOf(Lookup(after, k), c)
                     <==> (k in rows && c == column ==> KeyOfRow(rows[k], column).None?) {
      if k in rows {
        KeyWithout(rows[k], column, c);
        assert Lookup(after, k) == WithoutColumn(rows[k], column);
      }
    }
  }

  lemma DropColumnExactly(v: View, column: string)
    requires Current(v)
    ensures Current(Step(v, DropColumn(column))) <==> Harmless(v, DropColumn(column))
  {
    RowsOnlyExactly(v, RowsWithout(v.rows, column));
    forall c
      ensures SameKeys(v.rows, RowsWithout(v.rows, column), c) <==> (c == column ==> Unindexable(v.rows, column))
    {
      DropSameKeysExactly(v.rows, column, c);
    }
  }

  /** From indexes in step, an event leaves them in step exactly when it is harmless. */
  lemma StepKeepsCurrentExactly(v: View, e: Event)
    requires Current(v)
    ensures Current(Step(v, e)) <==> Harmless(v, e)
  {
    match e
    case Put(key, value) => ChangeKeepsCurrentExactly(v, key, Some(value));
    case Delete(key) => ChangeKeepsCurrentExactly(v, key, None);
    case AddTable(declared) => AddTableExactly(v, declared);
    case DropTable => DropTableExactly(v);
    case AddIndex(index) => RebuildHeals(v, Undeclared(v.declared, index.name) + [index]);
    case DropIndex(name) => RebuildHeals(v, Undeclared(v.declared, name));
    case RenameColumn(from, to) => RenameColumnExactly(v, from, to);
    case DropColumn(column) => DropColumnExactly(v, column);
    case Rebuild => RebuildHeals(v, v.declared);
  }

  // ----- runs -----

  ghost function Run(v: View, events: seq<Event>): View
    decreases |events|
  {
    if events == [] then v else Step(Run(v, events[..|events| - 1]), events[|events| - 1])
  }

  lemma RunStep(v: View, events: seq<Event>, e: Event)
    ensures Run(v, events + [e]) == Step(Run(v, events), e)
  {
    assert (events + [e])[..|events|] == events;
  }

  predicate Rebuilds(e: Event) {
    e.AddIndex? || e.DropIndex? || e.Rebuild?
  }

  /** Everything since the last rebuild was harmless. */
  ghost predicate HarmlessSinceRebuild(v: View, events: seq<Event>)
    decreases |events|
  {
    if events == [] then Current(v)
    else
      var before, last := events[..|events| - 1], events[|events| - 1];
      Rebuilds(last) || (HarmlessSinceRebuild(v, before) && Harmless(Run(v, before), last))
  }

  /** From any state at all, stale or not, every index is in step once they have been rebuilt and
      nothing harmful has happened since. */
  lemma {:induction false} RunsEndCurrent(v: View, events: seq<Event>)
    requires HarmlessSinceRebuild(v, events)
    ensures Current(Run(v, events))
    decreases |events|
  {
    if events != [] {
      var before, last := Run(v, events[..|events| - 1]), events[|events| - 1];
      match last
      case AddIndex(index) => RebuildHeals(before, Undeclared(before.declared, index.name) + [index]);
      case DropIndex(name) => RebuildHeals(before, Undeclared(before.declared, name));
      case Rebuild => RebuildHeals(before, before.declared);
      case _ =>
        RunsEndCurrent(v, events[..|events| - 1]);
        StepKeepsCurrentExactly(before, last);
    }
  }
}
