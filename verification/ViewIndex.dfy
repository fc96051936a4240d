/** A column's secondary index: what it holds, and how it is kept in step with the rows. */
module ViewIndex {
  import opened Prelude
  import opened Strings
  import opened Floats
  import opened Values
  import opened IndexKeys

  type Table = map<string, Value>
  type Entries = map<seq<byte>, set<string>>

  /** What an index reads from a row: a field of a map, never the pseudo-columns. */
  function ColumnValue(row: Value, column: string): Option<Value> {
    if row.Map? && column in row.fields then Some(row.fields[column]) else None
  }

  function KeyOfRow(row: Value, column: string): Option<seq<byte>> {
    var v := ColumnValue(row, column);
    if v.Some? then Encode(v.value) else None
  }

  function KeyOf(row: Option<Value>, column: string): Option<seq<byte>> {
    if row.Some? then KeyOfRow(row.value, column) else None
  }

  predicate Files(entries: Entries, e: seq<byte>, k: string) {
    e in entries && k in entries[e]
  }

  /** A key is filed under exactly the encoding its row has; no bucket is empty. */
  ghost predicate InStep(entries: Entries, rows: Table, column: string) {
    && (forall e, k :: Files(entries, e, k) <==> k in rows && KeyOfRow(rows[k], column) == Some(e))
    && NoEmptyBucket(entries)
  }

  ghost predicate NoEmptyBucket(entries: Entries) {
    forall e :: e in entries ==> entries[e] != {}
  }

  function Insert(entries: Entries, e: seq<byte>, k: string): Entries {
    entries[e := (if e in entries then entries[e] else {}) + {k}]
  }

  function Remove(entries: Entries, e: seq<byte>, k: string): Entries {
    if e !in entries then entries
    else if entries[e] - {k} == {} then entries - {e}
    else entries[e := entries[e] - {k}]
  }

  /** Rust's `==` on two column values, as far as an index can tell: floats compare as
      numbers, so the two zeros are equal and a NaN differs from itself. */
  predicate SameColumn(a: Option<Value>, b: Option<Value>) {
    if a.Some? && b.Some? && a.value.Float? && b.value.Float?
    then PartialCompare(a.value.f, b.value.f) == Some(Equal)
    else a == b
  }

  predicate ZeroSwap(a: Option<Value>, b: Option<Value>) {
    a.Some? && b.Some? && a.value.Float? && b.value.Float? && a != b && a.value.f.magnitude == 0
      && b.value.f.magnitude == 0
  }

  function ColumnOf(row: Option<Value>, column: string): Option<Value> {
    if row.Some? then ColumnValue(row.value, column) else None
  }

  function Reindexed(entries: Entries, k: string, before: Option<Value>, after: Option<Value>,
                     column: string): Entries {
    if SameColumn(ColumnOf(before, column), ColumnOf(after, column)) then entries
    else
      var removed := if KeyOf(before, column).Some? then Remove(entries, KeyOf(before, column).value, k) else entries;
      if KeyOf(after, column).Some? then Insert(removed, KeyOf(after, column).value, k) else removed
  }

  function Lookup(rows: Table, k: string): Option<Value> {
    if k in rows then Some(rows[k]) else None
  }

  function Written(rows: Table, k: string, after: Option<Value>): Table {
    if after.Some? then rows[k := after.value] else rows - {k}
  }

  lemma RemoveTakesOne(entries: Entries, e: seq<byte>, k: string)
    requires NoEmptyBucket(entries)
    ensures forall d, x :: Files(Remove(entries, e, k), d, x) <==> Files(entries, d, x) && !(d == e && x == k)
    ensures NoEmptyBucket(Remove(entries, e, k))
  {
    var out := Remove(entries, e, k);
    forall d, x ensures Files(out, d, x) <==> Files(entries, d, x) && !(d == e && x == k) {
      assert e in entries && x in entries[e] && x != k ==> x in entries[e] - {k};
    }
  }

  lemma InsertAddsOne(entries: Entries, e: seq<byte>, k: string)
    requires NoEmptyBucket(entries)
    ensures forall d, x :: Files(Insert(entries, e, k), d, x) <==> Files(entries, d, x) || (d == e && x == k)
    ensures NoEmptyBucket(Insert(entries, e, k))
  {
    var out := Insert(entries, e, k);
    assert out[e] == (if e in entries then entries[e] else {}) + {k};
    forall d | d in out ensures out[d] != {} {
      assert d == e ==> k in out[d];
    }
  }

  /** What reindexing files: the row's old key is gone, and its new key is there. */
  lemma ReindexedFiles(entries: Entries, k: string, before: Option<Value>, after: Option<Value>, column: string)
    requires NoEmptyBucket(entries) && !SameColumn(ColumnOf(before, column), ColumnOf(after, column))
    ensures var out := Reindexed(entries, k, before, after, column);
            && NoEmptyBucket(out)
            && forall d, x :: Files(out, d, x)
                              <==> || (Files(entries, d, x) && !(x == k && KeyOf(before, column) == Some(d)))
                                   || (x == k && KeyOf(after, column) == Some(d))
  {
    var removed := entries;
    if KeyOf(before, column).Some? {
      RemoveTakesOne(entries, KeyOf(before, column).value, k);
      removed := Remove(entries, KeyOf(before, column).value, k);
    }
    if KeyOf(after, column).Some? {
      InsertAddsOne(removed, KeyOf(after, column).value, k);
    }
  }

  lemma ReindexedInStep(entries: Entries, out: Entries, rows: Table, k: string, after: Option<Value>, column: string)
    requires InStep(entries, rows, column) && NoEmptyBucket(out)
    requires forall d, x :: Files(out, d, x)
                            <==> || (Files(entries, d, x) && !(x == k && KeyOf(Lookup(rows, k), column) == Some(d)))
                                 || (x == k && KeyOf(after, column) == Some(d))
    ensures InStep(out, Written(rows, k, after), column)
  {
    var written := Written(rows, k, after);
    forall d, x ensures Files(out, d, x) <==> x in written && KeyOfRow(written[x], column) == Some(d) {
      assert Files(entries, d, x) <==> x in rows && KeyOfRow(rows[x], column) == Some(d);
      assert x != k ==> (x in written <==> x in rows) && (x in rows ==> written[x] == rows[x]);
    }
  }

  /** Reindexing one changed row keeps the index in step exactly when the change did not swap
      one zero for the other: that change is taken for no change, and the key goes stale. */
  lemma ReindexKeepsStepExactly(entries: Entries, rows: Table, k: string, after: Option<Value>, column: string)
    requires InStep(entries, rows, column)
    ensures InStep(Reindexed(entries, k, Lookup(rows, k), after, column), Written(rows, k, after), column)
            <==> !ZeroSwap(ColumnOf(Lookup(rows, k), column), ColumnOf(after, column))
  {
    var before := Lookup(rows, k);
    var was, now := ColumnOf(before, column), ColumnOf(after, column);
    if ZeroSwap(was, now) {
      SwappedZeroIsStale(entries, rows, k, after, column);
    } else if !SameColumn(was, now) {
      ReindexedFiles(entries, k, before, after, column);
      ReindexedInStep(entries, Reindexed(entries, k, before, after, column), rows, k, after, column);
    }
  }

  lemma SwappedZeroIsStale(entries: Entries, rows: Table, k: string, after: Option<Value>, column: string)
    requires InStep(entries, rows, column) && ZeroSwap(ColumnOf(Lookup(rows, k), column), ColumnOf(after, column))
    ensures Reindexed(entries, k, Lookup(rows, k), after, column) == entries
    ensures !InStep(entries, Written(rows, k, after), column)
  {
    var was, now := ColumnOf(Lookup(rows, k), column), ColumnOf(after, column);
    FloatKeyOrder(was.value.f, now.value.f);
    KeyOrderIsValueOrder(was.value, now.value);
    CompareBytesEqual(Encode(was.value).value, Encode(now.value).value);
    assert KeyOfRow(rows[k], column) != KeyOfRow(Written(rows, k, after)[k], column);
    assert Files(entries, KeyOfRow(rows[k], column).value, k);
  }

  /** Reindexing the same change a second time, for a second index on the column, changes nothing that counts. */
  lemma ReindexAgain(entries: Entries, rows: Table, k: string, before: Option<Value>, after: Option<Value>,
                     column: string)
    requires InStep(entries, Written(rows, k, after), column)
    ensures InStep(Reindexed(entries, k, before, after, column), Written(rows, k, after), column)
  {
    if !SameColumn(ColumnOf(before, column), ColumnOf(after, column)) {
      ReindexedFiles(entries, k, before, after, column);
      var out, written := Reindexed(entries, k, before, after, column), Written(rows, k, after);
      forall d, x ensures Files(out, d, x) <==> x in written && KeyOfRow(written[x], column) == Some(d) {
        assert Files(entries, d, x) <==> x in written && KeyOfRow(written[x], column) == Some(d);
      }
    }
  }

  /** An index nobody touches is in step with other rows exactly when no row's key changed. */
  lemma UntouchedInStepExactly(entries: Entries, rows: Table, after: Table, column: string)
    requires InStep(entries, rows, column)
    ensures InStep(entries, after, column)
            <==> forall k :: KeyOf(Lookup(rows, k), column) == KeyOf(Lookup(after, k), column)
  {
    if InStep(entries, after, column) {
      forall k ensures KeyOf(Lookup(rows, k), column) == KeyOf(Lookup(after, k), column) {
        var was, now := KeyOf(Lookup(rows, k), column), KeyOf(Lookup(after, k), column);
        assert was.Some? ==> Files(entries, was.value, k);
        assert now.Some? ==> Files(entries, now.value, k);
      }
    }
    if forall k :: KeyOf(Lookup(rows, k), column) == KeyOf(Lookup(after, k), column) {
      forall d, x ensures Files(entries, d, x) <==> x in after && KeyOfRow(after[x], column) == Some(d) {
        assert KeyOf(Lookup(rows, x), column) == KeyOf(Lookup(after, x), column);
      }
    }
  }

  /** No row has a value under the column that an index could file. */
  predicate Unindexable(rows: Table, column: string) {
    forall k :: k in rows ==> KeyOfRow(rows[k], column).None?
  }

  lemma EmptyInStepExactly(rows: Table, column: string)
    ensures InStep(map[], rows, column) <==> Unindexable(rows, column)
  {
    if InStep(map[], rows, column) {
      forall k | k in rows ensures KeyOfRow(rows[k], column).None? {
        forall e ensures KeyOfRow(rows[k], column) != Some(e) {
          assert !Files(map[], e, k);
        }
      }
    }
  }

  // ----- sweeping -----

  ghost function Swept(entries: Entries, spans: seq<Span>): set<string> {
    set e, k | e in entries && k in entries[e] && InSomeSpan(e, spans) :: k
  }

  ghost function KeysWithin(rows: Table, column: string, spans: seq<Span>): set<string> {
    set k | k in rows && KeyOfRow(rows[k], column).Some? && InSomeSpan(KeyOfRow(rows[k], column).value, spans)
  }

  /** A sweep of an index in step finds the keys of the rows whose own key some span covers. */
  lemma SweptIsWithin(entries: Entries, rows: Table, column: string, spans: seq<Span>)
    requires InStep(entries, rows, column)
    ensures Swept(entries, spans) == KeysWithin(rows, column, spans)
  {
    forall k ensures k in Swept(entries, spans) <==> k in KeysWithin(rows, column, spans) {
      if k in Swept(entries, spans) {
        var e :| e in entries && k in entries[e] && InSomeSpan(e, spans);
        assert Files(entries, e, k);
      }
      if k in KeysWithin(rows, column, spans) {
        assert Files(entries, KeyOfRow(rows[k], column).value, k);
      }
    }
  }
}
