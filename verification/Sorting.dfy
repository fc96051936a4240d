/** When ORDER BY is deterministic: the comparator, the kinds of value it can order, and
    the uniqueness of the sorted result. */
module Sorting {
  import opened Prelude
  import opened Strings
  import opened Floats
  import opened Values
  import opened IndexKeys
  import opened Plans
  import opened Exec

  // ----- one column -----

  datatype Kind = KNull | KBool | KInt | KFloat | KNaN | KText | KBytes | KTimestamp | KList | KMap

  function KindOf(v: Value): Kind {
    match v
    case Null => KNull
    case Bool(_) => KBool
    case Int(_) => KInt
    case Float(f) => if IsNaN(f) then KNaN else KFloat
    case Text(_) => KText
    case Bytes(_) => KBytes
    case Timestamp(_) => KTimestamp
    case List(_) => KList
    case Map(_) => KMap
  }

  /** Kinds with two values that differ in order. */
  predicate Ordered(k: Kind) {
    k in {KBool, KInt, KFloat, KText, KBytes, KTimestamp}
  }

  predicate Drawn(cell: Option<Value>, kinds: set<Kind>) {
    cell.Some? ==> KindOf(cell.value) in kinds
  }

  predicate Chains(ab: Order, bc: Order, ac: Order) {
    ab != Greater && bc != Greater ==>
      ac != Greater && (ac == Equal ==> ab == Equal && bc == Equal)
  }

  /** The column comparator is a total preorder on cells drawn from these kinds. */
  ghost predicate Preorders(kinds: set<Kind>) {
    forall a, b, c :: Drawn(a, kinds) && Drawn(b, kinds) && Drawn(c, kinds) ==>
      Chains(CompareColumns(a, b), CompareColumns(b, c), CompareColumns(a, c))
  }

  /** One kind of value, or only kinds that have no order at all. */
  predicate OneKind(kinds: set<Kind>) {
    |kinds| <= 1 || forall k :: k in kinds ==> !Ordered(k)
  }

  lemma OneKindPreorders(kinds: set<Kind>, a: Option<Value>, b: Option<Value>, c: Option<Value>)
    requires OneKind(kinds) && Drawn(a, kinds) && Drawn(b, kinds) && Drawn(c, kinds)
    ensures Chains(CompareColumns(a, b), CompareColumns(b, c), CompareColumns(a, c))
  {
    if a.Some? && b.Some? && c.Some? {
      if exists k :: k in kinds && Ordered(k) {
        SingleKind(kinds, KindOf(a.value), KindOf(b.value));
        SingleKind(kinds, KindOf(b.value), KindOf(c.value));
        match a.value {
          case Text(x) => CompareStringTotal(x, b.value.s, c.value.s);
          case Bytes(x) =>
            if CompareBytes(x, b.value.bytes) != Greater && CompareBytes(b.value.bytes, c.value.bytes) != Greater {
              CompareBytesTransitive(x, b.value.bytes, c.value.bytes);
            }
          case _ =>
        }
      } else {
        UnorderedTies(a.value, b.value);
        UnorderedTies(a.value, c.value);
        UnorderedTies(b.value, c.value);
      }
    }
  }

  lemma SingleKind(kinds: set<Kind>, x: Kind, y: Kind)
    requires OneKind(kinds) && x in kinds && y in kinds && exists k :: k in kinds && Ordered(k)
    ensures x == y
  {
    if x != y {
      assert {x, y} <= kinds;
      SubsetSize({x, y}, kinds);
    }
  }

  lemma SubsetSize(small: set<Kind>, big: set<Kind>)
    requires small <= big
    ensures |small| <= |big|
  {
    assert big == small + (big - small);
  }

  lemma UnorderedTies(a: Value, b: Value)
    requires !Ordered(KindOf(a)) && !Ordered(KindOf(b))
    ensures CompareColumns(Some(a), Some(b)) == Equal
  {}

  function Low(k: Kind): Value
    requires Ordered(k)
  {
    match k
    case KBool => Bool(false)
    case KInt => Int(0x20_0000_0000_0000)
    case KFloat => Float(SignMagnitude(false, 0))
    case KText => Text("")
    case KBytes => Bytes([])
    case KTimestamp => Timestamp(0)
  }

  function High(k: Kind): Value
    requires Ordered(k)
  {
    match k
    case KBool => Bool(true)
    case KInt => Int(0x20_0000_0000_0001)
    case KFloat => Float(SignMagnitude(false, 1))
    case KText => Text("a")
    case KBytes => Bytes([0])
    case KTimestamp => Timestamp(1)
  }

  /** A value of any kind; the float is 2^53, which two different integers round to. */
  function Sample(k: Kind): Value {
    match k
    case KNull => Null
    case KNaN => Float(SignMagnitude(false, 0x7FF8_0000_0000_0000))
    case KFloat => Float(SignMagnitude(false, 0x4340_0000_0000_0000))
    case KList => List([])
    case KMap => Map(map[])
    case _ => Low(k)
  }

  lemma LowBelowHigh(k: Kind)
    requires Ordered(k)
    ensures CompareColumns(Some(High(k)), Some(Low(k))) == Greater
  {
    if k.KText? {
      assert Utf8("a") == Utf8Char('a') + Utf8("");
    }
  }

  /** Values of different kinds tie, an integer and a float apart. */
  lemma UnlikeTie(a: Value, b: Value)
    requires KindOf(a) != KindOf(b) && !(a.Int? && KindOf(b) == KFloat) && !(KindOf(a) == KFloat && b.Int?)
    ensures CompareColumns(Some(a), Some(b)) == Equal
  {}

  /** A value of another kind ties with both a low and a high one. */
  lemma OtherKindTies(k: Kind, other: Kind)
    requires Ordered(k) && k != other && !(k == KFloat && other == KInt)
    ensures CompareColumns(Some(High(k)), Some(Sample(other))) == Equal
    ensures CompareColumns(Some(Sample(other)), Some(Low(k))) == Equal
  {
    if k == KInt && other == KFloat {
      TwoIntegersShareAFloat(TWO_53);
    } else {
      SamplesAreOfTheirKind(k);
      SamplesAreOfTheirKind(other);
      UnlikeTie(High(k), Sample(other));
      UnlikeTie(Sample(other), Low(k));
    }
  }

  lemma SamplesAreOfTheirKind(k: Kind)
    ensures KindOf(Sample(k)) == k
    ensures Ordered(k) ==> KindOf(Low(k)) == k && KindOf(High(k)) == k
  {}

  /** Sorting a column is a matter of total preorder exactly when its values are of one kind,
      or of no orderable kind: two kinds always admit a cycle. */
  lemma PreordersExactly(kinds: set<Kind>)
    ensures Preorders(kinds) <==> OneKind(kinds)
  {
    if OneKind(kinds) {
      forall a, b, c | Drawn(a, kinds) && Drawn(b, kinds) && Drawn(c, kinds)
        ensures Chains(CompareColumns(a, b), CompareColumns(b, c), CompareColumns(a, c))
      {
        OneKindPreorders(kinds, a, b, c);
      }
    } else {
      var k :| k in kinds && Ordered(k);
      assert kinds != {k};
      var other :| other in kinds && other != k;
      if k == KFloat && other == KInt {
        k, other := KInt, KFloat;
      }
      SamplesAreOfTheirKind(k);
      SamplesAreOfTheirKind(other);
      LowBelowHigh(k);
      OtherKindTies(k, other);
      var a, b, c := Some(High(k)), Some(Sample(other)), Some(Low(k));
      assert !Chains(CompareColumns(a, b), CompareColumns(b, c), CompareColumns(a, c));
    }
  }

  // ----- rows -----

  function KindsIn(rows: seq<Row>, column: string): set<Kind> {
    set r | r in rows && r.Column(column).Some? :: KindOf(r.Column(column).value)
  }

  /** Each sort column holds values of one kind. */
  predicate Comparable(rows: seq<Row>, keys: SortKeys) {
    forall i :: 0 <= i < |keys| ==> OneKind(KindsIn(rows, keys[i].0))
  }

  lemma {:induction false} CompareRowsReverse(a: Row, b: Row, keys: SortKeys)
    ensures CompareRows(b, a, keys) == CompareRows(a, b, keys).Reverse()
  {
    if keys == [] {
      CompareStringTotal(a.primaryKey, b.primaryKey, a.primaryKey);
    } else {
      var x, y := a.Column(keys[0].0), b.Column(keys[0].0);
      if x.Some? && y.Some? {
        CompareValuesReverse(x.value, y.value);
      }
      CompareRowsReverse(a, b, keys[1..]);
    }
  }

  /** Only rows with one primary key tie. */
  lemma {:induction false} TiesShareKey(a: Row, b: Row, keys: SortKeys)
    requires CompareRows(a, b, keys) == Equal
    ensures a.primaryKey == b.primaryKey
  {
    if keys == [] {
      CompareStringTotal(a.primaryKey, b.primaryKey, a.primaryKey);
    } else {
      TiesShareKey(a, b, keys[1..]);
    }
  }

  lemma {:induction false} CompareRowsTransitive(a: Row, b: Row, c: Row, rows: seq<Row>, keys: SortKeys)
    requires a in rows && b in rows && c in rows && Comparable(rows, keys)
    ensures Chains(CompareRows(a, b, keys), CompareRows(b, c, keys), CompareRows(a, c, keys))
  {
    if keys == [] {
      CompareStringTotal(a.primaryKey, b.primaryKey, c.primaryKey);
      CompareStringTotal(b.primaryKey, c.primaryKey, b.primaryKey);
    } else {
      var column := keys[0].0;
      var kinds := KindsIn(rows, column);
      var x, y, z := a.Column(column), b.Column(column), c.Column(column);
      assert Drawn(x, kinds) && Drawn(y, kinds) && Drawn(z, kinds);
      OneKindPreorders(kinds, x, y, z);
      OneKindPreorders(kinds, z, y, x);
      ColumnsReverse(x, y);
      ColumnsReverse(y, z);
      ColumnsReverse(x, z);
      assert Comparable(rows, keys[1..]) by {
        forall i | 0 <= i < |keys[1..]| ensures OneKind(KindsIn(rows, keys[1..][i].0)) {
          assert keys[1..][i] == keys[i + 1];
        }
      }
      CompareRowsTransitive(a, b, c, rows, keys[1..]);
    }
  }

  lemma ColumnsReverse(x: Option<Value>, y: Option<Value>)
    ensures CompareColumns(y, x) == CompareColumns(x, y).Reverse()
  {
    if x.Some? && y.Some? {
      CompareValuesReverse(x.value, y.value);
    }
  }

  predicate SortedBy(rows: seq<Row>, keys: SortKeys) {
    forall i, j :: 0 <= i < j < |rows| ==> CompareRows(rows[i], rows[j], keys) != Greater
  }

  predicate DistinctKeys(rows: seq<Row>) {
    forall i, j :: 0 <= i < j < |rows| ==> rows[i].primaryKey != rows[j].primaryKey
  }

  lemma {:induction false} InsertKeepsRows(r: Row, s: seq<Row>, keys: SortKeys)
    ensures multiset(InsertRow(r, s, keys)) == multiset([r] + s)
  {
    if s != [] && CompareRows(s[0], r, keys) == Less {
      InsertKeepsRows(r, s[1..], keys);
      assert s == [s[0]] + s[1..];
    }
  }

  /** A sort neither loses nor invents a row. */
  lemma {:induction false} SortKeepsRows(rows: seq<Row>, keys: SortKeys)
    ensures multiset(SortRows(rows, keys)) == multiset(rows)
  {
    if rows != [] {
      SortKeepsRows(rows[1..], keys);
      InsertKeepsRows(rows[0], SortRows(rows[1..], keys), keys);
      assert rows == [rows[0]] + rows[1..];
    }
  }

  lemma SameRows(a: seq<Row>, b: seq<Row>)
    requires multiset(a) == multiset(b)
    ensures |a| == |b|
    ensures forall r :: r in a <==> r in b
  {
    assert |multiset(a)| == |a| && |multiset(b)| == |b|;
    forall r ensures r in a <==> r in b {
      assert r in a <==> r in multiset(a);
      assert r in b <==> r in multiset(b);
    }
  }

  /** Everything from the insertion point on is no earlier than the inserted row. */
  lemma RestNotBefore(r: Row, s: seq<Row>, pool: seq<Row>, keys: SortKeys, j: nat)
    requires Comparable(pool, keys) && r in pool && forall x :: x in s ==> x in pool
    requires SortedBy(s, keys) && j < |s| && CompareRows(s[0], r, keys) != Less
    ensures CompareRows(s[j], r, keys) != Less && CompareRows(r, s[j], keys) != Greater
  {
    CompareRowsReverse(s[0], r, keys);
    CompareRowsReverse(s[j], r, keys);
    CompareRowsTransitive(r, s[0], s[j], pool, keys);
  }

  lemma FirstNotAfter(s: seq<Row>, r: Row, x: Row, keys: SortKeys)
    requires s != [] && SortedBy(s, keys) && CompareRows(s[0], r, keys) == Less && x in [r] + s[1..]
    ensures CompareRows(s[0], x, keys) != Greater
  {
    if x != r {
      var m :| 0 <= m < |s[1..]| && s[1..][m] == x;
      assert s[m + 1] == x;
    }
  }

  lemma {:induction false} InsertSorts(r: Row, s: seq<Row>, pool: seq<Row>, keys: SortKeys)
    requires Comparable(pool, keys) && r in pool && forall x :: x in s ==> x in pool
    requires SortedBy(s, keys)
    ensures SortedBy(InsertRow(r, s, keys), keys)
  {
    var out := InsertRow(r, s, keys);
    if s == [] || CompareRows(s[0], r, keys) != Less {
      forall i, j | 0 <= i < j < |out| ensures CompareRows(out[i], out[j], keys) != Greater {
        if i == 0 {
          RestNotBefore(r, s, pool, keys, j - 1);
        }
      }
    } else {
      InsertSorts(r, s[1..], pool, keys);
      InsertKeepsRows(r, s[1..], keys);
      SameRows(InsertRow(r, s[1..], keys), [r] + s[1..]);
      forall i, j | 0 <= i < j < |out| ensures CompareRows(out[i], out[j], keys) != Greater {
        if i == 0 {
          assert out[j] in InsertRow(r, s[1..], keys);
          FirstNotAfter(s, r, out[j], keys);
        }
      }
    }
  }

  lemma {:induction false} SortSorts(rows: seq<Row>, pool: seq<Row>, keys: SortKeys)
    requires Comparable(pool, keys) && forall x :: x in rows ==> x in pool
    ensures SortedBy(SortRows(rows, keys), keys)
  {
    if rows != [] {
      SortSorts(rows[1..], pool, keys);
      SortKeepsRows(rows[1..], keys);
      SameRows(SortRows(rows[1..], keys), rows[1..]);
      InsertSorts(rows[0], SortRows(rows[1..], keys), pool, keys);
    }
  }

  lemma TailRows(a: seq<Row>)
    requires a != []
    ensures multiset(a[1..]) == multiset(a) - multiset{a[0]}
  {
    assert a == [a[0]] + a[1..];
  }

  lemma SortedHeadsAgree(a: seq<Row>, b: seq<Row>, pool: seq<Row>, keys: SortKeys)
    requires DistinctKeys(pool) && forall x :: x in a ==> x in pool
    requires a != [] && b != [] && b[0] in a && a[0] in b
    requires SortedBy(a, keys) && SortedBy(b, keys)
    ensures a[0] == b[0]
  {
    var i :| 0 <= i < |a| && a[i] == b[0];
    var j :| 0 <= j < |b| && b[j] == a[0];
    CompareRowsReverse(a[0], b[0], keys);
    if a[0] != b[0] {
      TiesShareKey(a[0], b[0], keys);
      DistinctKeysUnique(pool, a[0], b[0]);
    }
  }

  lemma {:induction false} SortedUnique(a: seq<Row>, b: seq<Row>, pool: seq<Row>, keys: SortKeys)
    requires Comparable(pool, keys) && DistinctKeys(pool)
    requires multiset(a) == multiset(b) && forall x :: x in a ==> x in pool
    requires SortedBy(a, keys) && SortedBy(b, keys)
    ensures a == b
  {
    SameRows(a, b);
    if a != [] {
      assert b[0] in b && a[0] in a;
      SortedHeadsAgree(a, b, pool, keys);
      TailRows(a);
      TailRows(b);
      SortedUnique(a[1..], b[1..], pool, keys);
      assert a == [a[0]] + a[1..] && b == [b[0]] + b[1..];
    }
  }

  lemma DistinctKeysUnique(pool: seq<Row>, x: Row, y: Row)
    requires DistinctKeys(pool) && x in pool && y in pool && x.primaryKey == y.primaryKey
    ensures x == y
  {
    var i :| 0 <= i < |pool| && pool[i] == x;
    var j :| 0 <= j < |pool| && pool[j] == y;
  }

  lemma SortIsUnique(rows: seq<Row>, sorted: seq<Row>, keys: SortKeys)
    requires Comparable(rows, keys) && DistinctKeys(rows)
    requires multiset(sorted) == multiset(rows) && SortedBy(sorted, keys)
    ensures sorted == SortRows(rows, keys)
  {
    SortKeepsRows(rows, keys);
    SortSorts(rows, rows, keys);
    SameRows(sorted, rows);
    SortedUnique(sorted, SortRows(rows, keys), rows, keys);
  }

  // ----- what ORDER BY promises, column by column -----

  /** Neither cell comes before the other: both missing, or two values that are equal or do not compare. */
  predicate Tied(a: Option<Value>, b: Option<Value>) {
    && (a.Some? <==> b.Some?)
    && (a.Some? ==> CompareValues(a.value, b.value) in {None, Some(Equal)})
  }

  /** The first cell may stand above the second: ascending, values grow and missing ones come last;
      descending, values shrink and missing ones come first. */
  predicate MayPrecede(a: Option<Value>, b: Option<Value>, direction: SortOrder) {
    match direction
    case Asc => b.Some? ==> a.Some? && CompareValues(b.value, a.value) != Some(Less)
    case Desc => a.Some? ==> b.Some? && CompareValues(b.value, a.value) != Some(Greater)
  }

  /** Two rows tie on the first `n` sort columns. */
  predicate TiedBefore(a: Row, b: Row, keys: SortKeys, n: nat)
    requires n <= |keys|
  {
    forall m :: 0 <= m < n ==> Tied(a.Column(keys[m].0), b.Column(keys[m].0))
  }

  /** The first sort column on which two rows do not tie decides, and their primary keys if there is none. */
  predicate InOrder(a: Row, b: Row, keys: SortKeys) {
    && (forall n :: 0 <= n < |keys| && TiedBefore(a, b, keys, n) ==>
          MayPrecede(a.Column(keys[n].0), b.Column(keys[n].0), keys[n].1))
    && (TiedBefore(a, b, keys, |keys|) ==> CompareString(a.primaryKey, b.primaryKey) != Greater)
  }

  /** Every row stands before every later one by right. */
  predicate Arranged(rows: seq<Row>, keys: SortKeys) {
    forall i, j :: 0 <= i < j < |rows| ==> InOrder(rows[i], rows[j], keys)
  }

  /** The comparator puts a row after another exactly when it must not stand before it. */
  lemma {:induction false} ComparatorIsOrder(a: Row, b: Row, keys: SortKeys)
    ensures CompareRows(a, b, keys) != Greater <==> InOrder(a, b, keys)
  {
    if keys != [] {
      var x, y := a.Column(keys[0].0), b.Column(keys[0].0);
      ColumnsReverse(x, y);
      ComparatorIsOrder(a, b, keys[1..]);
      TailInOrder(a, b, keys);
    }
  }

  lemma TailInOrder(a: Row, b: Row, keys: SortKeys)
    requires keys != []
    ensures var x, y := a.Column(keys[0].0), b.Column(keys[0].0);
            InOrder(a, b, keys)
            <==> MayPrecede(x, y, keys[0].1) && (Tied(x, y) ==> InOrder(a, b, keys[1..]))
  {}

  lemma SortedIsArranged(rows: seq<Row>, keys: SortKeys)
    ensures SortedBy(rows, keys) <==> Arranged(rows, keys)
  {
    forall i, j | 0 <= i < j < |rows|
      ensures CompareRows(rows[i], rows[j], keys) != Greater <==> InOrder(rows[i], rows[j], keys)
    {
      ComparatorIsOrder(rows[i], rows[j], keys);
    }
  }

  /** On comparable rows ORDER BY keeps every promise, column by column. */
  lemma SortArranges(rows: seq<Row>, keys: SortKeys)
    requires Comparable(rows, keys)
    ensures Arranged(SortRows(rows, keys), keys) && multiset(SortRows(rows, keys)) == multiset(rows)
  {
    SortKeepsRows(rows, keys);
    SortSorts(rows, rows, keys);
    SortedIsArranged(SortRows(rows, keys), keys);
  }

  /** The promises leave no choice: the sorted result is the only arrangement of the rows that keeps
      them, so any correct sort returns it, in whatever order the rows arrived. */
  lemma SortIsDeterministic(rows: seq<Row>, arrangement: seq<Row>, keys: SortKeys)
    requires Comparable(rows, keys) && DistinctKeys(rows) && multiset(arrangement) == multiset(rows)
    ensures Arranged(SortRows(rows, keys), keys) && multiset(SortRows(rows, keys)) == multiset(rows)
    ensures Arranged(arrangement, keys) ==> arrangement == SortRows(rows, keys)
    ensures SortRows(arrangement, keys) == SortRows(rows, keys)
  {
    SortArranges(rows, keys);
    SortedIsArranged(arrangement, keys);
    if SortedBy(arrangement, keys) {
      SortIsUnique(rows, arrangement, keys);
    }
    SameRows(arrangement, rows);
    SortSorts(arrangement, rows, keys);
    SortKeepsRows(arrangement, keys);
    SortIsUnique(rows, SortRows(arrangement, keys), keys);
  }

  // ----- a mixed column -----

  lemma SortPair(x: Row, y: Row, keys: SortKeys)
    requires CompareRows(x, y, keys) == Less
    ensures SortRows([x, y], keys) == [x, y]
  {
    CompareRowsReverse(x, y, keys);
    assert [x, y][1..] == [y] && [y][1..] == [];
    assert SortRows([y], keys) == InsertRow(y, SortRows([], keys), keys) == [y];
  }

  const X_ASCENDING: SortKeys := [("x", Asc)]

  function WithX(key: string, x: Value): Row {
    Row(key, Map(map["x" := x]))
  }

  lemma OneColumnCompares(p: string, q: string, x: Value, y: Value)
    ensures var order := CompareColumns(Some(x), Some(y));
            CompareRows(WithX(p, x), WithX(q, y), X_ASCENDING) == if order != Equal then order else CompareString(p, q)
  {
    assert X_ASCENDING[1..] == [];
  }

  lemma LettersAscend()
    ensures CompareString("a", "b") == Less && CompareString("b", "c") == Less
  {
    assert Utf8("a") == Utf8Char('a') + Utf8("") && Utf8("b") == Utf8Char('b') + Utf8("")
           && Utf8("c") == Utf8Char('c') + Utf8("");
  }

  /** Each of three rows before the next, and two of them first: the third stays where it arrived. */
  lemma CircleSorts(a: Row, b: Row, c: Row, keys: SortKeys)
    requires CompareRows(a, b, keys) == Less && CompareRows(b, c, keys) == Less && CompareRows(c, a, keys) == Less
    ensures SortRows([a, b, c], keys) == [a, b, c] && SortRows([c, a, b], keys) == [c, a, b]
  {
    CompareRowsReverse(a, b, keys);
    CompareRowsReverse(b, c, keys);
    CompareRowsReverse(c, a, keys);
    SortPair(b, c, keys);
    SortPair(a, b, keys);
    assert [a, b, c][1..] == [b, c] && [c, a, b][1..] == [a, b];
    assert SortRows([a, b, c], keys) == InsertRow(a, [b, c], keys) == [a, b, c];
    assert SortRows([c, a, b], keys) == InsertRow(c, [a, b], keys) == [c, a, b];
  }

  /** On a column of two kinds the comparator runs in a circle, and the result depends on
      the order in which the rows arrived. */
  lemma MixedColumnSortsInACircle()
    ensures var a, b, c := WithX("a", Int(2)), WithX("b", Bool(true)), WithX("c", Int(1));
            && CompareRows(a, b, X_ASCENDING) == CompareRows(b, c, X_ASCENDING) == Less
            && CompareRows(c, a, X_ASCENDING) == Less
            && SortRows([a, b, c], X_ASCENDING) != SortRows([c, a, b], X_ASCENDING)
  {
    var a, b, c := WithX("a", Int(2)), WithX("b", Bool(true)), WithX("c", Int(1));
    OneColumnCompares("a", "b", Int(2), Bool(true));
    OneColumnCompares("b", "c", Bool(true), Int(1));
    OneColumnCompares("c", "a", Int(1), Int(2));
    LettersAscend();
    CircleSorts(a, b, c, X_ASCENDING);
    assert [a, b, c][0].primaryKey == "a" && [c, a, b][0].primaryKey == "c";
  }

  // ----- filtering commutes with sorting -----

  lemma {:induction false} FilterIsSubset(s: seq<Row>, p: Predicate, bindings: Bindings)
    requires FilterRows(s, p, bindings, None).Ok?
    ensures forall r :: r in FilterRows(s, p, bindings, None).value ==> r in s
  {
    if s != [] {
      FilterIsSubset(s[1..], p, bindings);
    }
  }

  /** A row before all others is before all that a filter keeps of them. */
  lemma KeptNotBefore(r: Row, s: seq<Row>, pool: seq<Row>, keys: SortKeys, p: Predicate, bindings: Bindings)
    requires Comparable(pool, keys) && r in pool && forall x :: x in s ==> x in pool
    requires SortedBy(s, keys) && FilterRows(s, p, bindings, None).Ok?
    requires s == [] || CompareRows(s[0], r, keys) != Less
    ensures var kept := FilterRows(s, p, bindings, None).value; InsertRow(r, kept, keys) == [r] + kept
  {
    var kept := FilterRows(s, p, bindings, None).value;
    if kept != [] {
      FilterIsSubset(s, p, bindings);
      assert kept[0] in s;
      var j :| 0 <= j < |s| && s[j] == kept[0];
      RestNotBefore(r, s, pool, keys, j);
    }
  }

  lemma {:induction false} FilterInsert(r: Row, s: seq<Row>, pool: seq<Row>, keys: SortKeys, p: Predicate,
                                        bindings: Bindings)
    requires Comparable(pool, keys) && r in pool && forall x :: x in s ==> x in pool
    requires SortedBy(s, keys) && Matches(r, p, bindings).Ok? && FilterRows(s, p, bindings, None).Ok?
    ensures FilterRows(InsertRow(r, s, keys), p, bindings, None)
            == Ok(if Matches(r, p, bindings).value then InsertRow(r, FilterRows(s, p, bindings, None).value, keys)
                  else FilterRows(s, p, bindings, None).value)
  {
    if s == [] || CompareRows(s[0], r, keys) != Less {
      KeptNotBefore(r, s, pool, keys, p, bindings);
      assert ([r] + s)[1..] == s;
    } else {
      FilterInsert(r, s[1..], pool, keys, p, bindings);
      var out := InsertRow(r, s[1..], keys);
      assert ([s[0]] + out)[1..] == out;
    }
  }

  /** Filtering sorted rows is sorting filtered rows, where the sort columns are comparable. */
  lemma {:induction false} FilterSortCommute(rows: seq<Row>, pool: seq<Row>, keys: SortKeys, p: Predicate,
                                             bindings: Bindings)
    requires Comparable(pool, keys) && forall x :: x in rows ==> x in pool
    requires FilterRows(rows, p, bindings, None).Ok?
    ensures FilterRows(SortRows(rows, keys), p, bindings, None)
            == Ok(SortRows(FilterRows(rows, p, bindings, None).value, keys))
  {
    if rows != [] {
      FilterSortCommute(rows[1..], pool, keys, p, bindings);
      SortKeepsRows(rows[1..], keys);
      SameRows(SortRows(rows[1..], keys), rows[1..]);
      SortSorts(rows[1..], pool, keys);
      FilterInsert(rows[0], SortRows(rows[1..], keys), pool, keys, p, bindings);
      var rest := FilterRows(rows[1..], p, bindings, None).value;
      assert ([rows[0]] + rest)[1..] == rest;
    }
  }
}
