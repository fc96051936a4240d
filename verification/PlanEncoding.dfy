/** The canonical byte encoding behind a plan's hash, and how far it tells plans apart. */
module PlanEncoding {
  import opened Prelude
  import opened Strings
  import opened Endian
  import opened Floats
  import opened Values
  import opened Plans

  // Every function writes its argument in front of `rest`.

  function U64Bytes(n: nat, rest: seq<byte>): (bytes: seq<byte>)
    ensures |bytes| == 8 + |rest|
  {
    LittleEndian(n, WORD) + rest
  }

  function StrBytes(s: string, rest: seq<byte>): (bytes: seq<byte>)
    ensures |bytes| == 8 + |Utf8(s)| + |rest|
  {
    U64Bytes(|Utf8(s)|, Utf8(s) + rest)
  }

  function StrsBytes(ss: seq<string>, rest: seq<byte>): (bytes: seq<byte>)
    ensures |bytes| >= |ss| + |rest|
  {
    if ss == [] then rest else StrBytes(ss[0], StrsBytes(ss[1..], rest))
  }

  /** A signed integer as the unsigned one with the same bits. */
  function Wrapped(n: int64): uint64 {
    var bits: int := if n < 0 then n + TWO_64 else n;
    bits
  }

  ghost function ValueBytes(v: Value, rest: seq<byte>): (bytes: seq<byte>)
    ensures |bytes| > |rest|
    decreases v, 1, 0
  {
    match v
    case Null => [50] + rest
    case Bool(b) => [51, if b then 1 else 0] + rest
    case Int(n) => [52] + U64Bytes(Wrapped(n), rest)
    case Float(f) => [53] + U64Bytes(ToBits(f), rest)
    case Text(s) => [54] + StrBytes(s, rest)
    case Bytes(b) => [55] + U64Bytes(|b|, b + rest)
    case Timestamp(t) => [56] + U64Bytes(Wrapped(t), rest)
    case List(items) => [57] + U64Bytes(|items|, ValuesBytes(items, rest))
    case Map(fields) => [58] + U64Bytes(|SortedKeys(fields.Keys)|, EntriesBytes(v, SortedKeys(fields.Keys), rest))
  }

  ghost function ValuesBytes(vs: seq<Value>, rest: seq<byte>): (bytes: seq<byte>)
    ensures |bytes| >= |vs| + |rest|
    decreases vs, 0, 0
  {
    if vs == [] then rest else ValueBytes(vs[0], ValuesBytes(vs[1..], rest))
  }

  /** The entries of a map under the given keys; a key it lacks is written alone. */
  ghost function EntriesBytes(v: Value, keys: seq<string>, rest: seq<byte>): (bytes: seq<byte>)
    requires v.Map?
    ensures |bytes| >= |keys| + |rest|
    decreases v, 0, |keys|
  {
    if keys == [] then rest
    else
      var tail := EntriesBytes(v, keys[1..], rest);
      StrBytes(keys[0], if keys[0] in v.fields then ValueBytes(v.fields[keys[0]], tail) else tail)
  }

  function TypeName(ty: Option<ValueType>): string {
    match ty
    case None => ""
    case Some(NullType) => "null"
    case Some(BoolType) => "bool"
    case Some(IntType) => "int"
    case Some(FloatType) => "float"
    case Some(TextType) => "text"
    case Some(BytesType) => "bytes"
    case Some(TimestampType) => "timestamp"
    case Some(ListType) => "list"
    case Some(MapType) => "map"
  }

  ghost function ExprBytes(e: Expr, rest: seq<byte>): (bytes: seq<byte>)
    ensures |bytes| > |rest|
  {
    match e
    case Literal(v) => [40] + ValueBytes(v, rest)
    case ColumnRef(name) => [41] + StrBytes(name, rest)
    case Param(name, ty) => [42] + StrBytes(name, StrBytes(TypeName(ty), rest))
  }

  ghost function ExprsBytes(es: seq<Expr>, rest: seq<byte>): (bytes: seq<byte>)
    ensures |bytes| >= |es| + |rest|
  {
    if es == [] then rest else ExprBytes(es[0], ExprsBytes(es[1..], rest))
  }

  function CompareTag(op: CompareOp): byte {
    match op
    case OpEq => 21
    case OpNe => 22
    case OpLt => 23
    case OpLte => 24
    case OpGt => 25
    case OpGte => 26
  }

  ghost function PredicateBytes(p: Predicate, rest: seq<byte>): (bytes: seq<byte>)
    ensures |bytes| > |rest|
    decreases p, 1
  {
    match p
    case True => [20] + rest
    case Compare(op, column, operand) => [CompareTag(op)] + StrBytes(column, ExprBytes(operand, rest))
    case In(column, operands) => [27] + StrBytes(column, U64Bytes(|operands|, ExprsBytes(operands, rest)))
    case IsNull(column) => [28] + StrBytes(column, rest)
    case And(terms) => [29] + U64Bytes(|terms|, PredicatesBytes(terms, rest))
    case Or(terms) => [30] + U64Bytes(|terms|, PredicatesBytes(terms, rest))
    case Not(inner) => [31] + PredicateBytes(inner, rest)
  }

  ghost function PredicatesBytes(ps: seq<Predicate>, rest: seq<byte>): (bytes: seq<byte>)
    ensures |bytes| >= |ps| + |rest|
    decreases ps, 0
  {
    if ps == [] then rest else PredicateBytes(ps[0], PredicatesBytes(ps[1..], rest))
  }

  function SortBytes(keys: SortKeys, rest: seq<byte>): (bytes: seq<byte>)
    ensures |bytes| >= |keys| + |rest|
  {
    if keys == [] then rest
    else StrBytes(keys[0].0, [if keys[0].1 == Asc then 0 else 1] + SortBytes(keys[1..], rest))
  }

  function FuncTag(func: AggFunc): byte {
    match func
    case Count => 0
    case Sum => 1
    case Minimum => 2
    case Maximum => 3
    case Average => 4
  }

  /** An aggregate without a column is written as one over the column named "". */
  function AggregatesBytes(aggs: seq<Aggregate>, rest: seq<byte>): (bytes: seq<byte>)
    ensures |bytes| >= |aggs| + |rest|
  {
    if aggs == [] then rest
    else
      [FuncTag(aggs[0].func)]
      + StrBytes(if aggs[0].column.Some? then aggs[0].column.value else "",
                 StrBytes(aggs[0].alias, AggregatesBytes(aggs[1..], rest)))
  }

  ghost function PlanBytes(plan: Plan, rest: seq<byte>): (bytes: seq<byte>)
    ensures |bytes| > |rest|
  {
    match plan
    case Scan(table) => [1] + StrBytes(table, rest)
    case PointLookup(table, key) => [2] + StrBytes(table, ExprBytes(key, rest))
    case IndexScan(table, index, pred) => [3] + StrBytes(table, StrBytes(index, PredicateBytes(pred, rest)))
    case Filter(input, pred) => [4] + PlanBytes(input, PredicateBytes(pred, rest))
    case Project(input, columns) => [5] + PlanBytes(input, U64Bytes(|columns|, StrsBytes(columns, rest)))
    case Sort(input, keys) => [6] + PlanBytes(input, U64Bytes(|keys|, SortBytes(keys, rest)))
    case Limit(input, count, offset) => [7] + PlanBytes(input, U64Bytes(count, U64Bytes(offset, rest)))
    case GroupBy(input, groupBy, aggregates) =>
      [8] + PlanBytes(input, U64Bytes(|groupBy|, StrsBytes(groupBy,
              U64Bytes(|aggregates|, AggregatesBytes(aggregates, rest)))))
    case Join(outer, inner, outerColumn, binds) =>
      [9] + PlanBytes(outer, PlanBytes(inner, StrBytes(outerColumn, StrBytes(binds, rest))))
  }

  /** What is hashed. */
  ghost function Canonical(plan: Plan): seq<byte> {
    PlanBytes(plan, [])
  }

  // ----- telling encodings apart -----

  lemma TagApart(t: byte, u: byte, a: seq<byte>, b: seq<byte>)
    requires [t] + a == [u] + b
    ensures t == u && a == b
  {
    assert ([t] + a)[0] == t && ([u] + b)[0] == u;
    assert ([t] + a)[1..] == a && ([u] + b)[1..] == b;
  }

  lemma FixedApart(p: seq<byte>, q: seq<byte>, a: seq<byte>, b: seq<byte>)
    requires |p| == |q| && p + a == q + b
    ensures p == q && a == b
  {
    assert (p + a)[..|p|] == p && (q + b)[..|q|] == q;
    assert (p + a)[|p|..] == a && (q + b)[|q|..] == b;
  }

  lemma U64Apart(n: nat, m: nat, a: seq<byte>, b: seq<byte>)
    requires n <= U64_MAX && m <= U64_MAX && U64Bytes(n, a) == U64Bytes(m, b)
    ensures n == m && a == b
  {
    FixedApart(LittleEndian(n, WORD), LittleEndian(m, WORD), a, b);
    Pow256Eight();
    LittleEndianInjective(n, m, WORD);
  }

  lemma StrApart(s: string, t: string, a: seq<byte>, b: seq<byte>)
    requires StrBytes(s, a) == StrBytes(t, b) && |StrBytes(s, a)| <= U64_MAX
    ensures s == t && a == b
  {
    U64Apart(|Utf8(s)|, |Utf8(t)|, Utf8(s) + a, Utf8(t) + b);
    FixedApart(Utf8(s), Utf8(t), a, b);
    Utf8Injective(s, t);
  }

  lemma {:induction false} StrsApart(ss: seq<string>, ts: seq<string>, a: seq<byte>, b: seq<byte>)
    requires |ss| == |ts| && StrsBytes(ss, a) == StrsBytes(ts, b) && |StrsBytes(ss, a)| <= U64_MAX
    ensures ss == ts && a == b
  {
    if ss != [] {
      StrApart(ss[0], ts[0], StrsBytes(ss[1..], a), StrsBytes(ts[1..], b));
      StrsApart(ss[1..], ts[1..], a, b);
      assert ss == [ss[0]] + ss[1..] && ts == [ts[0]] + ts[1..];
    }
  }

  lemma {:induction false} ValueApart(v: Value, w: Value, a: seq<byte>, b: seq<byte>)
    requires ValueBytes(v, a) == ValueBytes(w, b) && |ValueBytes(v, a)| <= U64_MAX
    ensures v == w && a == b
    decreases v, 2, 0
  {
    ValueTagApart(v, w, a, b);
    match v
    case Null => TagApart(50, 50, a, b);
    case Bool(x) => FixedApart([51, if x then 1 else 0], [51, if w.b then 1 else 0], a, b);
    case Int(n) =>
      TagApart(52, 52, U64Bytes(Wrapped(n), a), U64Bytes(Wrapped(w.i), b));
      U64Apart(Wrapped(n), Wrapped(w.i), a, b);
    case Float(f) =>
      TagApart(53, 53, U64Bytes(ToBits(f), a), U64Bytes(ToBits(w.f), b));
      U64Apart(ToBits(f), ToBits(w.f), a, b);
      BitsIdentify(f, w.f);
    case Text(s) =>
      TagApart(54, 54, StrBytes(s, a), StrBytes(w.s, b));
      StrApart(s, w.s, a, b);
    case Bytes(x) =>
      TagApart(55, 55, U64Bytes(|x|, x + a), U64Bytes(|w.bytes|, w.bytes + b));
      U64Apart(|x|, |w.bytes|, x + a, w.bytes + b);
      FixedApart(x, w.bytes, a, b);
    case Timestamp(t) =>
      TagApart(56, 56, U64Bytes(Wrapped(t), a), U64Bytes(Wrapped(w.t), b));
      U64Apart(Wrapped(t), Wrapped(w.t), a, b);
    case List(items) =>
      TagApart(57, 57, U64Bytes(|items|, ValuesBytes(items, a)), U64Bytes(|w.items|, ValuesBytes(w.items, b)));
      U64Apart(|items|, |w.items|, ValuesBytes(items, a), ValuesBytes(w.items, b));
      ValuesApart(items, w.items, a, b);
    case Map(fields) => MapApart(v, w, a, b);
  }

  lemma {:induction false} MapApart(v: Value, w: Value, a: seq<byte>, b: seq<byte>)
    requires v.Map? && w.Map? && ValueBytes(v, a) == ValueBytes(w, b) && |ValueBytes(v, a)| <= U64_MAX
    ensures v == w && a == b
    decreases v, 1, 0
  {
    var keys, others := SortedKeys(v.fields.Keys), SortedKeys(w.fields.Keys);
    MapBytesShape(v, a);
    MapBytesShape(w, b);
    TagApart(58, 58, U64Bytes(|keys|, EntriesBytes(v, keys, a)), U64Bytes(|others|, EntriesBytes(w, others, b)));
    U64Apart(|keys|, |others|, EntriesBytes(v, keys, a), EntriesBytes(w, others, b));
    SortedKeysAscend(v.fields.Keys);
    SortedKeysAscend(w.fields.Keys);
    EntriesApart(v, w, keys, others, a, b);
    MapsAgree(v.fields, w.fields, keys);
  }

  lemma MapsAgree(m: map<string, Value>, n: map<string, Value>, keys: seq<string>)
    requires forall k :: k in keys <==> k in m
    requires forall k :: k in keys <==> k in n
    requires forall k :: k in keys ==> m[k] == n[k]
    ensures m == n
  {}

  lemma MapBytesShape(v: Value, a: seq<byte>)
    requires v.Map?
    ensures ValueBytes(v, a)
            == [58] + U64Bytes(|SortedKeys(v.fields.Keys)|, EntriesBytes(v, SortedKeys(v.fields.Keys), a))
  {}

  lemma BitsIdentify(f: F64, g: F64)
    requires ToBits(f) == ToBits(g)
    ensures f == g
  {}

  function ValueTag(v: Value): byte {
    match v
    case Null => 50
    case Bool(_) => 51
    case Int(_) => 52
    case Float(_) => 53
    case Text(_) => 54
    case Bytes(_) => 55
    case Timestamp(_) => 56
    case List(_) => 57
    case Map(_) => 58
  }

  lemma ValueTagApart(v: Value, w: Value, a: seq<byte>, b: seq<byte>)
    requires ValueBytes(v, a) == ValueBytes(w, b)
    ensures ValueTag(v) == ValueTag(w)
  {
    assert ValueBytes(v, a)[0] == ValueTag(v);
    assert ValueBytes(w, b)[0] == ValueTag(w);
  }

  lemma {:induction false} ValuesApart(vs: seq<Value>, ws: seq<Value>, a: seq<byte>, b: seq<byte>)
    requires |vs| == |ws| && ValuesBytes(vs, a) == ValuesBytes(ws, b) && |ValuesBytes(vs, a)| <= U64_MAX
    ensures vs == ws && a == b
    decreases vs, 0, 0
  {
    if vs != [] {
      ValueApart(vs[0], ws[0], ValuesBytes(vs[1..], a), ValuesBytes(ws[1..], b));
      ValuesApart(vs[1..], ws[1..], a, b);
      assert vs == [vs[0]] + vs[1..] && ws == [ws[0]] + ws[1..];
    }
  }

  lemma {:induction false} EntriesApart(v: Value, w: Value, keys: seq<string>, others: seq<string>, a: seq<byte>,
                                        b: seq<byte>)
    requires v.Map? && w.Map? && |keys| == |others|
    requires (forall k :: k in keys ==> k in v.fields) && forall k :: k in others ==> k in w.fields
    requires EntriesBytes(v, keys, a) == EntriesBytes(w, others, b) && |EntriesBytes(v, keys, a)| <= U64_MAX
    ensures keys == others && a == b && forall k :: k in keys ==> v.fields[k] == w.fields[k]
    decreases v, 0, |keys|
  {
    if keys != [] {
      var k, l := keys[0], others[0];
      var tail, rest := EntriesBytes(v, keys[1..], a), EntriesBytes(w, others[1..], b);
      StrApart(k, l, ValueBytes(v.fields[k], tail), ValueBytes(w.fields[l], rest));
      ValueApart(v.fields[k], w.fields[l], tail, rest);
      EntriesApart(v, w, keys[1..], others[1..], a, b);
      assert keys == [k] + keys[1..] && others == [l] + others[1..];
    }
  }

  lemma TypeNameIdentifies(a: Option<ValueType>, b: Option<ValueType>)
    requires TypeName(a) == TypeName(b)
    ensures a == b
  {
    var n, m := TypeName(a), TypeName(b);
    assert |n| == |m| && (n != "" ==> n[0] == m[0]);
    assert |n| > 3 ==> n[1] == m[1];
  }

  lemma {:induction false} ExprApart(e: Expr, f: Expr, a: seq<byte>, b: seq<byte>)
    requires ExprBytes(e, a) == ExprBytes(f, b) && |ExprBytes(e, a)| <= U64_MAX
    ensures e == f && a == b
  {
    var x, y := ExprBytes(e, a), ExprBytes(f, b);
    assert x[0] == (if e.Literal? then 40 else if e.ColumnRef? then 41 else 42);
    assert y[0] == (if f.Literal? then 40 else if f.ColumnRef? then 41 else 42);
    match e
    case Literal(v) =>
      TagApart(40, 40, ValueBytes(v, a), ValueBytes(f.value, b));
      ValueApart(v, f.value, a, b);
    case ColumnRef(name) =>
      TagApart(41, 41, StrBytes(name, a), StrBytes(f.name, b));
      StrApart(name, f.name, a, b);
    case Param(name, ty) =>
      TagApart(42, 42, StrBytes(name, StrBytes(TypeName(ty), a)), StrBytes(f.name, StrBytes(TypeName(f.ty), b)));
      StrApart(name, f.name, StrBytes(TypeName(ty), a), StrBytes(TypeName(f.ty), b));
      StrApart(TypeName(ty), TypeName(f.ty), a, b);
      TypeNameIdentifies(ty, f.ty);
  }

  lemma {:induction false} ExprsApart(es: seq<Expr>, fs: seq<Expr>, a: seq<byte>, b: seq<byte>)
    requires |es| == |fs| && ExprsBytes(es, a) == ExprsBytes(fs, b) && |ExprsBytes(es, a)| <= U64_MAX
    ensures es == fs && a == b
  {
    if es != [] {
      ExprApart(es[0], fs[0], ExprsBytes(es[1..], a), ExprsBytes(fs[1..], b));
      ExprsApart(es[1..], fs[1..], a, b);
      assert es == [es[0]] + es[1..] && fs == [fs[0]] + fs[1..];
    }
  }

  function PredicateTag(p: Predicate): byte {
    match p
    case True => 20
    case Compare(op, _, _) => CompareTag(op)
    case In(_, _) => 27
    case IsNull(_) => 28
    case And(_) => 29
    case Or(_) => 30
    case Not(_) => 31
  }

  lemma PredicateTagApart(p: Predicate, q: Predicate, a: seq<byte>, b: seq<byte>)
    requires PredicateBytes(p, a) == PredicateBytes(q, b)
    ensures PredicateTag(p) == PredicateTag(q)
  {
    assert PredicateBytes(p, a)[0] == PredicateTag(p);
    assert PredicateBytes(q, b)[0] == PredicateTag(q);
  }

  lemma {:induction false} PredicateApart(p: Predicate, q: Predicate, a: seq<byte>, b: seq<byte>)
    requires PredicateBytes(p, a) == PredicateBytes(q, b) && |PredicateBytes(p, a)| <= U64_MAX
    ensures p == q && a == b
    decreases p, 1
  {
    PredicateTagApart(p, q, a, b);
    match p
    case True => TagApart(20, 20, a, b);
    case Compare(op, column, operand) =>
      TagApart(CompareTag(op), CompareTag(q.op), StrBytes(column, ExprBytes(operand, a)),
        StrBytes(q.column, ExprBytes(q.operand, b)));
      StrApart(column, q.column, ExprBytes(operand, a), ExprBytes(q.operand, b));
      ExprApart(operand, q.operand, a, b);
    case In(column, operands) =>
      var x, y := U64Bytes(|operands|, ExprsBytes(operands, a)), U64Bytes(|q.operands|, ExprsBytes(q.operands, b));
      TagApart(27, 27, StrBytes(column, x), StrBytes(q.column, y));
      StrApart(column, q.column, x, y);
      U64Apart(|operands|, |q.operands|, ExprsBytes(operands, a), ExprsBytes(q.operands, b));
      ExprsApart(operands, q.operands, a, b);
    case IsNull(column) =>
      TagApart(28, 28, StrBytes(column, a), StrBytes(q.column, b));
      StrApart(column, q.column, a, b);
    case And(terms) =>
      TagApart(29, 29, U64Bytes(|terms|, PredicatesBytes(terms, a)), U64Bytes(|q.terms|, PredicatesBytes(q.terms, b)));
      U64Apart(|terms|, |q.terms|, PredicatesBytes(terms, a), PredicatesBytes(q.terms, b));
      PredicatesApart(terms, q.terms, a, b);
    case Or(terms) =>
      TagApart(30, 30, U64Bytes(|terms|, PredicatesBytes(terms, a)), U64Bytes(|q.terms|, PredicatesBytes(q.terms, b)));
      U64Apart(|terms|, |q.terms|, PredicatesBytes(terms, a), PredicatesBytes(q.terms, b));
      PredicatesApart(terms, q.terms, a, b);
    case Not(inner) =>
      TagApart(31, 31, PredicateBytes(inner, a), PredicateBytes(q.inner, b));
      PredicateApart(inner, q.inner, a, b);
  }

  lemma {:induction false} PredicatesApart(ps: seq<Predicate>, qs: seq<Predicate>, a: seq<byte>, b: seq<byte>)
    requires |ps| == |qs| && PredicatesBytes(ps, a) == PredicatesBytes(qs, b) && |PredicatesBytes(ps, a)| <= U64_MAX
    ensures ps == qs && a == b
    decreases ps, 0
  {
    if ps != [] {
      PredicateApart(ps[0], qs[0], PredicatesBytes(ps[1..], a), PredicatesBytes(qs[1..], b));
      PredicatesApart(ps[1..], qs[1..], a, b);
      assert ps == [ps[0]] + ps[1..] && qs == [qs[0]] + qs[1..];
    }
  }

  lemma {:induction false} SortApart(ks: SortKeys, ls: SortKeys, a: seq<byte>, b: seq<byte>)
    requires |ks| == |ls| && SortBytes(ks, a) == SortBytes(ls, b) && |SortBytes(ks, a)| <= U64_MAX
    ensures ks == ls && a == b
  {
    if ks != [] {
      var s, t: byte := if ks[0].1 == Asc then 0 else 1, if ls[0].1 == Asc then 0 else 1;
      StrApart(ks[0].0, ls[0].0, [s] + SortBytes(ks[1..], a), [t] + SortBytes(ls[1..], b));
      TagApart(s, t, SortBytes(ks[1..], a), SortBytes(ls[1..], b));
      SortApart(ks[1..], ls[1..], a, b);
      assert ks[0] == ls[0];
      assert ks == [ks[0]] + ks[1..] && ls == [ls[0]] + ls[1..];
    }
  }

  /** An aggregate as the encoding sees it. */
  function Plainer(agg: Aggregate): Aggregate {
    if agg.column == Some("") then agg.(column := None) else agg
  }

  function PlainerAll(aggs: seq<Aggregate>): seq<Aggregate> {
    if aggs == [] then [] else [Plainer(aggs[0])] + PlainerAll(aggs[1..])
  }

  lemma {:induction false} AggregatesApart(xs: seq<Aggregate>, ys: seq<Aggregate>, a: seq<byte>, b: seq<byte>)
    requires |xs| == |ys| && AggregatesBytes(xs, a) == AggregatesBytes(ys, b) && |AggregatesBytes(xs, a)| <= U64_MAX
    ensures PlainerAll(xs) == PlainerAll(ys) && a == b
  {
    if xs != [] {
      var c := if xs[0].column.Some? then xs[0].column.value else "";
      var d := if ys[0].column.Some? then ys[0].column.value else "";
      var p, q := AggregatesBytes(xs[1..], a), AggregatesBytes(ys[1..], b);
      TagApart(FuncTag(xs[0].func), FuncTag(ys[0].func), StrBytes(c, StrBytes(xs[0].alias, p)),
        StrBytes(d, StrBytes(ys[0].alias, q)));
      StrApart(c, d, StrBytes(xs[0].alias, p), StrBytes(ys[0].alias, q));
      StrApart(xs[0].alias, ys[0].alias, p, q);
      AggregatesApart(xs[1..], ys[1..], a, b);
    }
  }

  /** A plan with every aggregate as the encoding sees it. */
  function Normal(plan: Plan): Plan {
    match plan
    case Filter(input, pred) => Filter(Normal(input), pred)
    case Project(input, columns) => Project(Normal(input), columns)
    case Sort(input, keys) => Sort(Normal(input), keys)
    case Limit(input, count, offset) => Limit(Normal(input), count, offset)
    case GroupBy(input, groupBy, aggregates) => GroupBy(Normal(input), groupBy, PlainerAll(aggregates))
    case Join(outer, inner, outerColumn, binds) => Join(Normal(outer), Normal(inner), outerColumn, binds)
    case _ => plan
  }

  function PlanTag(plan: Plan): byte {
    match plan
    case Scan(_) => 1
    case PointLookup(_, _) => 2
    case IndexScan(_, _, _) => 3
    case Filter(_, _) => 4
    case Project(_, _) => 5
    case Sort(_, _) => 6
    case Limit(_, _, _) => 7
    case GroupBy(_, _, _) => 8
    case Join(_, _, _, _) => 9
  }

  lemma PlanTagApart(p: Plan, q: Plan, a: seq<byte>, b: seq<byte>)
    requires PlanBytes(p, a) == PlanBytes(q, b)
    ensures PlanTag(p) == PlanTag(q)
  {
    assert PlanBytes(p, a)[0] == PlanTag(p);
    assert PlanBytes(q, b)[0] == PlanTag(q);
  }

  lemma {:induction false} PlanApart(p: Plan, q: Plan, a: seq<byte>, b: seq<byte>)
    requires PlanBytes(p, a) == PlanBytes(q, b) && |PlanBytes(p, a)| <= U64_MAX
    ensures Normal(p) == Normal(q) && a == b
    decreases p, 1
  {
    PlanTagApart(p, q, a, b);
    match p
    case Scan(table) =>
      TagApart(1, 1, StrBytes(table, a), StrBytes(q.table, b));
      StrApart(table, q.table, a, b);
    case PointLookup(table, key) =>
      TagApart(2, 2, StrBytes(table, ExprBytes(key, a)), StrBytes(q.table, ExprBytes(q.key, b)));
      StrApart(table, q.table, ExprBytes(key, a), ExprBytes(q.key, b));
      ExprApart(key, q.key, a, b);
    case IndexScan(table, index, pred) =>
      var x, y := PredicateBytes(pred, a), PredicateBytes(q.pred, b);
      TagApart(3, 3, StrBytes(table, StrBytes(index, x)), StrBytes(q.table, StrBytes(q.index, y)));
      StrApart(table, q.table, StrBytes(index, x), StrBytes(q.index, y));
      StrApart(index, q.index, x, y);
      PredicateApart(pred, q.pred, a, b);
    case Filter(input, pred) =>
      var x, y := PredicateBytes(pred, a), PredicateBytes(q.pred, b);
      TagApart(4, 4, PlanBytes(input, x), PlanBytes(q.input, y));
      PlanApart(input, q.input, x, y);
      PredicateApart(pred, q.pred, a, b);
    case Project(input, columns) =>
      var x, y := U64Bytes(|columns|, StrsBytes(columns, a)), U64Bytes(|q.columns|, StrsBytes(q.columns, b));
      TagApart(5, 5, PlanBytes(input, x), PlanBytes(q.input, y));
      PlanApart(input, q.input, x, y);
      U64Apart(|columns|, |q.columns|, StrsBytes(columns, a), StrsBytes(q.columns, b));
      StrsApart(columns, q.columns, a, b);
    case Sort(input, keys) =>
      var x, y := U64Bytes(|keys|, SortBytes(keys, a)), U64Bytes(|q.sortKeys|, SortBytes(q.sortKeys, b));
      TagApart(6, 6, PlanBytes(input, x), PlanBytes(q.input, y));
      PlanApart(input, q.input, x, y);
      U64Apart(|keys|, |q.sortKeys|, SortBytes(keys, a), SortBytes(q.sortKeys, b));
      SortApart(keys, q.sortKeys, a, b);
    case Limit(input, count, offset) =>
      var x, y := U64Bytes(count, U64Bytes(offset, a)), U64Bytes(q.count, U64Bytes(q.offset, b));
      TagApart(7, 7, PlanBytes(input, x), PlanBytes(q.input, y));
      PlanApart(input, q.input, x, y);
      U64Apart(count, q.count, U64Bytes(offset, a), U64Bytes(q.offset, b));
      U64Apart(offset, q.offset, a, b);
    case GroupBy(input, groupBy, aggregates) => GroupByApart(p, q, a, b);
    case Join(outer, inner, outerColumn, binds) =>
      var x, y := StrBytes(outerColumn, StrBytes(binds, a)), StrBytes(q.outerColumn, StrBytes(q.binds, b));
      TagApart(9, 9, PlanBytes(outer, PlanBytes(inner, x)), PlanBytes(q.outer, PlanBytes(q.inner, y)));
      PlanApart(outer, q.outer, PlanBytes(inner, x), PlanBytes(q.inner, y));
      PlanApart(inner, q.inner, x, y);
      StrApart(outerColumn, q.outerColumn, StrBytes(binds, a), StrBytes(q.binds, b));
      StrApart(binds, q.binds, a, b);
  }

  lemma {:induction false} GroupByApart(p: Plan, q: Plan, a: seq<byte>, b: seq<byte>)
    requires p.GroupBy? && q.GroupBy? && PlanBytes(p, a) == PlanBytes(q, b) && |PlanBytes(p, a)| <= U64_MAX
    ensures Normal(p) == Normal(q) && a == b
    decreases p, 0
  {
    var u, v := AggregatesBytes(p.aggregates, a), AggregatesBytes(q.aggregates, b);
    var x, y := U64Bytes(|p.aggregates|, u), U64Bytes(|q.aggregates|, v);
    var s, t := StrsBytes(p.groupBy, x), StrsBytes(q.groupBy, y);
    TagApart(8, 8, PlanBytes(p.input, U64Bytes(|p.groupBy|, s)), PlanBytes(q.input, U64Bytes(|q.groupBy|, t)));
    PlanApart(p.input, q.input, U64Bytes(|p.groupBy|, s), U64Bytes(|q.groupBy|, t));
    U64Apart(|p.groupBy|, |q.groupBy|, s, t);
    StrsApart(p.groupBy, q.groupBy, x, y);
    U64Apart(|p.aggregates|, |q.aggregates|, u, v);
    AggregatesApart(p.aggregates, q.aggregates, a, b);
  }

  // ----- equal encodings -----

  lemma {:induction false} PlainerSameBytes(xs: seq<Aggregate>, rest: seq<byte>)
    ensures |PlainerAll(xs)| == |xs| && AggregatesBytes(PlainerAll(xs), rest) == AggregatesBytes(xs, rest)
  {
    if xs != [] {
      PlainerSameBytes(xs[1..], rest);
      assert PlainerAll(xs)[1..] == PlainerAll(xs[1..]);
    }
  }

  lemma {:induction false} NormalSameBytes(plan: Plan, rest: seq<byte>)
    ensures PlanBytes(Normal(plan), rest) == PlanBytes(plan, rest)
  {
    match plan
    case Filter(input, pred) => NormalSameBytes(input, PredicateBytes(pred, rest));
    case Project(input, columns) => NormalSameBytes(input, U64Bytes(|columns|, StrsBytes(columns, rest)));
    case Sort(input, keys) => NormalSameBytes(input, U64Bytes(|keys|, SortBytes(keys, rest)));
    case Limit(input, count, offset) => NormalSameBytes(input, U64Bytes(count, U64Bytes(offset, rest)));
    case GroupBy(input, groupBy, aggregates) =>
      PlainerSameBytes(aggregates, rest);
      NormalSameBytes(input, U64Bytes(|groupBy|, StrsBytes(groupBy,
                               U64Bytes(|aggregates|, AggregatesBytes(aggregates, rest)))));
    case Join(outer, inner, outerColumn, binds) =>
      var tail := StrBytes(outerColumn, StrBytes(binds, rest));
      NormalSameBytes(outer, PlanBytes(inner, tail));
      NormalSameBytes(inner, tail);
    case _ =>
  }

  /** Two plans share an encoding exactly when they differ at most in aggregates over no column
      against aggregates over the column with the empty name. */
  lemma EncodingIdentifiesExactly(p: Plan, q: Plan)
    requires |Canonical(p)| <= U64_MAX
    ensures Canonical(p) == Canonical(q) <==> Normal(p) == Normal(q)
  {
    if Canonical(p) == Canonical(q) {
      PlanApart(p, q, [], []);
    }
    if Normal(p) == Normal(q) {
      NormalSameBytes(p, []);
      NormalSameBytes(q, []);
    }
  }

  /** COUNT(*) and COUNT of the column named "" are different plans with one encoding. */
  lemma CountStarCollides(table: string)
    ensures var p := GroupBy(Scan(table), [], [Aggregate(Count, None, "n")]);
            var q := GroupBy(Scan(table), [], [Aggregate(Count, Some(""), "n")]);
            p != q && Canonical(p) == Canonical(q)
  {
    var p := GroupBy(Scan(table), [], [Aggregate(Count, None, "n")]);
    var q := GroupBy(Scan(table), [], [Aggregate(Count, Some(""), "n")]);
    assert p.aggregates[0].column != q.aggregates[0].column;
    NormalSameBytes(p, []);
    NormalSameBytes(q, []);
    assert PlainerAll(p.aggregates) == PlainerAll(q.aggregates);
  }
}
