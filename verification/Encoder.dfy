/** The canonical encoder itself: one buffer, written tag by tag and field by field. */
module Encoder {
  import opened Prelude
  import opened Strings
  import opened Endian
  import opened Floats
  import opened Values
  import opened Plans
  import opened PlanEncoding

  class CanonicalEncoder {
    var written: seq<byte>

    constructor ()
      ensures written == []
    {
      written := [];
    }

    // Each method says what the buffer is worth in front of whatever is to follow, `rest`.

    method Tag(tag: byte, ghost rest: seq<byte>)
      modifies this
      ensures written + rest == old(written) + ([tag] + rest)
    {
      written := written + [tag];
      Regroup(old(written), [tag], rest);
    }

    method U64(n: nat, ghost rest: seq<byte>)
      modifies this
      ensures written + rest == old(written) + U64Bytes(n, rest)
    {
      Raw(LittleEndian(n, WORD), rest);
    }

    method Raw(bytes: seq<byte>, ghost rest: seq<byte>)
      modifies this
      ensures written + rest == old(written) + (bytes + rest)
    {
      written := written + bytes;
      Regroup(old(written), bytes, rest);
    }

    method Str(s: string, ghost rest: seq<byte>)
      modifies this
      ensures written + rest == old(written) + StrBytes(s, rest)
    {
      U64(|Utf8(s)|, Utf8(s) + rest);
      Raw(Utf8(s), rest);
    }

    method Strs(ss: seq<string>, ghost rest: seq<byte>)
      modifies this
      ensures written + rest == old(written) + StrsBytes(ss, rest)
    {
      assert ss[0..] == ss;
      for i := 0 to |ss|
        invariant written + StrsBytes(ss[i..], rest) == old(written) + StrsBytes(ss, rest)
      {
        Str(ss[i], StrsBytes(ss[i + 1..], rest));
        assert ss[i..][0] == ss[i] && ss[i..][1..] == ss[i + 1..];
      }
    }

    method EncodeValue(value: Value, ghost rest: seq<byte>)
      modifies this
      ensures written + rest == old(written) + ValueBytes(value, rest)
      decreases value
    {
      match value
      case Null => Tag(50, rest);
      case Bool(b) =>
        Tag(51, [if b then 1 else 0] + rest);
        Tag(if b then 1 else 0, rest);
        assert [51, if b then 1 else 0] + rest == [51] + ([if b then 1 else 0] + rest);
      case Int(n) =>
        Tag(52, U64Bytes(Wrapped(n), rest));
        U64(Wrapped(n), rest);
      case Float(f) =>
        Tag(53, U64Bytes(ToBits(f), rest));
        U64(ToBits(f), rest);
      case Text(s) =>
        Tag(54, StrBytes(s, rest));
        Str(s, rest);
      case Bytes(b) =>
        Tag(55, U64Bytes(|b|, b + rest));
        U64(|b|, b + rest);
        Raw(b, rest);
      case Timestamp(t) =>
        Tag(56, U64Bytes(Wrapped(t), rest));
        U64(Wrapped(t), rest);
      case List(items) =>
        Tag(57, U64Bytes(|items|, ValuesBytes(items, rest)));
        U64(|items|, ValuesBytes(items, rest));
        assert items[0..] == items;
        for i := 0 to |items|
          invariant written + ValuesBytes(items[i..], rest) == old(written) + ValueBytes(value, rest)
        {
          assert items[i..][0] == items[i] && items[i..][1..] == items[i + 1..];
          EncodeValue(items[i], ValuesBytes(items[i + 1..], rest));
        }
      case Map(fields) =>
        var keys := SortKeySet(fields.Keys);
        SortedKeysAscend(fields.Keys);
        Tag(58, U64Bytes(|keys|, EntriesBytes(value, keys, rest)));
        U64(|keys|, EntriesBytes(value, keys, rest));
        assert keys[0..] == keys;
        for i := 0 to |keys|
          invariant written + EntriesBytes(value, keys[i..], rest) == old(written) + ValueBytes(value, rest)
        {
          assert keys[i..][0] == keys[i] && keys[i..][1..] == keys[i + 1..];
          assert keys[i] in keys;
          ghost var tail := EntriesBytes(value, keys[i + 1..], rest);
          Str(keys[i], ValueBytes(fields[keys[i]], tail));
          EncodeValue(fields[keys[i]], tail);
        }
    }

    method EncodeExpr(e: Expr, ghost rest: seq<byte>)
      modifies this
      ensures written + rest == old(written) + ExprBytes(e, rest)
    {
      match e
      case Literal(v) =>
        Tag(40, ValueBytes(v, rest));
        EncodeValue(v, rest);
      case ColumnRef(name) =>
        Tag(41, StrBytes(name, rest));
        Str(name, rest);
      case Param(name, ty) =>
        Tag(42, StrBytes(name, StrBytes(TypeName(ty), rest)));
        Str(name, StrBytes(TypeName(ty), rest));
        Str(TypeName(ty), rest);
    }

    method Group(terms: seq<Predicate>, ghost rest: seq<byte>)
      modifies this
      ensures written + rest == old(written) + U64Bytes(|terms|, PredicatesBytes(terms, rest))
      decreases terms, 0
    {
      U64(|terms|, PredicatesBytes(terms, rest));
      assert terms[0..] == terms;
      for i := 0 to |terms|
        invariant written + PredicatesBytes(terms[i..], rest)
                  == old(written) + U64Bytes(|terms|, PredicatesBytes(terms, rest))
      {
        assert terms[i..][0] == terms[i] && terms[i..][1..] == terms[i + 1..];
        EncodePredicate(terms[i], PredicatesBytes(terms[i + 1..], rest));
      }
    }

    method EncodePredicate(p: Predicate, ghost rest: seq<byte>)
      modifies this
      ensures written + rest == old(written) + PredicateBytes(p, rest)
      decreases p, 1
    {
      match p
      case True => Tag(20, rest);
      case Compare(op, column, operand) =>
        Tag(CompareTag(op), StrBytes(column, ExprBytes(operand, rest)));
        Str(column, ExprBytes(operand, rest));
        EncodeExpr(operand, rest);
      case In(column, operands) =>
        Tag(27, StrBytes(column, U64Bytes(|operands|, ExprsBytes(operands, rest))));
        Str(column, U64Bytes(|operands|, ExprsBytes(operands, rest)));
        U64(|operands|, ExprsBytes(operands, rest));
        assert operands[0..] == operands;
        for i := 0 to |operands|
          invariant written + ExprsBytes(operands[i..], rest) == old(written) + PredicateBytes(p, rest)
        {
          assert operands[i..][0] == operands[i] && operands[i..][1..] == operands[i + 1..];
          EncodeExpr(operands[i], ExprsBytes(operands[i + 1..], rest));
        }
      case IsNull(column) =>
        Tag(28, StrBytes(column, rest));
        Str(column, rest);
      case And(terms) =>
        Tag(29, U64Bytes(|terms|, PredicatesBytes(terms, rest)));
        Group(terms, rest);
      case Or(terms) =>
        Tag(30, U64Bytes(|terms|, PredicatesBytes(terms, rest)));
        Group(terms, rest);
      case Not(inner) =>
        Tag(31, PredicateBytes(inner, rest));
        EncodePredicate(inner, rest);
    }

    method SortPart(keys: SortKeys, ghost rest: seq<byte>)
      modifies this
      ensures written + rest == old(written) + SortBytes(keys, rest)
    {
      assert keys[0..] == keys;
      for i := 0 to |keys|
        invariant written + SortBytes(keys[i..], rest) == old(written) + SortBytes(keys, rest)
      {
        assert keys[i..][0] == keys[i] && keys[i..][1..] == keys[i + 1..];
        var order := if keys[i].1 == Asc then 0 else 1;
        Str(keys[i].0, [order] + SortBytes(keys[i + 1..], rest));
        Tag(order, SortBytes(keys[i + 1..], rest));
      }
    }

    method Aggregates(aggs: seq<Aggregate>, ghost rest: seq<byte>)
      modifies this
      ensures written + rest == old(written) + AggregatesBytes(aggs, rest)
    {
      assert aggs[0..] == aggs;
      for i := 0 to |aggs|
        invariant written + AggregatesBytes(aggs[i..], rest) == old(written) + AggregatesBytes(aggs, rest)
      {
        assert aggs[i..][0] == aggs[i] && aggs[i..][1..] == aggs[i + 1..];
        ghost var tail := AggregatesBytes(aggs[i + 1..], rest);
        var column := if aggs[i].column.Some? then aggs[i].column.value else "";
        Tag(FuncTag(aggs[i].func), StrBytes(column, StrBytes(aggs[i].alias, tail)));
        Str(column, StrBytes(aggs[i].alias, tail));
        Str(aggs[i].alias, tail);
      }
    }

    method EncodePlan(plan: Plan, ghost rest: seq<byte>)
      modifies this
      ensures written + rest == old(written) + PlanBytes(plan, rest)
      decreases plan
    {
      match plan
      case Scan(table) =>
        Tag(1, StrBytes(table, rest));
        Str(table, rest);
      case PointLookup(table, key) =>
        Tag(2, StrBytes(table, ExprBytes(key, rest)));
        Str(table, ExprBytes(key, rest));
        EncodeExpr(key, rest);
      case IndexScan(table, index, pred) =>
        Tag(3, StrBytes(table, StrBytes(index, PredicateBytes(pred, rest))));
        Str(table, StrBytes(index, PredicateBytes(pred, rest)));
        Str(index, PredicateBytes(pred, rest));
        EncodePredicate(pred, rest);
      case Filter(input, pred) =>
        Tag(4, PlanBytes(input, PredicateBytes(pred, rest)));
        EncodePlan(input, PredicateBytes(pred, rest));
        EncodePredicate(pred, rest);
      case Project(input, columns) =>
        ghost var tail := U64Bytes(|columns|, StrsBytes(columns, rest));
        Tag(5, PlanBytes(input, tail));
        EncodePlan(input, tail);
        U64(|columns|, StrsBytes(columns, rest));
        Strs(columns, rest);
      case Sort(input, keys) =>
        ghost var tail := U64Bytes(|keys|, SortBytes(keys, rest));
        Tag(6, PlanBytes(input, tail));
        EncodePlan(input, tail);
        U64(|keys|, SortBytes(keys, rest));
        SortPart(keys, rest);
      case Limit(input, count, offset) =>
        ghost var tail := U64Bytes(count, U64Bytes(offset, rest));
        Tag(7, PlanBytes(input, tail));
        EncodePlan(input, tail);
        U64(count, U64Bytes(offset, rest));
        U64(offset, rest);
      case GroupBy(input, groupBy, aggregates) =>
        ghost var last := U64Bytes(|aggregates|, AggregatesBytes(aggregates, rest));
        ghost var tail := U64Bytes(|groupBy|, StrsBytes(groupBy, last));
        Tag(8, PlanBytes(input, tail));
        EncodePlan(input, tail);
        U64(|groupBy|, StrsBytes(groupBy, last));
        Strs(groupBy, last);
        U64(|aggregates|, AggregatesBytes(aggregates, rest));
        Aggregates(aggregates, rest);
      case Join(outer, inner, outerColumn, binds) =>
        ghost var tail := StrBytes(outerColumn, StrBytes(binds, rest));
        Tag(9, PlanBytes(outer, PlanBytes(inner, tail)));
        EncodePlan(outer, PlanBytes(inner, tail));
        EncodePlan(inner, tail);
        Str(outerColumn, StrBytes(binds, rest));
        Str(binds, rest);
    }
  }

  lemma Regroup(a: seq<byte>, b: seq<byte>, c: seq<byte>)
    ensures (a + b) + c == a + (b + c)
  {}

  /** What a plan's hash is taken of. */
  method Encode(plan: Plan) returns (bytes: seq<byte>)
    ensures bytes == Canonical(plan)
  {
    var encoder := new CanonicalEncoder();
    encoder.EncodePlan(plan, []);
    bytes := encoder.written;
    assert bytes + [] == bytes && [] + PlanBytes(plan, []) == PlanBytes(plan, []);
  }
}
