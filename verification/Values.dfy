/** Values, the columns of a row, and the executor's partial order on values. */
module Values {
  import opened Prelude
  import opened Strings
  import opened Floats

  datatype Value =
    | Null
    | Bool(b: bool)
    | Int(i: int64)
    | Float(f: F64)
    | Text(s: string)
    | Bytes(bytes: seq<byte>)
    | Timestamp(t: int64)
    | List(items: seq<Value>)
    | Map(fields: map<string, Value>)

  datatype ValueType =
    NullType | BoolType | IntType | FloatType | TextType | BytesType | TimestampType | ListType | MapType

  function InferredType(v: Value): ValueType {
    match v
    case Null => NullType
    case Bool(_) => BoolType
    case Int(_) => IntType
    case Float(_) => FloatType
    case Text(_) => TextType
    case Bytes(_) => BytesType
    case Timestamp(_) => TimestampType
    case List(_) => ListType
    case Map(_) => MapType
  }

  /** Whether a declared type accepts a value: nulls always, otherwise the exact type. */
  predicate Accepts(declared: ValueType, v: Value) {
    v.Null? || InferredType(v) == declared
  }

  const KEY_COLUMN := "_key"
  const VALUE_COLUMN := "value"

  /** A row in flight: its primary key and its value. */
  datatype Row = Row(primaryKey: string, value: Value) {

    /** A scalar row has one column, `value`; every row has `_key`. */
    function Column(name: string): Option<Value> {
      if name == KEY_COLUMN then Some(Text(primaryKey))
      else match value
        case Map(fields) => if name in fields then Some(fields[name]) else None
        case _ => if name == VALUE_COLUMN then Some(value) else None
    }
  }

  /** `compare_values`: None where the executor refuses to order the two. */
  function CompareValues(a: Value, b: Value): Option<Order> {
    match (a, b)
    case (Null, Null) => Some(Equal)
    case (Null, _) => None
    case (_, Null) => None
    case (Bool(x), Bool(y)) => Some(CompareInt(if x then 1 else 0, if y then 1 else 0))
    case (Int(x), Int(y)) => Some(CompareInt(x, y))
    case (Timestamp(x), Timestamp(y)) => Some(CompareInt(x, y))
    case (Float(x), Float(y)) => PartialCompare(x, y)
    case (Int(x), Float(y)) => PartialCompare(FromInt(x), y)
    case (Float(x), Int(y)) => PartialCompare(x, FromInt(y))
    case (Text(x), Text(y)) => Some(CompareString(x, y))
    case (Bytes(x), Bytes(y)) => Some(CompareBytes(x, y))
    case _ => None
  }

  /** `order_of`: a missing column compares to nothing. */
  function OrderOf(left: Option<Value>, right: Value): Option<Order> {
    if left.Some? then CompareValues(left.value, right) else None
  }

  lemma CompareValuesReverse(a: Value, b: Value)
    ensures CompareValues(a, b).Some? <==> CompareValues(b, a).Some?
    ensures CompareValues(a, b).Some? ==> CompareValues(b, a).value == CompareValues(a, b).value.Reverse()
  {
    match (a, b)
    case (Text(x), Text(y)) => CompareStringTotal(x, y, x);
    case (Bytes(x), Bytes(y)) => CompareBytesReverse(x, y);
    case _ =>
  }
}
