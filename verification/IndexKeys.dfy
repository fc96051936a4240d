/** Byte keys for secondary indexes, and the spans of keys a query bound sweeps. */
module IndexKeys {
  import opened Prelude
  import opened Strings
  import opened Endian
  import opened Floats
  import opened Values

  const RANK_BOOL: byte := 0x10
  const RANK_NUMBER: byte := 0x20
  const RANK_TIMESTAMP: byte := 0x30
  const RANK_TEXT: byte := 0x40
  const RANK_BYTES: byte := 0x50

  /** The bits of a float, moved so that unsigned order is numeric order: all bits
      flipped when the sign bit is set, otherwise only the sign bit set. */
  function FlipBits(bits: uint64): uint64 {
    var flipped: int := if bits >= TWO_63 then TWO_64 - 1 - bits else bits + TWO_63;
    flipped
  }

  function OrderPreservingF64(f: F64): seq<byte> {
    BigEndian(FlipBits(ToBits(f)), WORD)
  }

  function OrderPreservingI64(t: int64): seq<byte> {
    var shifted: int := t + TWO_63;
    BigEndian(shifted, WORD)
  }

  /** The index key of a value; None when the value cannot be indexed. */
  function Encode(v: Value): Option<seq<byte>> {
    match v
    case Bool(b) => Some([RANK_BOOL, if b then 1 else 0])
    case Int(i) => Some([RANK_NUMBER] + OrderPreservingF64(FromInt(i)))
    case Float(f) => Some([RANK_NUMBER] + OrderPreservingF64(f))
    case Timestamp(t) => Some([RANK_TIMESTAMP] + OrderPreservingI64(t))
    case Text(s) => Some([RANK_TEXT] + Utf8(s))
    case Bytes(b) => Some([RANK_BYTES] + b)
    case Null => None
    case Map(_) => None
    case List(_) => None
  }

  // ----- bounds and spans -----

  datatype IndexBound =
    | Eq(value: Value)
    | AnyOf(values: seq<Value>)
    | Range(low: Option<(Value, bool)>, high: Option<(Value, bool)>)

  datatype Bound = Included(key: seq<byte>) | Excluded(key: seq<byte>) | Unbounded

  datatype Span = Span(start: Bound, end: Bound)

  predicate InSpan(key: seq<byte>, span: Span) {
    && (match span.start
        case Included(k) => CompareBytes(key, k) != Less
        case Excluded(k) => CompareBytes(key, k) == Greater
        case Unbounded => true)
    && (match span.end
        case Included(k) => CompareBytes(key, k) != Greater
        case Excluded(k) => CompareBytes(key, k) == Less
        case Unbounded => true)
  }

  predicate InSomeSpan(key: seq<byte>, spans: seq<Span>) {
    exists i :: 0 <= i < |spans| && InSpan(key, spans[i])
  }

  function PointSpan(key: seq<byte>): Span {
    Span(Included(key), Included(key))
  }

  function PointSpans(values: seq<Value>): Option<seq<Span>> {
    if values == [] then Some([])
    else
      var key, rest := Encode(values[0]), PointSpans(values[1..]);
      if key.Some? && rest.Some? then Some([PointSpan(key.value)] + rest.value) else None
  }

  function RangeEnd(limit: Option<(Value, bool)>): Option<Bound> {
    if limit.None? then Some(Unbounded)
    else
      var key := Encode(limit.value.0);
      if key.None? then None
      else if limit.value.1 then Some(Included(key.value))
      else Some(Excluded(key.value))
  }

  /** The spans to sweep for a bound; None means that no index can answer it. */
  function EncodedRange(bound: IndexBound): Option<seq<Span>> {
    match bound
    case Eq(value) => PointSpans([value])
    case AnyOf(values) => PointSpans(values)
    case Range(low, high) =>
      var start, end := RangeEnd(low), RangeEnd(high);
      if start.Some? && end.Some? then Some([Span(start.value, end.value)]) else None
  }

  /** The loop behind `IN`: one span per member, abandoned at the first unencodable one. */
  method EncodeMembers(values: seq<Value>) returns (spans: Option<seq<Span>>)
    ensures spans == EncodedRange(AnyOf(values))
    ensures spans.None? <==> exists v :: v in values && Encode(v).None?
    ensures spans.Some? ==> |spans.value| == |values|
  {
    var out: seq<Span> := [];
    ghost var all := PointSpans(values);
    assert values[0..] == values && (all.Some? ==> out + all.value == all.value);
    for i := 0 to |values|
      invariant |out| == i
      invariant forall v :: v in values[..i] ==> Encode(v).Some?
      invariant PointSpans(values) ==
                if PointSpans(values[i..]).Some? then Some(out + PointSpans(values[i..]).value) else None
    {
      ghost var rest := PointSpans(values[i + 1..]);
      assert values[i..][0] == values[i] && values[i..][1..] == values[i + 1..];
      var key := Encode(values[i]);
      if key.None? {
        assert values[i] in values;
        return None;
      }
      if rest.Some? {
        assert out + ([PointSpan(key.value)] + rest.value) == (out + [PointSpan(key.value)]) + rest.value;
      }
      out := out + [PointSpan(key.value)];
      assert values[..i + 1] == values[..i] + [values[i]];
    }
    assert values[|values|..] == [] && values[..|values|] == values && out + [] == out;
    spans := Some(out);
  }

  // ----- the order of keys -----

  function Rank(v: Value): Option<byte> {
    match v
    case Bool(_) => Some(RANK_BOOL)
    case Int(_) => Some(RANK_NUMBER)
    case Float(_) => Some(RANK_NUMBER)
    case Timestamp(_) => Some(RANK_TIMESTAMP)
    case Text(_) => Some(RANK_TEXT)
    case Bytes(_) => Some(RANK_BYTES)
    case _ => None
  }

  /** The float a number is keyed by. */
  function AsFloat(v: Value): F64
    requires v.Int? || v.Float?
  {
    if v.Int? then FromInt(v.i) else v.f
  }

  predicate NegativeZero(v: Value) {
    v == Float(SignMagnitude(true, 0))
  }

  predicate PositiveZero(v: Value) {
    v == Int(0) || v == Float(SignMagnitude(false, 0))
  }

  lemma FloatKeyOrder(a: F64, b: F64)
    ensures CompareBytes(OrderPreservingF64(a), OrderPreservingF64(b))
            == if Signed(a) != Signed(b) then CompareInt(Signed(a), Signed(b))
               else CompareInt(if a.negative then 0 else 1, if b.negative then 0 else 1)
  {
    Pow256Eight();
    BigEndianOrder(FlipBits(ToBits(a)), FlipBits(ToBits(b)), WORD);
  }

  lemma RankFirst(v: Value)
    ensures Encode(v).Some? <==> Rank(v).Some?
    ensures Encode(v).Some? ==> Encode(v).value != [] && Encode(v).value[0] == Rank(v).value
  {}

  /** Values of different ranks never interleave: the ranks alone order their keys. */
  lemma RanksDoNotInterleave(a: Value, b: Value)
    requires Encode(a).Some? && Encode(b).Some? && Rank(a) != Rank(b)
    ensures CompareBytes(Encode(a).value, Encode(b).value) == CompareInt(Rank(a).value, Rank(b).value) != Equal
    ensures CompareValues(a, b).None?
  {
    RankFirst(a);
    RankFirst(b);
  }

  /** Where the executor orders two values, their keys are in the same order, except that
      two integers may share a float and that the two zeros, though equal, do not share a key. */
  lemma KeyOrderIsValueOrder(a: Value, b: Value)
    requires !(a.Null? && b.Null?) && CompareValues(a, b).Some?
    ensures Encode(a).Some? && Encode(b).Some?
    ensures var keys, values := CompareBytes(Encode(a).value, Encode(b).value), CompareValues(a, b).value;
            if NegativeZero(a) && PositiveZero(b) then keys == Less && values == Equal
            else if PositiveZero(a) && NegativeZero(b) then keys == Greater && values == Equal
            else if a.Int? && b.Int? && FromInt(a.i) == FromInt(b.i) then keys == Equal
            else keys == values
  {
    match (a, b)
    case (Bool(x), Bool(y)) =>
      var p, q: seq<byte> := [if x then 1 else 0], [if y then 1 else 0];
      assert Encode(a).value == [RANK_BOOL] + p && Encode(b).value == [RANK_BOOL] + q;
      CompareBytesCommonPrefix([RANK_BOOL], p, q);
    case (Timestamp(x), Timestamp(y)) =>
      Pow256Eight();
      BigEndianOrder(x + TWO_63, y + TWO_63, WORD);
      CompareBytesCommonPrefix([RANK_TIMESTAMP], OrderPreservingI64(x), OrderPreservingI64(y));
    case (Text(x), Text(y)) => CompareBytesCommonPrefix([RANK_TEXT], Utf8(x), Utf8(y));
    case (Bytes(x), Bytes(y)) => CompareBytesCommonPrefix([RANK_BYTES], x, y);
    case _ => NumberKeyOrder(a, b);
  }

  /** Two integers are ordered as their floats are, unless they share one. */
  lemma IntegersOrderAsFloats(i: int64, j: int64)
    ensures FromInt(i) != FromInt(j) ==> CompareInt(Signed(FromInt(i)), Signed(FromInt(j))) == CompareInt(i, j) != Equal
  {
    SignedFromIntInjective(i, j);
    if i <= j { FromIntMonotone(i, j); } else { FromIntMonotone(j, i); }
  }

  lemma NumberKeys(a: Value, b: Value)
    requires (a.Int? || a.Float?) && (b.Int? || b.Float?)
    ensures Encode(a).Some? && Encode(b).Some?
    ensures var x, y := AsFloat(a), AsFloat(b);
            CompareBytes(Encode(a).value, Encode(b).value)
            == if Signed(x) != Signed(y) then CompareInt(Signed(x), Signed(y))
               else CompareInt(if x.negative then 0 else 1, if y.negative then 0 else 1)
  {
    var x, y := AsFloat(a), AsFloat(b);
    CompareBytesCommonPrefix([RANK_NUMBER], OrderPreservingF64(x), OrderPreservingF64(y));
    FloatKeyOrder(x, y);
  }

  lemma IntegerKeyOrder(i: int64, j: int64)
    ensures Encode(Int(i)).Some? && Encode(Int(j)).Some?
    ensures CompareBytes(Encode(Int(i)).value, Encode(Int(j)).value)
            == if FromInt(i) == FromInt(j) then Equal else CompareInt(i, j)
  {
    NumberKeys(Int(i), Int(j));
    IntegersOrderAsFloats(i, j);
  }

  /** The zeros of either sign, as floats. */
  lemma ZeroFloats(v: Value)
    requires v.Int? || v.Float?
    ensures NegativeZero(v) <==> AsFloat(v).negative && Signed(AsFloat(v)) == 0
    ensures PositiveZero(v) <==> !AsFloat(v).negative && Signed(AsFloat(v)) == 0
  {
    if v.Int? { FromIntSign(v.i); }
  }

  lemma NumberKeyOrder(a: Value, b: Value)
    requires (a.Int? || a.Float?) && (b.Int? || b.Float?) && CompareValues(a, b).Some?
    ensures Encode(a).Some? && Encode(b).Some?
    ensures var keys, values := CompareBytes(Encode(a).value, Encode(b).value), CompareValues(a, b).value;
            if NegativeZero(a) && PositiveZero(b) then keys == Less && values == Equal
            else if PositiveZero(a) && NegativeZero(b) then keys == Greater && values == Equal
            else if a.Int? && b.Int? && FromInt(a.i) == FromInt(b.i) then keys == Equal
            else keys == values
  {
    if a.Int? && b.Int? {
      IntegerKeyOrder(a.i, b.i);
    } else {
      NumberKeys(a, b);
      ZeroFloats(a);
      ZeroFloats(b);
      assert CompareValues(a, b) == PartialCompare(AsFloat(a), AsFloat(b));
    }
  }

  /** Keys agree exactly when rounding to a float agrees: integers within 2^53 never collide. */
  lemma SmallIntegersKeepTheirKeys(i: int64, j: int64)
    requires i != j && Abs(i) <= TWO_53 && Abs(j) <= TWO_53
    ensures Encode(Int(i)).value != Encode(Int(j)).value
  {
    if i < j { FromIntMonotone(i, j); } else { FromIntMonotone(j, i); }
    KeyOrderIsValueOrder(Int(i), Int(j));
    CompareBytesEqual(Encode(Int(i)).value, Encode(Int(j)).value);
  }

  // ----- the sweep is a superset of the matches -----

  predicate MeetsLow(v: Value, low: Option<(Value, bool)>) {
    low.Some? ==>
      var order := CompareValues(v, low.value.0);
      order == Some(Greater) || (low.value.1 && order == Some(Equal))
  }

  predicate MeetsHigh(v: Value, high: Option<(Value, bool)>) {
    high.Some? ==>
      var order := CompareValues(v, high.value.0);
      order == Some(Less) || (high.value.1 && order == Some(Equal))
  }

  /** What the executor's filter asks of a stored value, for the predicate behind a bound. */
  predicate Satisfies(v: Value, bound: IndexBound) {
    match bound
    case Eq(value) => CompareValues(v, value) == Some(Equal)
    case AnyOf(values) => exists i :: 0 <= i < |values| && CompareValues(v, values[i]) == Some(Equal)
    case Range(low, high) => MeetsLow(v, low) && MeetsHigh(v, high)
  }

  /** The operands for which no stored value can be lost.  Inclusive bounds lose only the
      other zero; exclusive bounds lose only integers that share the operand's float. */
  predicate SafeLow(low: Option<(Value, bool)>) {
    low.Some? ==>
      var (x, inclusive) := low.value;
      if inclusive then !PositiveZero(x)
      else x.Int? && x.i < I64_MAX ==> FromInt(x.i + 1) != FromInt(x.i)
  }

  predicate SafeHigh(high: Option<(Value, bool)>) {
    high.Some? ==>
      var (x, inclusive) := high.value;
      if inclusive then !NegativeZero(x)
      else x.Int? && x.i > I64_MIN ==> FromInt(x.i - 1) != FromInt(x.i)
  }

  predicate SafeMembers(values: seq<Value>) {
    (exists i :: 0 <= i < |values| && NegativeZero(values[i]))
    <==> (exists i :: 0 <= i < |values| && PositiveZero(values[i]))
  }

  predicate SafeBound(bound: IndexBound) {
    match bound
    case Eq(value) => SafeMembers([value])
    case AnyOf(values) => SafeMembers(values)
    case Range(low, high) => SafeLow(low) && SafeHigh(high)
  }

  lemma {:induction false} PointSpansHold(values: seq<Value>, i: nat)
    requires i < |values| && PointSpans(values).Some?
    ensures |PointSpans(values).value| == |values|
    ensures Encode(values[i]).Some? && PointSpans(values).value[i] == PointSpan(Encode(values[i]).value)
  {
    if i > 0 {
      PointSpansHold(values[1..], i - 1);
    } else if |values| > 1 {
      PointSpansHold(values[1..], 0);
    }
  }

  lemma SpanOfPoint(value: Value)
    requires Encode(value).Some?
    ensures EncodedRange(Eq(value)) == Some([PointSpan(Encode(value).value)])
  {
    assert [value][1..] == [] && PointSpans([]) == Some([]);
    assert [PointSpan(Encode(value).value)] + [] == [PointSpan(Encode(value).value)];
    assert PointSpans([value]) == Some([PointSpan(Encode(value).value)] + []);
  }

  lemma SoleSpan(key: seq<byte>, point: seq<byte>)
    ensures InSomeSpan(key, [PointSpan(point)]) <==> key == point
  {
    PointInSpan(key, point);
    assert InSomeSpan(key, [PointSpan(point)]) <==> InSpan(key, [PointSpan(point)][0]);
  }

  lemma PointInSpan(key: seq<byte>, point: seq<byte>)
    ensures InSpan(key, PointSpan(point)) <==> key == point
  {
    CompareBytesEqual(key, point);
    CompareBytesReverse(key, point);
  }

  /** An equal value has the operand's own key, unless the two are the two zeros. */
  lemma EqualValuesShareKey(v: Value, x: Value)
    requires CompareValues(v, x) == Some(Equal) && Encode(x).Some?
    ensures Encode(v).Some?
    ensures Encode(v) == Encode(x)
            <==> !(NegativeZero(v) && PositiveZero(x)) && !(PositiveZero(v) && NegativeZero(x))
  {
    KeyOrderIsValueOrder(v, x);
    CompareBytesEqual(Encode(v).value, Encode(x).value);
  }

  lemma MembersFound(v: Value, values: seq<Value>)
    requires SafeMembers(values) && Satisfies(v, AnyOf(values)) && PointSpans(values).Some?
    ensures Encode(v).Some? && InSomeSpan(Encode(v).value, PointSpans(values).value)
  {
    var i :| 0 <= i < |values| && CompareValues(v, values[i]) == Some(Equal);
    PointSpansHold(values, i);
    EqualValuesShareKey(v, values[i]);
    var j := i;
    if NegativeZero(v) && PositiveZero(values[i]) {
      j :| 0 <= j < |values| && NegativeZero(values[j]);
    } else if PositiveZero(v) && NegativeZero(values[i]) {
      j :| 0 <= j < |values| && PositiveZero(values[j]);
      ZerosShareKey(v, values[j]);
    }
    PointSpansHold(values, j);
    PointInSpan(Encode(v).value, Encode(values[j]).value);
    assert InSpan(Encode(v).value, PointSpans(values).value[j]);
  }

  lemma ZerosShareKey(v: Value, w: Value)
    requires PositiveZero(v) && PositiveZero(w)
    ensures Encode(v) == Encode(w)
  {
    FromIntSign(0);
  }

  lemma LaterFloat(x: int64, v: int64)
    requires x < v && FromInt(x + 1) != FromInt(x)
    ensures FromInt(v) != FromInt(x)
  {
    SharedRounding(x, v);
  }

  lemma EarlierFloat(v: int64, x: int64)
    requires v < x && FromInt(x - 1) != FromInt(x)
    ensures FromInt(v) != FromInt(x)
  {
    SharedRounding(v, x);
  }

  // ----- the stored values a sweep misses -----

  predicate SameZero(v: Value, w: Value) {
    (NegativeZero(v) && NegativeZero(w)) || (PositiveZero(v) && PositiveZero(w))
  }

  predicate OppositeZeros(v: Value, w: Value) {
    (NegativeZero(v) && PositiveZero(w)) || (PositiveZero(v) && NegativeZero(w))
  }

  predicate StraysLow(v: Value, low: (Value, bool)) {
    if low.1 then NegativeZero(v) && PositiveZero(low.0)
    else v.Int? && low.0.Int? && v.i > low.0.i && FromInt(v.i) == FromInt(low.0.i)
  }

  predicate StraysHigh(v: Value, high: (Value, bool)) {
    if high.1 then PositiveZero(v) && NegativeZero(high.0)
    else v.Int? && high.0.Int? && v.i < high.0.i && FromInt(v.i) == FromInt(high.0.i)
  }

  /** A stored value that a one-sided bound matches and its sweep passes by: a zero where only
      the other zero is asked for, or an integer strictly beyond the operand that shares its float. */
  predicate Strays(v: Value, bound: IndexBound) {
    match bound
    case Eq(value) => OppositeZeros(v, value)
    case AnyOf(values) =>
      && (exists i :: 0 <= i < |values| && OppositeZeros(v, values[i]))
      && (forall i :: 0 <= i < |values| ==> !SameZero(v, values[i]))
    case Range(low, high) => (low.Some? && StraysLow(v, low.value)) || (high.Some? && StraysHigh(v, high.value))
  }

  lemma LowStraysExactly(v: Value, low: (Value, bool))
    requires Encode(low.0).Some? && MeetsLow(v, Some(low))
    ensures Encode(v).Some?
    ensures InSpan(Encode(v).value, Span(RangeEnd(Some(low)).value, Unbounded)) <==> !StraysLow(v, low)
  {
    KeyOrderIsValueOrder(v, low.0);
  }

  lemma HighStraysExactly(v: Value, high: (Value, bool))
    requires Encode(high.0).Some? && MeetsHigh(v, Some(high))
    ensures Encode(v).Some?
    ensures InSpan(Encode(v).value, Span(Unbounded, RangeEnd(Some(high)).value)) <==> !StraysHigh(v, high)
  {
    KeyOrderIsValueOrder(v, high.0);
  }

  lemma LowFound(v: Value, low: (Value, bool))
    requires SafeLow(Some(low)) && MeetsLow(v, Some(low)) && Encode(low.0).Some?
    ensures Encode(v).Some? && InSpan(Encode(v).value, Span(RangeEnd(Some(low)).value, Unbounded))
  {
    LowStraysExactly(v, low);
    if !low.1 && v.Int? && low.0.Int? && low.0.i < v.i {
      LaterFloat(low.0.i, v.i);
    }
  }

  lemma HighFound(v: Value, high: (Value, bool))
    requires SafeHigh(Some(high)) && MeetsHigh(v, Some(high)) && Encode(high.0).Some?
    ensures Encode(v).Some? && InSpan(Encode(v).value, Span(Unbounded, RangeEnd(Some(high)).value))
  {
    HighStraysExactly(v, high);
    if !high.1 && v.Int? && high.0.Int? && v.i < high.0.i {
      EarlierFloat(v.i, high.0.i);
    }
  }

  /** Every encodable value the predicate matches lies inside the sweep, for a safe bound. */
  lemma SafeBoundSweepsMatches(v: Value, bound: IndexBound)
    requires SafeBound(bound) && Satisfies(v, bound) && EncodedRange(bound).Some?
    requires bound.Range? ==> bound.low.Some? || bound.high.Some?
    ensures Encode(v).Some? && InSomeSpan(Encode(v).value, EncodedRange(bound).value)
  {
    match bound
    case Eq(value) =>
      assert CompareValues(v, [value][0]) == Some(Equal);
      MembersFound(v, [value]);
    case AnyOf(values) => MembersFound(v, values);
    case Range(low, high) =>
      if low.Some? { LowFound(v, low.value); }
      if high.Some? { HighFound(v, high.value); }
      assert InSpan(Encode(v).value, EncodedRange(bound).value[0]);
  }

  // The bounds a predicate asks for have one operand, or are IN lists.

  predicate OneSided(bound: IndexBound) {
    bound.Range? ==> (bound.low.Some? && bound.high.None?) || (bound.low.None? && bound.high.Some?)
  }

  /** A stored value that an unsafe bound matches and its sweep does not reach. */
  function MissedBy(bound: IndexBound): Value {
    match bound
    case Eq(value) => if NegativeZero(value) then Int(0) else Float(SignMagnitude(true, 0))
    case AnyOf(values) =>
      if exists i :: 0 <= i < |values| && NegativeZero(values[i]) then Int(0) else Float(SignMagnitude(true, 0))
    case Range(low, high) =>
      if low.Some? then
        if low.value.1 || !low.value.0.Int? || low.value.0.i == I64_MAX
        then Float(SignMagnitude(true, 0))
        else Int(low.value.0.i + 1)
      else if high.Some? && !high.value.1 && high.value.0.Int? && high.value.0.i > I64_MIN
      then Int(high.value.0.i - 1)
      else Int(0)
  }

  lemma UnsafeMembersMiss(values: seq<Value>, v: Value)
    requires !SafeMembers(values) && PointSpans(values).Some?
    requires v == if exists i :: 0 <= i < |values| && NegativeZero(values[i])
                  then Int(0) else Float(SignMagnitude(true, 0))
    ensures Satisfies(v, AnyOf(values)) && Encode(v).Some? && !InSomeSpan(Encode(v).value, PointSpans(values).value)
  {
    if i :| 0 <= i < |values| && NegativeZero(values[i]) {
      ZerosCompareEqual(v, values[i]);
    } else {
      var i :| 0 <= i < |values| && PositiveZero(values[i]);
      ZerosCompareEqual(v, values[i]);
    }
    forall i | 0 <= i < |PointSpans(values).value|
      ensures !InSpan(Encode(v).value, PointSpans(values).value[i])
    {
      UnsafeMemberMisses(values, v, i);
    }
  }

  lemma ZerosCompareEqual(v: Value, w: Value)
    requires (NegativeZero(v) || PositiveZero(v)) && (NegativeZero(w) || PositiveZero(w))
    ensures CompareValues(v, w) == Some(Equal) && Encode(v).Some?
  {
    FromIntSign(0);
  }

  lemma UnsafeMemberMisses(values: seq<Value>, v: Value, i: nat)
    requires PointSpans(values).Some? && i < |PointSpans(values).value|
    requires NegativeZero(v) || PositiveZero(v)
    requires NegativeZero(v) ==> forall j :: 0 <= j < |values| ==> !NegativeZero(values[j])
    requires PositiveZero(v) ==> forall j :: 0 <= j < |values| ==> !PositiveZero(values[j])
    ensures Encode(v).Some? && !InSpan(Encode(v).value, PointSpans(values).value[i])
  {
    PointSpansHold(values, 0);
    PointSpansHold(values, i);
    PointInSpan(Encode(v).value, Encode(values[i]).value);
    if Encode(v) == Encode(values[i]) {
      KeyOfZero(v, values[i]);
    }
  }

  /** Only a zero of the same sign has a zero's key. */
  lemma KeyOfZero(v: Value, x: Value)
    requires NegativeZero(v) || PositiveZero(v)
    requires Encode(x).Some? && Encode(x) == Encode(v)
    ensures NegativeZero(v) ==> NegativeZero(x)
    ensures PositiveZero(v) ==> PositiveZero(x)
  {
    RankFirst(v);
    RankFirst(x);
    assert x.Int? || x.Float?;
    var a, b := AsFloat(v), AsFloat(x);
    assert Encode(v).value[1..] == OrderPreservingF64(a) && Encode(x).value[1..] == OrderPreservingF64(b);
    FloatKeyOrder(a, b);
    CompareBytesEqual(OrderPreservingF64(a), OrderPreservingF64(b));
    if x.Int? { FromIntSign(x.i); }
    if v.Int? { FromIntSign(v.i); }
  }

  lemma UnsafeLowMisses(low: Option<(Value, bool)>)
    requires low.Some? && !SafeLow(low) && RangeEnd(low).Some?
    ensures var v := MissedBy(Range(low, None));
            MeetsLow(v, low) && Encode(v).Some? && !InSpan(Encode(v).value, Span(RangeEnd(low).value, Unbounded))
  {
    FromIntSign(0);
    KeyOrderIsValueOrder(MissedBy(Range(low, None)), low.value.0);
  }

  lemma UnsafeHighMisses(high: Option<(Value, bool)>)
    requires high.Some? && !SafeHigh(high) && RangeEnd(high).Some?
    ensures var v := MissedBy(Range(None, high));
            MeetsHigh(v, high) && Encode(v).Some? && !InSpan(Encode(v).value, Span(Unbounded, RangeEnd(high).value))
  {
    FromIntSign(0);
    KeyOrderIsValueOrder(MissedBy(Range(None, high)), high.value.0);
  }

  lemma UnsafeRangeMisses(bound: IndexBound)
    requires bound.Range? && OneSided(bound) && !SafeBound(bound) && EncodedRange(bound).Some?
    ensures var v := MissedBy(bound);
            Satisfies(v, bound) && Encode(v).Some? && !InSomeSpan(Encode(v).value, EncodedRange(bound).value)
  {
    if bound.low.Some? {
      UnsafeLowMisses(bound.low);
    } else {
      UnsafeHighMisses(bound.high);
    }
  }

  /** The sweep of a bound reaches every value its predicate matches, whatever is stored,
      exactly when the bound is safe. */
  lemma SweepIsSupersetExactly(bound: IndexBound)
    requires OneSided(bound) && EncodedRange(bound).Some?
    ensures (forall v :: Satisfies(v, bound) ==>
               Encode(v).Some? && InSomeSpan(Encode(v).value, EncodedRange(bound).value))
            <==> SafeBound(bound)
  {
    if SafeBound(bound) {
      forall v | Satisfies(v, bound)
        ensures Encode(v).Some? && InSomeSpan(Encode(v).value, EncodedRange(bound).value)
      {
        SafeBoundSweepsMatches(v, bound);
      }
    } else {
      var v := MissedBy(bound);
      match bound
      case Eq(value) =>
        UnsafeMembersMiss([value], v);
        var i :| 0 <= i < 1 && CompareValues(v, [value][i]) == Some(Equal);
        assert Satisfies(v, bound);
      case AnyOf(values) => UnsafeMembersMiss(values, v);
      case Range(_, _) => UnsafeRangeMisses(bound);
    }
  }

  lemma MemberStraysExactly(v: Value, values: seq<Value>)
    requires PointSpans(values).Some? && Satisfies(v, AnyOf(values))
    ensures Encode(v).Some?
    ensures InSomeSpan(Encode(v).value, PointSpans(values).value) <==> !Strays(v, AnyOf(values))
  {
    var i :| 0 <= i < |values| && CompareValues(v, values[i]) == Some(Equal);
    PointSpansHold(values, i);
    EqualValuesShareKey(v, values[i]);
    if OppositeZeros(v, values[i]) {
      if j :| 0 <= j < |values| && SameZero(v, values[j]) {
        SameZeroFound(v, values, j);
      } else {
        forall j | 0 <= j < |PointSpans(values).value| ensures !InSpan(Encode(v).value, PointSpans(values).value[j]) {
          UnsafeMemberMisses(values, v, j);
        }
      }
    } else {
      PointInSpan(Encode(v).value, Encode(values[i]).value);
      assert InSpan(Encode(v).value, PointSpans(values).value[i]);
      NoStrayBesideItsKey(v, values, i);
    }
  }

  lemma SameZeroFound(v: Value, values: seq<Value>, j: nat)
    requires PointSpans(values).Some? && j < |values| && SameZero(v, values[j])
    ensures Encode(v).Some? && InSomeSpan(Encode(v).value, PointSpans(values).value)
  {
    PointSpansHold(values, j);
    if PositiveZero(v) {
      ZerosShareKey(v, values[j]);
    }
    PointInSpan(Encode(v).value, Encode(values[j]).value);
    assert InSpan(Encode(v).value, PointSpans(values).value[j]);
  }

  lemma NoStrayBesideItsKey(v: Value, values: seq<Value>, i: nat)
    requires i < |values| && CompareValues(v, values[i]) == Some(Equal)
    requires Encode(values[i]).Some? && Encode(v) == Encode(values[i])
    ensures !Strays(v, AnyOf(values))
  {
    if NegativeZero(v) || PositiveZero(v) {
      KeyOfZero(v, values[i]);
      assert SameZero(v, values[i]);
    }
  }

  /** A value that a one-sided bound matches has a key, and the sweep reaches it exactly when the
      value does not stray; and only values that match can stray. */
  lemma StraysExactly(v: Value, bound: IndexBound)
    requires OneSided(bound) && EncodedRange(bound).Some?
    ensures Satisfies(v, bound) ==>
              Encode(v).Some? && (InSomeSpan(Encode(v).value, EncodedRange(bound).value) <==> !Strays(v, bound))
    ensures Strays(v, bound) ==> Satisfies(v, bound)
  {
    if Strays(v, bound) {
      StraysMatch(v, bound);
    }
    if Satisfies(v, bound) {
      match bound
      case Eq(value) =>
        assert CompareValues(v, [value][0]) == Some(Equal);
        MemberStraysExactly(v, [value]);
        EqStraysAsMember(v, value);
      case AnyOf(values) => MemberStraysExactly(v, values);
      case Range(_, _) => RangeStraysExactly(v, bound);
    }
  }

  lemma EqStraysAsMember(v: Value, value: Value)
    ensures Strays(v, Eq(value)) <==> Strays(v, AnyOf([value]))
  {
    assert [value][0] == value;
  }

  lemma RangeStraysExactly(v: Value, bound: IndexBound)
    requires bound.Range? && OneSided(bound) && EncodedRange(bound).Some? && Satisfies(v, bound)
    ensures Encode(v).Some? && (InSomeSpan(Encode(v).value, EncodedRange(bound).value) <==> !Strays(v, bound))
  {
    if bound.low.Some? {
      LowStraysExactly(v, bound.low.value);
    } else {
      HighStraysExactly(v, bound.high.value);
    }
    var spans := EncodedRange(bound).value;
    assert InSomeSpan(Encode(v).value, spans) <==> InSpan(Encode(v).value, spans[0]);
  }

  lemma StraysMatch(v: Value, bound: IndexBound)
    requires OneSided(bound) && EncodedRange(bound).Some? && Strays(v, bound)
    ensures Satisfies(v, bound)
  {
    match bound
    case Eq(value) => ZerosCompareEqual(v, value);
    case AnyOf(values) =>
      var i :| 0 <= i < |values| && OppositeZeros(v, values[i]);
      ZerosCompareEqual(v, values[i]);
    case Range(low, high) =>
      var (x, inclusive) := if low.Some? then low.value else high.value;
      if inclusive {
        ZerosCompareEqual(v, x);
      }
  }

  /** No stored value strays from a safe bound. */
  lemma NothingStraysFromSafeBounds(v: Value, bound: IndexBound)
    requires OneSided(bound) && EncodedRange(bound).Some? && SafeBound(bound)
    ensures !Strays(v, bound)
  {
    if Strays(v, bound) {
      StraysExactly(v, bound);
      SafeBoundSweepsMatches(v, bound);
    }
  }

  // ----- spans that cannot be swept -----

  /** A span whose ends are the wrong way round: sweeping an ordered map over it panics. */
  predicate Reversed(span: Span) {
    && !span.start.Unbounded? && !span.end.Unbounded?
    && var order := CompareBytes(span.start.key, span.end.key);
       order == Greater || (order == Equal && span.start.Excluded? && span.end.Excluded?)
  }

  /** No bound a predicate asks for has such a span. */
  lemma OneSidedIsNeverReversed(bound: IndexBound, i: nat)
    requires OneSided(bound) && EncodedRange(bound).Some? && i < |EncodedRange(bound).value|
    ensures !Reversed(EncodedRange(bound).value[i])
  {
    if !bound.Range? {
      var values := if bound.Eq? then [bound.value] else bound.values;
      RefusedExactlyWhenUnencodable(values);
      PointSpansHold(values, i);
      CompareBytesEqual(Encode(values[i]).value, Encode(values[i]).value);
    }
  }

  /** An integer operand inside 2^53 is always safe for a strict bound. */
  lemma SmallStrictBoundsAreSafe(x: int64)
    requires Abs(x) < TWO_53
    ensures SafeBound(Range(Some((Int(x), false)), None))
    ensures SafeBound(Range(None, Some((Int(x), false))))
  {
    FromIntMonotone(x, x + 1);
    FromIntMonotone(x - 1, x);
  }

  /** At 2^53 it is not: `x > 2^53` sweeps past the stored integer 2^53 + 1. */
  lemma StrictBoundLosesAnInteger(x: int64)
    requires x == TWO_53
    ensures var bound := Range(Some((Int(x), false)), None);
            && Satisfies(Int(x + 1), bound)
            && EncodedRange(bound).Some?
            && !InSomeSpan(Encode(Int(x + 1)).value, EncodedRange(bound).value)
  {
    TwoIntegersShareAFloat(x);
    UnsafeRangeMisses(Range(Some((Int(x), false)), None));
  }

  /** A range whose ends are of different types is answered with a span, not refused: one that
      cannot be swept when the lower end has the higher rank. No value at all satisfies it, so
      the rows such a span may hold are filtered out again. */
  lemma MixedRangeMatchesNothing(low: (Value, bool), high: (Value, bool), v: Value)
    requires Encode(low.0).Some? && Encode(high.0).Some? && Rank(low.0) != Rank(high.0)
    ensures var spans := EncodedRange(Range(Some(low), Some(high)));
            spans.Some? && |spans.value| == 1 && (Reversed(spans.value[0]) <==> Rank(low.0).value > Rank(high.0).value)
    ensures !Satisfies(v, Range(Some(low), Some(high)))
  {
    RanksDoNotInterleave(low.0, high.0);
    RankFirst(low.0);
    RankFirst(high.0);
    if Encode(v).Some? && Rank(v) != Rank(low.0) {
      RanksDoNotInterleave(v, low.0);
    }
    if Encode(v).Some? && Rank(v) != Rank(high.0) {
      RanksDoNotInterleave(v, high.0);
    }
  }

  /** No span list is empty by accident: a bound is refused exactly when an operand has no key. */
  lemma {:induction false} RefusedExactlyWhenUnencodable(values: seq<Value>)
    ensures EncodedRange(AnyOf(values)).None? <==> exists v :: v in values && Encode(v).None?
    ensures EncodedRange(AnyOf(values)).Some? ==> |EncodedRange(AnyOf(values)).value| == |values|
  {
    if values != [] {
      RefusedExactlyWhenUnencodable(values[1..]);
      assert forall v :: v in values <==> v == values[0] || v in values[1..];
    }
  }
}
