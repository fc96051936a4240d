/** Vocabulary shared by every module: optional values, results, orderings, the
    machine integers of the source, and byte-string order. */
module Prelude {

  datatype Option<+T> = None | Some(value: T)

  /** A computed value or an error; usable with `:-`. */
  datatype Result<+T, +E> = Ok(value: T) | Err(error: E) {

    predicate IsFailure() {
      Err?
    }

    function PropagateFailure<U>(): Result<U, E>
      requires Err?
    {
      Err(error)
    }

    function Extract(): T
      requires Ok?
    {
      value
    }
  }

  datatype Order = Less | Equal | Greater {

    function Reverse(): Order {
      match this
      case Less => Greater
      case Equal => Equal
      case Greater => Less
    }
  }

  type byte = b: int | 0 <= b < 0x100
  type int64 = i: int | -0x8000_0000_0000_0000 <= i < 0x8000_0000_0000_0000
  type uint64 = n: int | 0 <= n < 0x1_0000_0000_0000_0000

  const U64_MAX: uint64 := 0xFFFF_FFFF_FFFF_FFFF
  const I64_MAX: int64 := 0x7FFF_FFFF_FFFF_FFFF
  const I64_MIN: int64 := -0x8000_0000_0000_0000

  function Min(a: int, b: int): int {
    if a <= b then a else b
  }

  function Max(a: int, b: int): int {
    if a >= b then a else b
  }

  function Abs(a: int): nat {
    if a < 0 then -a else a
  }

  /** `saturating_sub` and `saturating_add` on i64. */
  function Clamp64(n: int): int64 {
    if n < I64_MIN then I64_MIN else if n > I64_MAX then I64_MAX else n
  }

  /** The first `n` elements, or all of them: `Iterator::take`. */
  function Take<T>(s: seq<T>, n: nat): seq<T> {
    if n <= |s| then s[..n] else s
  }

  /** All but the first `n` elements: `Iterator::skip`. */
  function Skip<T>(s: seq<T>, n: nat): seq<T> {
    if n <= |s| then s[n..] else []
  }

  function CompareInt(a: int, b: int): Order {
    if a < b then Less else if a > b then Greater else Equal
  }

  /** Lexicographic order on byte strings: the order of `Vec<u8>` and of `str`. */
  function CompareBytes(a: seq<byte>, b: seq<byte>): Order {
    if a == [] then
      if b == [] then Equal else Less
    else if b == [] then
      Greater
    else if a[0] != b[0] then
      CompareInt(a[0], b[0])
    else
      CompareBytes(a[1..], b[1..])
  }

  lemma {:induction false} CompareBytesReverse(a: seq<byte>, b: seq<byte>)
    ensures CompareBytes(b, a) == CompareBytes(a, b).Reverse()
  {
    if a != [] && b != [] && a[0] == b[0] {
      CompareBytesReverse(a[1..], b[1..]);
    }
  }

  lemma {:induction false} CompareBytesEqual(a: seq<byte>, b: seq<byte>)
    ensures CompareBytes(a, b) == Equal <==> a == b
  {
    if a != [] && b != [] && a[0] == b[0] {
      CompareBytesEqual(a[1..], b[1..]);
      assert a == [a[0]] + a[1..] && b == [b[0]] + b[1..];
    }
  }

  lemma {:induction false} CompareBytesTransitive(a: seq<byte>, b: seq<byte>, c: seq<byte>)
    requires CompareBytes(a, b) != Greater && CompareBytes(b, c) != Greater
    ensures CompareBytes(a, c) != Greater
    ensures CompareBytes(a, c) == Equal ==> CompareBytes(a, b) == Equal && CompareBytes(b, c) == Equal
  {
    if a != [] && b != [] && c != [] && a[0] == b[0] == c[0] {
      CompareBytesTransitive(a[1..], b[1..], c[1..]);
    }
  }

  lemma {:induction false} CompareBytesCommonPrefix(p: seq<byte>, a: seq<byte>, b: seq<byte>)
    ensures CompareBytes(p + a, p + b) == CompareBytes(a, b)
  {
    if p == [] {
      assert p + a == a && p + b == b;
    } else {
      assert (p + a)[1..] == p[1..] + a && (p + b)[1..] == p[1..] + b;
      CompareBytesCommonPrefix(p[1..], a, b);
    }
  }

  /** A prefix of the same length decides the comparison when it differs. */
  lemma {:induction false} CompareBytesLeading(p: seq<byte>, q: seq<byte>, a: seq<byte>, b: seq<byte>)
    requires |p| == |q| && p != q
    ensures CompareBytes(p + a, q + b) == CompareBytes(p, q) != Equal
  {
    CompareBytesEqual(p, q);
    if p[0] == q[0] {
      assert p == [p[0]] + p[1..] && q == [q[0]] + q[1..];
      assert (p + a)[1..] == p[1..] + a && (q + b)[1..] == q[1..] + b;
      CompareBytesLeading(p[1..], q[1..], a, b);
    }
  }
}
