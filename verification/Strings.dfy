/** Rust strings: Unicode scalar values whose order and length are those of their
    UTF-8 bytes. */
module Strings {
  import opened Prelude

  function Utf8Char(c: char): (bytes: seq<byte>)
    ensures 1 <= |bytes| <= 4
  {
    var n := c as int;
    if n < 0x80 then [n]
    else if n < 0x800 then [0xC0 + n / 64, 0x80 + n % 64]
    else if n < 0x1_0000 then [0xE0 + n / 4096, 0x80 + n / 64 % 64, 0x80 + n % 64]
    else [0xF0 + n / 262144, 0x80 + n / 4096 % 64, 0x80 + n / 64 % 64, 0x80 + n % 64]
  }

  function Utf8(s: string): seq<byte> {
    if s == [] then [] else Utf8Char(s[0]) + Utf8(s[1..])
  }

  function CompareString(a: string, b: string): Order {
    CompareBytes(Utf8(a), Utf8(b))
  }

  predicate StringLess(a: string, b: string) {
    CompareString(a, b) == Less
  }

  lemma {:induction false} Utf8CharPrefixFree(c: char, d: char, x: seq<byte>, y: seq<byte>)
    requires Utf8Char(c) + x == Utf8Char(d) + y
    ensures c == d && x == y
  {
    var left, right := Utf8Char(c) + x, Utf8Char(d) + y;
    assert left[0] == Utf8Char(c)[0] && right[0] == Utf8Char(d)[0];
    assert |Utf8Char(c)| == |Utf8Char(d)|;
    var k := |Utf8Char(c)|;
    assert left[..k] == Utf8Char(c) && right[..k] == Utf8Char(d);
    assert left[k..] == x && right[k..] == y;
    Utf8CharInjective(c, d);
  }

  /** The scalar value a UTF-8 sequence stands for. */
  function CodePoint(bytes: seq<byte>): int {
    var b := (i: nat) => if i < |bytes| then bytes[i] as int else 0;
    if |bytes| == 1 then b(0)
    else if |bytes| == 2 then (b(0) - 0xC0) * 64 + (b(1) - 0x80)
    else if |bytes| == 3 then (b(0) - 0xE0) * 4096 + (b(1) - 0x80) * 64 + (b(2) - 0x80)
    else (b(0) - 0xF0) * 262144 + (b(1) - 0x80) * 4096 + (b(2) - 0x80) * 64 + (b(3) - 0x80)
  }

  lemma CodePointDecodes(c: char)
    ensures CodePoint(Utf8Char(c)) == c as int
  {
    var n := c as int;
    var q := n / 64;
    assert n == 64 * q + n % 64;
    assert n / 4096 == q / 64 && q == 64 * (q / 64) + q % 64;
    var r := q / 64;
    assert n / 262144 == r / 64 && r == 64 * (r / 64) + r % 64;
  }

  lemma Utf8CharInjective(c: char, d: char)
    requires Utf8Char(c) == Utf8Char(d)
    ensures c == d
  {
    CodePointDecodes(c);
    CodePointDecodes(d);
    assert c as int == d as int;
  }

  /** No string's bytes are shared with another string. */
  lemma {:induction false} Utf8Injective(s: string, t: string)
    requires Utf8(s) == Utf8(t)
    ensures s == t
  {
    if s != [] && t != [] {
      Utf8CharPrefixFree(s[0], t[0], Utf8(s[1..]), Utf8(t[1..]));
      Utf8Injective(s[1..], t[1..]);
      assert s == [s[0]] + s[1..] && t == [t[0]] + t[1..];
    }
  }

  /** `Ord for String` is a total order: antisymmetric, transitive, and equal only on equal strings. */
  lemma {:induction false} CompareStringTotal(a: string, b: string, c: string)
    ensures CompareString(b, a) == CompareString(a, b).Reverse()
    ensures CompareString(a, b) == Equal <==> a == b
    ensures CompareString(a, b) != Greater && CompareString(b, c) != Greater ==>
              CompareString(a, c) != Greater
              && (CompareString(a, c) == Equal ==> a == b && b == c)
  {
    CompareBytesReverse(Utf8(a), Utf8(b));
    CompareBytesEqual(Utf8(a), Utf8(b));
    CompareBytesEqual(Utf8(b), Utf8(c));
    if CompareString(a, b) == Equal {
      Utf8Injective(a, b);
    }
    if CompareString(a, b) != Greater && CompareString(b, c) != Greater {
      CompareBytesTransitive(Utf8(a), Utf8(b), Utf8(c));
      if CompareString(b, c) == Equal {
        Utf8Injective(b, c);
      }
    }
  }

  /** Strictly ascending strings: how a BTreeSet or the keys of a BTreeMap iterate. */
  ghost predicate Ascending(keys: seq<string>) {
    forall i, j :: 0 <= i < j < |keys| ==> StringLess(keys[i], keys[j])
  }

  ghost predicate IsLeast(k: string, keys: set<string>) {
    k in keys && forall other :: other in keys && other != k ==> StringLess(k, other)
  }

  lemma {:induction false} LeastExists(keys: set<string>)
    requires keys != {}
    ensures exists k :: IsLeast(k, keys)
  {
    var any :| any in keys;
    var rest := keys - {any};
    if rest == {} {
      assert keys == {any};
      assert IsLeast(any, keys);
    } else {
      LeastExists(rest);
      var k :| IsLeast(k, rest);
      CompareStringTotal(any, k, k);
      if StringLess(any, k) {
        forall other | other in keys && other != any ensures StringLess(any, other) {
          assert other in rest;
          CompareStringTotal(any, k, other);
          CompareStringTotal(k, other, any);
        }
        assert IsLeast(any, keys);
      } else {
        forall other | other in keys && other != k ensures StringLess(k, other) {
          assert other == any || other in rest;
        }
        assert IsLeast(k, keys);
      }
    }
  }

  /** The elements of a set in ascending order: iteration over a BTreeSet. */
  ghost function SortedKeys(keys: set<string>): seq<string> {
    if keys == {} then [] else
      LeastExists(keys);
      var k :| IsLeast(k, keys);
      [k] + SortedKeys(keys - {k})
  }

  lemma {:induction false} SortedKeysAscend(keys: set<string>)
    ensures Ascending(SortedKeys(keys))
    ensures forall k :: k in SortedKeys(keys) <==> k in keys
    ensures |SortedKeys(keys)| == |keys|
  {
    if keys != {} {
      LeastExists(keys);
      var sorted := SortedKeys(keys);
      var k := sorted[0];
      assert sorted == [k] + SortedKeys(keys - {k}) && IsLeast(k, keys);
      SortedKeysAscend(keys - {k});
      forall i, j | 0 <= i < j < |sorted| ensures StringLess(sorted[i], sorted[j]) {
        if i == 0 {
          assert sorted[j] in SortedKeys(keys - {k});
        }
      }
    }
  }

  /** Ascending sequences with the same elements are the same sequence. */
  lemma {:induction false} AscendingUnique(a: seq<string>, b: seq<string>)
    requires Ascending(a) && Ascending(b)
    requires forall k :: k in a <==> k in b
    ensures a == b
  {
    if a == [] {
      if b != [] { FirstMember(b); }
    } else if b == [] {
      FirstMember(a);
    } else {
      FirstIsLeast(a, b[0]);
      FirstIsLeast(b, a[0]);
      CompareStringTotal(a[0], b[0], a[0]);
      assert a[0] == b[0];
      forall k ensures k in a[1..] <==> k in b[1..] {
        TailMembers(a, k);
        TailMembers(b, k);
      }
      AscendingUnique(a[1..], b[1..]);
      assert a == [a[0]] + a[1..] && b == [b[0]] + b[1..];
    }
  }

  lemma FirstMember(a: seq<string>)
    requires a != []
    ensures exists k :: k in a
  {
    assert a[0] in a;
  }

  lemma FirstIsLeast(a: seq<string>, k: string)
    requires Ascending(a) && k in a
    ensures k == a[0] || StringLess(a[0], k)
  {
    var i :| 0 <= i < |a| && a[i] == k;
  }

  lemma TailMembers(a: seq<string>, k: string)
    requires Ascending(a) && a != []
    ensures k in a[1..] <==> k in a && k != a[0]
  {
    if k in a[1..] {
      var i :| 0 <= i < |a[1..]| && a[1..][i] == k;
      assert StringLess(a[0], a[i + 1]);
      CompareStringTotal(a[0], k, k);
    }
  }

  method PickLeast(keys: set<string>) returns (k: string)
    requires keys != {}
    ensures IsLeast(k, keys)
  {
    LeastExists(keys);
    k :| k in keys && forall other :: other in keys && other != k ==> StringLess(k, other);
  }

  /** Draining a BTreeSet in order. */
  method SortKeySet(keys: set<string>) returns (sorted: seq<string>)
    ensures sorted == SortedKeys(keys)
  {
    sorted := [];
    var left := keys;
    assert [] + SortedKeys(keys) == SortedKeys(keys);
    while left != {}
      invariant sorted + SortedKeys(left) == SortedKeys(keys)
      decreases left
    {
      var k := PickLeast(left);
      LeastIsFirst(k, left);
      assert sorted + ([k] + SortedKeys(left - {k})) == (sorted + [k]) + SortedKeys(left - {k});
      sorted := sorted + [k];
      left := left - {k};
    }
    assert sorted + [] == sorted;
  }

  lemma LeastIsFirst(k: string, keys: set<string>)
    requires IsLeast(k, keys)
    ensures SortedKeys(keys) == [k] + SortedKeys(keys - {k})
  {
    var first := SortedKeys(keys)[0];
    if first != k {
      CompareStringTotal(k, first, k);
    }
  }
}
