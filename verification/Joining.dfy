/** Text joined with a separator, as group keys and migrated row keys are, and when the
    parts can be told back from it. */
module Joining {
  import opened Prelude

  function JoinText(parts: seq<string>, separator: char): string {
    if parts == [] then ""
    else if |parts| == 1 then parts[0]
    else parts[0] + [separator] + JoinText(parts[1..], separator)
  }

  predicate Free(parts: seq<string>, separator: char) {
    forall i :: 0 <= i < |parts| ==> separator !in parts[i]
  }

  /** No other tuple of the same length joins to the same text. */
  ghost predicate Identifies(parts: seq<string>, separator: char) {
    forall other: seq<string> :: |other| == |parts| && JoinText(other, separator) == JoinText(parts, separator)
                                 ==> other == parts
  }

  function Occurrences(s: string, c: char): nat {
    if s == [] then 0 else (if s[0] == c then 1 else 0) + Occurrences(s[1..], c)
  }

  lemma {:induction false} OccurrencesAppend(s: string, t: string, c: char)
    ensures Occurrences(s + t, c) == Occurrences(s, c) + Occurrences(t, c)
  {
    if s == [] {
      assert s + t == t;
    } else {
      assert (s + t)[1..] == s[1..] + t;
      OccurrencesAppend(s[1..], t, c);
    }
  }

  lemma {:induction false} NoOccurrences(s: string, c: char)
    ensures Occurrences(s, c) == 0 <==> c !in s
  {
    if s != [] {
      NoOccurrences(s[1..], c);
      assert forall x :: x in s <==> x == s[0] || x in s[1..];
    }
  }

  /** A join of n parts has n - 1 separators exactly when the parts have none. */
  lemma {:induction false} SeparatorCount(parts: seq<string>, c: char)
    requires parts != []
    ensures Occurrences(JoinText(parts, c), c) >= |parts| - 1
    ensures Occurrences(JoinText(parts, c), c) == |parts| - 1 <==> Free(parts, c)
  {
    NoOccurrences(parts[0], c);
    if |parts| > 1 {
      SeparatorCount(parts[1..], c);
      OccurrencesAppend(parts[0] + [c], JoinText(parts[1..], c), c);
      OccurrencesAppend(parts[0], [c], c);
      assert Occurrences([c], c) == 1 + Occurrences([], c);
      assert Free(parts, c) <==> c !in parts[0] && Free(parts[1..], c) by {
        if c !in parts[0] && Free(parts[1..], c) {
          forall i | 0 <= i < |parts| ensures c !in parts[i] {
            assert i > 0 ==> parts[i] == parts[1..][i - 1];
          }
        }
        if Free(parts, c) {
          forall i | 0 <= i < |parts[1..]| ensures c !in parts[1..][i] {
            assert parts[1..][i] == parts[i + 1];
          }
        }
      }
    }
  }

  lemma FirstSeparator(p: string, x: string, q: string, y: string, c: char)
    requires c !in p && c !in q && p + [c] + x == q + [c] + y
    ensures p == q && x == y
  {
    var left, right := p + [c] + x, q + [c] + y;
    assert left[|p|] == c && right[|q|] == c;
    assert forall i :: 0 <= i < |p| ==> left[i] == p[i] != c;
    assert forall i :: 0 <= i < |q| ==> right[i] == q[i] != c;
    assert |p| == |q|;
    assert left[..|p|] == p && right[..|p|] == q;
    assert left[|p| + 1..] == x && right[|q| + 1..] == y;
  }

  lemma {:induction false} FreePartsAgree(a: seq<string>, b: seq<string>, c: char)
    requires |a| == |b| && Free(a, c) && Free(b, c) && JoinText(a, c) == JoinText(b, c)
    ensures a == b
  {
    if |a| == 1 {
      assert a == [a[0]] && b == [b[0]];
    } else if |a| > 1 {
      FirstSeparator(a[0], JoinText(a[1..], c), b[0], JoinText(b[1..], c), c);
      FreePartsAgree(a[1..], b[1..], c);
      assert a == [a[0]] + a[1..] && b == [b[0]] + b[1..];
    }
  }

  /** Moving the boundary between two neighbours along a separator leaves the join as it was. */
  lemma {:induction false} ShiftBoundary(parts: seq<string>, j: nat, a: string, b: string, c: char)
    requires j + 1 < |parts| && a + [c] + b == parts[j] + [c] + parts[j + 1]
    ensures JoinText(parts[j := a][j + 1 := b], c) == JoinText(parts, c)
  {
    var other := parts[j := a][j + 1 := b];
    if j > 0 {
      assert other[1..] == parts[1..][j - 1 := a][j := b];
      ShiftBoundary(parts[1..], j - 1, a, b, c);
    } else if |parts| == 2 {
      assert other[1..] == [b] && parts[1..] == [parts[1]];
    } else {
      var rest := JoinText(parts[2..], c);
      assert other[1..][1..] == parts[2..] && parts[1..][1..] == parts[2..];
      assert JoinText(other, c) == a + [c] + (b + [c] + rest);
      assert JoinText(parts, c) == parts[0] + [c] + (parts[1] + [c] + rest);
      assert a + [c] + (b + [c] + rest) == (a + [c] + b) + [c] + rest;
      assert parts[0] + [c] + (parts[1] + [c] + rest) == (parts[0] + [c] + parts[1]) + [c] + rest;
    }
  }

  lemma FreeIdentifies(parts: seq<string>, other: seq<string>, c: char)
    requires |parts| <= 1 || Free(parts, c)
    requires |other| == |parts| && JoinText(other, c) == JoinText(parts, c)
    ensures other == parts
  {
    if |parts| == 1 {
      assert other == [other[0]] && parts == [parts[0]];
    } else if |parts| > 1 {
      SeparatorCount(parts, c);
      SeparatorCount(other, c);
      FreePartsAgree(other, parts, c);
    }
  }

  /** A separator inside a part leaves room for another tuple with the same join. */
  lemma SeparatorMoves(parts: seq<string>, i: nat, x: string, y: string, c: char)
    requires |parts| > 1 && i < |parts| && parts[i] == x + [c] + y
    ensures !Identifies(parts, c)
  {
    if i + 1 < |parts| {
      var longer := y + [c] + parts[i + 1];
      assert x + [c] + longer == parts[i] + [c] + parts[i + 1];
      ShiftBoundary(parts, i, x, longer, c);
      assert parts[i := x][i + 1 := longer][i] == x != parts[i];
    } else {
      var longer := parts[i - 1] + [c] + x;
      assert longer + [c] + y == parts[i - 1] + [c] + parts[i];
      ShiftBoundary(parts, i - 1, longer, y, c);
      assert parts[i - 1 := longer][i := y][i] == y != parts[i];
    }
  }

  /** A joined tuple can be told from every other one of its length exactly when it has at
      most one part or no part contains the separator. */
  lemma JoinIdentifiesExactly(parts: seq<string>, c: char)
    ensures Identifies(parts, c) <==> |parts| <= 1 || Free(parts, c)
  {
    if |parts| <= 1 || Free(parts, c) {
      forall other: seq<string> | |other| == |parts| && JoinText(other, c) == JoinText(parts, c)
        ensures other == parts
      {
        FreeIdentifies(parts, other, c);
      }
    } else {
      var i :| 0 <= i < |parts| && c in parts[i];
      var k :| 0 <= k < |parts[i]| && parts[i][k] == c;
      assert parts[i] == parts[i][..k] + [c] + parts[i][k + 1..];
      SeparatorMoves(parts, i, parts[i][..k], parts[i][k + 1..], c);
    }
  }
}
