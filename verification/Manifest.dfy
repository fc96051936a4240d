/** The archive's index: what is archived, what a restore needs, and what retention forgets. */
module ArchiveManifest {
  import opened Prelude

  type Content = seq<byte>

  datatype Digest = Digest(bytes: seq<byte>)

  datatype StoredRef = StoredRef(key: string, storedBytes: nat, checksum: Option<string>)

  datatype ArchivedSegment = ArchivedSegment(
    sequence: nat, digest: Digest, originalBytes: nat, stored: StoredRef, verifiedAtMs: int64)

  type Segments = map<nat, ArchivedSegment>

  datatype Retention = Forever | For(ms: int64)

  datatype RetentionError = NotTheOldest(asked: nat, oldest: nat) | Empty

  datatype RestoreGap = RestoreGap(missing: nat, through: nat)

  // ----- keys in order -----

  lemma {:induction false} LeastExists(keys: set<nat>)
    requires keys != {}
    ensures exists k :: k in keys && forall j :: j in keys ==> k <= j
  {
    var any :| any in keys;
    if keys != {any} {
      var rest := keys - {any};
      assert keys == rest + {any};
      LeastExists(rest);
      var k :| k in rest && forall j :: j in rest ==> k <= j;
      var least := Min(any, k);
      assert least in keys && forall j :: j in keys ==> least <= j;
    }
  }

  lemma {:induction false} GreatestExists(keys: set<nat>)
    requires keys != {}
    ensures exists k :: k in keys && forall j :: j in keys ==> j <= k
  {
    var any :| any in keys;
    if keys != {any} {
      var rest := keys - {any};
      assert keys == rest + {any};
      GreatestExists(rest);
      var k :| k in rest && forall j :: j in rest ==> j <= k;
      var greatest := Max(any, k);
      assert greatest in keys && forall j :: j in keys ==> j <= greatest;
    }
  }

  function Least(keys: set<nat>): (k: nat)
    requires keys != {}
    ensures k in keys && forall j :: j in keys ==> k <= j
  {
    LeastExists(keys);
    var k :| k in keys && forall j :: j in keys ==> k <= j;
    k
  }

  function Greatest(keys: set<nat>): (k: nat)
    requires keys != {}
    ensures k in keys && forall j :: j in keys ==> j <= k
  {
    GreatestExists(keys);
    var k :| k in keys && forall j :: j in keys ==> j <= k;
    k
  }

  /** The oldest segment still archived. */
  function Horizon(m: Segments): Option<nat> {
    if m.Keys == {} then None else Some(Least(m.Keys))
  }

  /** The highest sequence archived. */
  function Head(m: Segments): Option<nat> {
    if m.Keys == {} then None else Some(Greatest(m.Keys))
  }

  predicate StrictlyAscending(s: seq<nat>) {
    forall i, j :: 0 <= i < j < |s| ==> s[i] < s[j]
  }

  /** The order in which a BTreeMap iterates its keys. */
  function InOrder(keys: set<nat>): seq<nat> {
    if keys == {} then [] else [Least(keys)] + InOrder(keys - {Least(keys)})
  }

  lemma {:induction false} InOrderAscends(keys: set<nat>)
    ensures StrictlyAscending(InOrder(keys))
    ensures forall k :: k in InOrder(keys) <==> k in keys
    ensures |InOrder(keys)| == |keys|
  {
    if keys != {} {
      var rest := InOrder(keys - {Least(keys)});
      InOrderAscends(keys - {Least(keys)});
      forall i | 0 <= i < |rest| ensures Least(keys) < rest[i] {
        assert rest[i] in rest;
      }
    }
  }

  // ----- gaps and restore plans -----

  predicate IsGap(m: Segments, s: nat) {
    m != map[] && Horizon(m).value <= s <= Head(m).value && s !in m
  }

  /** Whether everything from zero is there. */
  predicate Whole(m: Segments, through: nat) {
    forall s :: 0 <= s <= through ==> s in m
  }

  /** Without gaps and with the horizon at zero, and only then, a restore to the head is possible. */
  lemma RestorableToHeadExactly(m: Segments)
    requires m != map[]
    ensures Whole(m, Head(m).value) <==> Horizon(m) == Some(0) && forall s :: !IsGap(m, s)
  {
    if Whole(m, Head(m).value) {
      assert 0 in m;
    }
    if Horizon(m) == Some(0) && forall s :: !IsGap(m, s) {
      forall s | 0 <= s <= Head(m).value ensures s in m {
        assert !IsGap(m, s);
      }
    }
  }

  /** Once anything at the bottom has expired, no restore is possible at all, gaps or none. */
  lemma ExpiryEndsRestores(m: Segments, through: nat)
    requires m != map[] && Horizon(m).value > 0
    ensures !Whole(m, through)
  {
    assert 0 !in m;
  }

  // ----- retention -----

  predicate ExpiredBy(r: Retention, verifiedAtMs: int64, nowMs: int64) {
    r.For? && Clamp64(nowMs - verifiedAtMs) >= r.ms
  }

  /** How many of the oldest segments have all aged out. */
  function AgedPrefix(keys: seq<nat>, m: Segments, r: Retention, nowMs: int64): (n: nat)
    requires forall k :: k in keys ==> k in m
    ensures n <= |keys|
    ensures forall i :: 0 <= i < n ==> ExpiredBy(r, m[keys[i]].verifiedAtMs, nowMs)
    ensures n < |keys| ==> !ExpiredBy(r, m[keys[n]].verifiedAtMs, nowMs)
  {
    if keys == [] || !ExpiredBy(r, m[keys[0]].verifiedAtMs, nowMs) then 0
    else 1 + AgedPrefix(keys[1..], m, r, nowMs)
  }

  /** The longest aged prefix, but never everything. */
  function ExpiredKeys(m: Segments, r: Retention, nowMs: int64): seq<nat> {
    InOrderAscends(m.Keys);
    var keys := InOrder(m.Keys);
    var n := AgedPrefix(keys, m, r, nowMs);
    if n == |keys| && n > 0 then keys[..n - 1] else keys[..n]
  }

  datatype Forgotten = Forgotten(left: Segments, result: Result<(), RetentionError>)

  /** `forget`: each sequence must be the oldest when its turn comes. */
  function Forget(m: Segments, sequences: seq<nat>): Forgotten {
    if sequences == [] then Forgotten(m, Ok(()))
    else if m == map[] then Forgotten(m, Err(Empty))
    else if Horizon(m).value != sequences[0] then Forgotten(m, Err(NotTheOldest(sequences[0], Horizon(m).value)))
    else Forget(m - {sequences[0]}, sequences[1..])
  }

  /** What is left is the upper part of what there was, entry for entry. */
  ghost predicate UpperPart(left: Segments, m: Segments) {
    && (forall k :: k in left ==> k in m && left[k] == m[k])
    && (forall k, j :: k in left && j in m && k <= j ==> j in left)
  }

  /** Whatever list is given, and even when it ends in an error, only a prefix is removed. */
  lemma {:induction false} ForgetLeavesUpperPart(m: Segments, sequences: seq<nat>)
    ensures UpperPart(Forget(m, sequences).left, m)
  {
    if sequences != [] && m != map[] && Horizon(m).value == sequences[0] {
      ForgetLeavesUpperPart(m - {sequences[0]}, sequences[1..]);
    }
  }

  /** Asked for a prefix of the keys in order, `forget` succeeds and removes exactly that. */
  lemma {:induction false} ForgetPrefixSucceeds(m: Segments, n: nat)
    requires n <= |InOrder(m.Keys)|
    ensures var f := Forget(m, InOrder(m.Keys)[..n]);
            f.result.Ok? && forall k :: k in f.left <==> k in InOrder(m.Keys)[n..]
    decreases n
  {
    var keys := InOrder(m.Keys);
    if n > 0 {
      var oldest := Least(m.Keys);
      var rest := m - {oldest};
      InOrderHead(m.Keys);
      assert rest.Keys == m.Keys - {oldest};
      SliceTail(keys, n);
      ForgetPrefixSucceeds(rest, n - 1);
    } else {
      InOrderAscends(m.Keys);
      assert keys[..0] == [] && keys[0..] == keys;
    }
  }

  lemma InOrderHead(keys: set<nat>)
    requires keys != {}
    ensures InOrder(keys) != [] && InOrder(keys)[0] == Least(keys)
    ensures InOrder(keys)[1..] == InOrder(keys - {Least(keys)})
  {}

  lemma SliceTail(keys: seq<nat>, n: nat)
    requires 0 < n <= |keys|
    ensures keys[..n] != [] && keys[..n][0] == keys[0]
    ensures keys[..n][1..] == keys[1..][..n - 1] && keys[n..] == keys[1..][n - 1..]
  {}

  lemma SuffixHolds(keys: seq<nat>, n: nat, i: nat)
    requires n <= |keys| && i < |keys|
    ensures n <= i ==> keys[i] in keys[n..]
  {
    if n <= i {
      assert keys[n..][i - n] == keys[i];
    }
  }

  lemma UpperPartRaisesHorizon(left: Segments, m: Segments)
    requires UpperPart(left, m) && left != map[]
    ensures m != map[] && Horizon(left).value >= Horizon(m).value && Head(left) == Head(m)
    ensures forall s :: IsGap(left, s) <==> IsGap(m, s) && Horizon(left).value <= s
  {
    assert Horizon(left).value in m;
    assert Head(m).value in left;
  }

  lemma ExpiryRemovesAPrefix(m: Segments, r: Retention, nowMs: int64)
    ensures var keys, n := InOrder(m.Keys), |ExpiredKeys(m, r, nowMs)|;
            && n <= |keys| && ExpiredKeys(m, r, nowMs) == keys[..n]
            && (keys != [] ==> n < |keys|)
            && (forall i :: 0 <= i < n ==> keys[i] in m && ExpiredBy(r, m[keys[i]].verifiedAtMs, nowMs))
  {
    InOrderAscends(m.Keys);
  }

  /** Expiry always succeeds, keeps the newest segment, never lowers the horizon, adds no gap,
      and forgets only what has aged out. */
  lemma ExpiryShortensFromTheFront(m: Segments, r: Retention, nowMs: int64)
    ensures var f := Forget(m, ExpiredKeys(m, r, nowMs));
            && f.result.Ok?
            && UpperPart(f.left, m)
            && (m != map[] ==> f.left != map[] && Horizon(f.left).value >= Horizon(m).value && Head(f.left) == Head(m))
            && (m != map[] ==> forall s :: IsGap(f.left, s) <==> IsGap(m, s) && Horizon(f.left).value <= s)
            && (forall k :: k in m && k !in f.left ==> ExpiredBy(r, m[k].verifiedAtMs, nowMs))
  {
    var keys, n := InOrder(m.Keys), |ExpiredKeys(m, r, nowMs)|;
    InOrderAscends(m.Keys);
    ExpiryRemovesAPrefix(m, r, nowMs);
    ForgetPrefixSucceeds(m, n);
    ForgetLeavesUpperPart(m, keys[..n]);
    var left := Forget(m, keys[..n]).left;
    if m != map[] {
      NewestSurvives(m, left, keys, n);
      UpperPartRaisesHorizon(left, m);
    }
    forall k | k in m && k !in left ensures ExpiredBy(r, m[k].verifiedAtMs, nowMs) {
      var i :| 0 <= i < |keys| && keys[i] == k;
      SuffixHolds(keys, n, i);
    }
  }

  lemma NewestSurvives(m: Segments, left: Segments, keys: seq<nat>, n: nat)
    requires m != map[] && keys == InOrder(m.Keys) && n < |keys|
    requires forall k :: k in left <==> k in keys[n..]
    ensures left != map[]
  {
    assert keys[n..][0] in left;
  }

  /** A segment still within the window stops expiry, however old the ones after it are. */
  lemma RetainedStopsExpiry(m: Segments, r: Retention, nowMs: int64, k: nat, later: nat)
    requires k in m && later in m && k <= later && !ExpiredBy(r, m[k].verifiedAtMs, nowMs)
    ensures later in Forget(m, ExpiredKeys(m, r, nowMs)).left
  {
    ExpiryShortensFromTheFront(m, r, nowMs);
  }

  /** The proof of a segment is at least a window old; no sum saturates here. */
  predicate Aged(r: Retention, verifiedAtMs: int64, nowMs: int64) {
    r.For? && (r.ms == I64_MIN || verifiedAtMs + r.ms <= nowMs)
  }

  lemma AgedExactly(r: Retention, verifiedAtMs: int64, nowMs: int64)
    ensures ExpiredBy(r, verifiedAtMs, nowMs) <==> Aged(r, verifiedAtMs, nowMs)
  {}

  lemma SuffixExactly(keys: seq<nat>, n: nat, i: nat)
    requires n <= |keys| && i < |keys| && StrictlyAscending(keys)
    ensures keys[i] in keys[n..] <==> n <= i
  {
    SuffixHolds(keys, n, i);
  }

  lemma LastIsHead(m: Segments, keys: seq<nat>)
    requires m != map[] && StrictlyAscending(keys) && forall k :: k in keys <==> k in m
    ensures keys != [] && keys[|keys| - 1] == Head(m).value
  {
    var i :| 0 <= i < |keys| && keys[i] == Head(m).value;
    assert keys[|keys| - 1] in m;
  }

  /** A segment is in the aged prefix exactly when it and all below it have aged out. */
  lemma InAgedPrefixExactly(m: Segments, keys: seq<nat>, r: Retention, nowMs: int64, i: nat)
    requires StrictlyAscending(keys) && (forall k :: k in keys <==> k in m) && i < |keys|
    ensures i < AgedPrefix(keys, m, r, nowMs)
            <==> forall j :: j in m && j <= keys[i] ==> Aged(r, m[j].verifiedAtMs, nowMs)
  {
    var n := AgedPrefix(keys, m, r, nowMs);
    if i < n {
      forall j | j in m && j <= keys[i] ensures Aged(r, m[j].verifiedAtMs, nowMs) {
        var at :| 0 <= at < |keys| && keys[at] == j;
        AgedExactly(r, m[keys[at]].verifiedAtMs, nowMs);
      }
    } else {
      assert keys[n] in m && keys[n] <= keys[i];
      AgedExactly(r, m[keys[n]].verifiedAtMs, nowMs);
    }
  }

  lemma ForgottenByPosition(m: Segments, r: Retention, nowMs: int64, i: nat)
    requires i < |InOrder(m.Keys)|
    ensures forall k :: k in InOrder(m.Keys) <==> k in m
    ensures InOrder(m.Keys)[i] !in Forget(m, ExpiredKeys(m, r, nowMs)).left
            <==> i < AgedPrefix(InOrder(m.Keys), m, r, nowMs) && i < |InOrder(m.Keys)| - 1
  {
    var keys, n := InOrder(m.Keys), |ExpiredKeys(m, r, nowMs)|;
    InOrderAscends(m.Keys);
    ExpiryRemovesAPrefix(m, r, nowMs);
    ForgetPrefixSucceeds(m, n);
    SuffixExactly(keys, n, i);
  }

  lemma PositionOf(m: Segments, keys: seq<nat>, k: nat) returns (i: nat)
    requires k in m && keys == InOrder(m.Keys)
    ensures i < |keys| && keys[i] == k && StrictlyAscending(keys)
    ensures forall j :: j in keys <==> j in m
    ensures k < Head(m).value <==> i < |keys| - 1
  {
    InOrderAscends(m.Keys);
    i :| 0 <= i < |keys| && keys[i] == k;
    LastIsHead(m, keys);
  }

  /** Expiry forgets a segment exactly when its proof and those of all segments below it are a window
      old, and it is not the newest. */
  lemma ForgottenExactly(m: Segments, r: Retention, nowMs: int64, k: nat)
    requires k in m
    ensures k !in Forget(m, ExpiredKeys(m, r, nowMs)).left
            <==> k < Head(m).value && forall j :: j in m && j <= k ==> Aged(r, m[j].verifiedAtMs, nowMs)
  {
    var i := PositionOf(m, InOrder(m.Keys), k);
    ForgottenByPosition(m, r, nowMs, i);
    InAgedPrefixExactly(m, InOrder(m.Keys), r, nowMs, i);
  }

  // ----- the manifest itself -----

  method AgedOut(keys: seq<nat>, m: Segments, r: Retention, nowMs: int64) returns (out: seq<nat>)
    requires forall k :: k in keys ==> k in m
    ensures out == keys[..AgedPrefix(keys, m, r, nowMs)]
  {
    out := [];
    var i := 0;
    assert keys[0..] == keys;
    while i < |keys|
      invariant 0 <= i <= |keys| && out == keys[..i]
      invariant AgedPrefix(keys, m, r, nowMs) == i + AgedPrefix(keys[i..], m, r, nowMs)
    {
      assert keys[i..][0] == keys[i] && keys[i..][1..] == keys[i + 1..];
      if !ExpiredBy(r, m[keys[i]].verifiedAtMs, nowMs) {
        break;
      }
      out := out + [keys[i]];
      i := i + 1;
    }
  }

  class Manifest {
    const projectId: string
    var segments: Segments

    constructor (projectId: string)
      ensures this.projectId == projectId && segments == map[]
    {
      this.projectId, segments := projectId, map[];
    }

    method Record(segment: ArchivedSegment)
      modifies this
      ensures segments == old(segments)[segment.sequence := segment]
    {
      segments := segments[segment.sequence := segment];
    }

    /** Segments zero to `through` in order, or the first one missing. */
    method RestorePlan(through: nat) returns (plan: Result<seq<ArchivedSegment>, RestoreGap>)
      ensures plan.Ok? <==> Whole(segments, through)
      ensures plan.Ok? ==> |plan.value| == through + 1
                           && forall s :: 0 <= s <= through ==> s in segments && plan.value[s] == segments[s]
      ensures plan.Err? ==> plan.error.through == through && plan.error.missing <= through
                            && plan.error.missing !in segments
                            && forall s :: 0 <= s < plan.error.missing ==> s in segments
    {
      var out: seq<ArchivedSegment> := [];
      for sequence := 0 to through + 1
        invariant |out| == sequence
        invariant forall s :: 0 <= s < sequence ==> s in segments && out[s] == segments[s]
      {
        if sequence !in segments {
          return Err(RestoreGap(sequence, through));
        }
        out := out + [segments[sequence]];
      }
      plan := Ok(out);
    }

    /** Every sequence missing between the horizon and the head, in order. */
    method Gaps() returns (gaps: seq<nat>)
      ensures StrictlyAscending(gaps)
      ensures forall s :: s in gaps <==> IsGap(segments, s)
    {
      gaps := [];
      var horizon, head := Horizon(segments), Head(segments);
      if horizon.None? {
        return;
      }
      for s := horizon.value to head.value + 1
        invariant StrictlyAscending(gaps)
        invariant forall g: nat :: g in gaps <==> IsGap(segments, g) && g < s
        invariant forall i :: 0 <= i < |gaps| ==> gaps[i] < s
      {
        if s !in segments {
          gaps := gaps + [s];
        }
      }
    }

    /** The aged prefix, oldest first. */
    method Expired(r: Retention, nowMs: int64) returns (out: seq<nat>)
      ensures out == ExpiredKeys(segments, r, nowMs)
    {
      var m := segments;
      var keys := InOrder(m.Keys);
      InOrderAscends(m.Keys);
      out := AgedOut(keys, m, r, nowMs);
      // Never everything.
      if |out| == |keys| && |out| > 0 {
        out := out[..|out| - 1];
      }
    }

    method ForgetAll(sequences: seq<nat>) returns (r: Result<(), RetentionError>)
      modifies this
      ensures segments == Forget(old(segments), sequences).left && r == Forget(old(segments), sequences).result
    {
      assert sequences[0..] == sequences;
      for i := 0 to |sequences|
        invariant Forget(old(segments), sequences) == Forget(segments, sequences[i..])
      {
        assert sequences[i..][0] == sequences[i] && sequences[i..][1..] == sequences[i + 1..];
        var oldest := Horizon(segments);
        if oldest.None? {
          return Err(Empty);
        }
        if oldest.value != sequences[i] {
          return Err(NotTheOldest(sequences[i], oldest.value));
        }
        segments := segments - {sequences[i]};
      }
      r := Ok(());
    }
  }
}
