/** Restore drills: what a drill reports about an archive, and what its report does not say. */
module Drill {
  import opened Prelude
  import opened ArchiveManifest
  import Custody
  import CustodyRuns

  datatype Depth = Everything | Newest(n: nat)

  datatype Outcome = Passed | GapsFound | Failed(segment: nat, detail: string)

  datatype DrillResult = DrillResult(
    startedAtMs: int64, finishedAtMs: int64, depth: Depth, segmentsRestored: nat, segmentsInManifest: nat,
    bytesRestored: nat, gaps: seq<nat>, outcome: Outcome)
  {
    /** Whether the drill covered the whole archive. */
    predicate CoveredEverything() {
      segmentsRestored == segmentsInManifest
    }
  }

  /** What the world does with one fetch: the archive's answer, and the length of the file it left, if any. */
  datatype Answer = Answer(fetch: Result<(), string>, landed: Option<nat>)

  function Landed(a: Answer): nat {
    if a.landed.Some? then a.landed.value else 0
  }

  predicate Intact(m: Segments, k: nat, answer: Answer)
    requires k in m
  {
    answer.fetch.Ok? && Landed(answer) == m[k].originalBytes
  }

  function OriginalBytes(m: Segments, keys: seq<nat>): nat
    requires forall k :: k in keys ==> k in m
  {
    if keys == [] then 0 else OriginalBytes(m, keys[..|keys| - 1]) + m[keys[|keys| - 1]].originalBytes
  }

  ghost predicate NoGaps(m: Segments) {
    forall s: nat :: !IsGap(m, s)
  }

  /** Every archived sequence, oldest first. */
  function Archive(m: Segments): (keys: seq<nat>)
    ensures |keys| == |m| && forall k :: k in keys <==> k in m
  {
    InOrderAscends(m.Keys);
    assert |m.Keys| == |m|;
    InOrder(m.Keys)
  }

  /** The segments a drill looks at. */
  function Covered(m: Segments, depth: Depth): (keys: seq<nat>)
    ensures forall k :: k in keys ==> k in m
  {
    var all := Archive(m);
    if depth.Newest? && depth.n < |all| then all[|all| - depth.n..] else all
  }

  /** How far a walk over some segments came, and how it ended. */
  ghost predicate Walked(m: Segments, keys: seq<nat>, answers: nat -> Answer, restored: nat, bytes: nat,
                         outcome: Outcome)
    requires forall k :: k in keys ==> k in m
  {
    && restored <= |keys|
    && bytes == OriginalBytes(m, keys[..restored])
    && !outcome.GapsFound?
    && (forall i :: 0 <= i < restored ==> Intact(m, keys[i], answers(keys[i])))
    && (outcome.Passed? ==> restored == |keys|)
    && (outcome.Failed? ==> restored < |keys| && outcome.segment == keys[restored]
                            && !Intact(m, keys[restored], answers(keys[restored])))
  }

  /** Everything a result says of the archive it was taken from. */
  ghost predicate Reports(r: DrillResult, m: Segments, depth: Depth, answers: nat -> Answer) {
    && r.depth == depth
    && r.segmentsInManifest == |m|
    && StrictlyAscending(r.gaps)
    && (forall s: nat :: s in r.gaps <==> IsGap(m, s))
    && (r.outcome.GapsFound? <==> !NoGaps(m))
    && (if r.outcome.GapsFound? then r.segmentsRestored == r.bytesRestored == 0
        else Walked(m, Covered(m, depth), answers, r.segmentsRestored, r.bytesRestored, r.outcome))
  }

  /** One fetch a segment, stopping at the first that does not come back. */
  method Walk(m: Segments, segments: seq<nat>, answers: nat -> Answer)
    returns (restored: nat, bytesRestored: nat, outcome: Outcome)
    requires forall k :: k in segments ==> k in m
    ensures Walked(m, segments, answers, restored, bytesRestored, outcome)
  {
    bytesRestored, restored := 0, 0;
    while restored < |segments|
      invariant restored <= |segments| && bytesRestored == OriginalBytes(m, segments[..restored])
      invariant forall j :: 0 <= j < restored ==> Intact(m, segments[j], answers(segments[j]))
    {
      var segment := segments[restored];
      var answer := answers(segment);
      if answer.fetch.Err? {
        return restored, bytesRestored, Failed(segment, answer.fetch.error);
      }
      // Only the length is compared.
      var landed := Landed(answer);
      if landed != m[segment].originalBytes {
        return restored, bytesRestored, Failed(segment, "the restored length differs from the recorded one");
      }
      assert segments[..restored + 1][..restored] == segments[..restored];
      bytesRestored := bytesRestored + landed;
      restored := restored + 1;
    }
    outcome := Passed;
  }

  /** Run a drill: gaps first, then the fetches. */
  method Run(manifest: Manifest, depth: Depth, answers: nat -> Answer, nowMs: int64) returns (r: DrillResult)
    ensures Reports(r, manifest.segments, depth, answers)
    ensures r.startedAtMs == nowMs == r.finishedAtMs
  {
    var total := |manifest.segments|;
    var gaps := manifest.Gaps();
    if gaps != [] {
      assert IsGap(manifest.segments, gaps[0]);
      return DrillResult(nowMs, nowMs, depth, 0, total, 0, gaps, GapsFound);
    }
    var segments := Archive(manifest.segments);
    if depth.Newest? {
      var skip := if |segments| < depth.n then 0 else |segments| - depth.n;
      segments := segments[skip..];
    }
    assert segments == Covered(manifest.segments, depth);
    var restored, bytesRestored, outcome := Walk(manifest.segments, segments, answers);
    r := DrillResult(nowMs, nowMs, depth, restored, total, bytesRestored, [], outcome);
  }

  // ----- what a pass means -----

  /** The fetch succeeded and left a file of the recorded length; an empty segment needs no file. */
  predicate CameBack(segment: ArchivedSegment, answer: Answer) {
    answer.fetch.Ok?
    && (answer.landed == Some(segment.originalBytes) || (answer.landed.None? && segment.originalBytes == 0))
  }

  /** A drill passes and covers everything exactly when nothing is missing between horizon and
      head, its depth reaches the whole manifest, and every segment came back at its recorded length. */
  lemma FullPassExactly(r: DrillResult, m: Segments, depth: Depth, answers: nat -> Answer)
    requires Reports(r, m, depth, answers)
    ensures r.outcome.Passed? && r.CoveredEverything()
            <==> NoGaps(m) && (depth.Everything? || depth.n >= |m|) && forall k :: k in m ==> CameBack(m[k], answers(k))
    ensures r.outcome.Passed? && r.CoveredEverything() ==> r.bytesRestored == OriginalBytes(m, Archive(m))
  {
    var all, keys := Archive(m), Covered(m, depth);
    if r.outcome.Passed? && r.CoveredEverything() {
      assert keys == all && keys[..r.segmentsRestored] == all;
      forall k | k in m ensures CameBack(m[k], answers(k)) {
        var i :| 0 <= i < |all| && all[i] == k;
        assert Intact(m, k, answers(k));
      }
    }
    if r.outcome.Failed? {
      assert r.outcome.segment in keys;
      assert !CameBack(m[r.outcome.segment], answers(r.outcome.segment));
    }
  }

  lemma LastOfAscending(keys: seq<nat>)
    requires keys != [] && StrictlyAscending(keys)
    ensures var before, last := keys[..|keys| - 1], keys[|keys| - 1];
            StrictlyAscending(before) && last !in before && forall k :: k in keys <==> k in before || k == last
  {
    assert keys == keys[..|keys| - 1] + [keys[|keys| - 1]];
  }

  lemma {:induction false} BytesAreOccupied(m: Segments, keys: seq<nat>, contents: map<nat, Content>)
    requires StrictlyAscending(keys) && forall k :: k in keys <==> k in contents
    requires forall k :: k in contents ==> k in m && m[k].originalBytes == |contents[k]|
    ensures OriginalBytes(m, keys) == CustodyRuns.Occupied(contents)
  {
    if keys == [] {
      assert contents == map[];
    } else {
      LastOfAscending(keys);
      CustodyRuns.OccupiedWithout(contents, keys[|keys| - 1]);
      BytesAreOccupied(m, keys[..|keys| - 1], contents - {keys[|keys| - 1]});
    }
  }

  /** A full pass, after any run, reports as many bytes as were sealed in the archived segments. */
  lemma FullPassCountsSealedBytes(r: DrillResult, s: CustodyRuns.System, hash: Custody.Hash, depth: Depth,
                                  answers: nat -> Answer)
    requires CustodyRuns.Safe(s, hash) && Reports(r, s.segments, depth, answers)
    requires r.outcome.Passed? && r.CoveredEverything()
    ensures forall k :: k in s.segments ==> k in s.sealed
    ensures r.bytesRestored == CustodyRuns.Occupied(map k | k in s.segments :: s.sealed[k])
  {
    FullPassExactly(r, s.segments, depth, answers);
    InOrderAscends(s.segments.Keys);
    BytesAreOccupied(s.segments, Archive(s.segments), map k | k in s.segments :: s.sealed[k]);
  }

  /** After a full pass a restore to the head can be planned exactly when nothing has ever expired
      from the bottom: the report of a full pass is the same either way. */
  lemma FullPassRestoresExactly(r: DrillResult, m: Segments, depth: Depth, answers: nat -> Answer)
    requires Reports(r, m, depth, answers) && m != map[]
    requires r.outcome.Passed? && r.CoveredEverything()
    ensures Whole(m, Head(m).value) <==> Horizon(m) == Some(0)
    ensures Horizon(m) != Some(0) ==> forall through: nat :: !Whole(m, through)
  {
    RestorableToHeadExactly(m);
    forall through: nat | Horizon(m) != Some(0) ensures !Whole(m, through) {
      ExpiryEndsRestores(m, through);
    }
  }

  /** An archive that answers every fetch with given bytes. */
  function Serving(contents: seq<Content>): nat -> Answer {
    (k: nat) => if k < |contents| then Answer(Ok(()), Some(|contents[k]|)) else Answer(Err("no such object"), None)
  }

  function Fetched(contents: seq<Content>): seq<Result<Content, string>> {
    seq(|contents|, i requires 0 <= i < |contents| => Ok(contents[i]))
  }

  /** A manifest that can be restored, and an archive that serves something for each segment of
      it: intact or not, but nothing forged to have the digest of what was sealed. */
  ghost predicate Serves(s: CustodyRuns.System, hash: Custody.Hash, contents: seq<Content>) {
    && CustodyRuns.Safe(s, hash)
    && (forall k: nat :: k < |contents| && k in s.sealed ==> !CustodyRuns.Collide(hash, contents[k], s.sealed[k]))
    && s.segments != map[] && Whole(s.segments, Head(s.segments).value)
    && |contents| == Head(s.segments).value + 1
  }

  lemma ServedSegments(s: CustodyRuns.System, hash: Custody.Hash, contents: seq<Content>)
    requires Serves(s, hash, contents)
    ensures forall k: nat :: k in s.segments <==> k < |contents|
    ensures forall k: nat :: k < |contents| ==>
            k in s.sealed && CustodyRuns.Describes(s.segments[k], k, s.sealed[k], hash)
  {}

  lemma DrillByLength(s: CustodyRuns.System, hash: Custody.Hash, contents: seq<Content>, r: DrillResult)
    requires Serves(s, hash, contents) && Reports(r, s.segments, Everything, Serving(contents))
    ensures forall k: nat :: k < |contents| ==> k in s.sealed
    ensures r.outcome.Passed? && r.CoveredEverything()
            <==> forall k: nat :: k < |contents| ==> |contents[k]| == |s.sealed[k]|
  {
    ServedSegments(s, hash, contents);
    RestorableToHeadExactly(s.segments);
    FullPassExactly(r, s.segments, Everything, Serving(contents));
    forall k: nat | k < |contents|
      ensures CameBack(s.segments[k], Serving(contents)(k)) <==> |contents[k]| == |s.sealed[k]|
    {}
  }

  lemma RestoreByDigest(s: CustodyRuns.System, hash: Custody.Hash, contents: seq<Content>)
    requires Serves(s, hash, contents)
    ensures forall k: nat :: k < |contents| ==> k in s.sealed
    ensures Custody.RestoreOf(s.segments, Head(s.segments).value, Ok(()), Fetched(contents), hash).Ok?
            <==> forall k: nat :: k < |contents| ==> contents[k] == s.sealed[k]
  {
    ServedSegments(s, hash, contents);
    var fetched := Fetched(contents);
    Custody.RestoreIsAllOrError(s.segments, Head(s.segments).value, Ok(()), fetched, hash);
    forall k: nat | k < |contents|
      ensures fetched[k].Ok? && (hash(fetched[k].value) == s.segments[k].digest <==> contents[k] == s.sealed[k])
    {}
  }

  /** Where a restore of what the archive now serves succeeds, a drill passes; where a drill
      passes, a restore succeeds exactly when the bytes, whose length is all the drill looks at, agree. */
  lemma DrillAgainstRestore(s: CustodyRuns.System, hash: Custody.Hash, contents: seq<Content>, r: DrillResult)
    requires Serves(s, hash, contents) && Reports(r, s.segments, Everything, Serving(contents))
    ensures forall k: nat :: k < |contents| ==> k in s.sealed
    ensures var restore := Custody.RestoreOf(s.segments, Head(s.segments).value, Ok(()), Fetched(contents), hash);
            var passed := r.outcome.Passed? && r.CoveredEverything();
            && (restore.Ok? ==> passed)
            && (passed && restore.Err? <==> && (forall k: nat :: k < |contents| ==> |contents[k]| == |s.sealed[k]|)
                                            && (exists k: nat :: k < |contents| && contents[k] != s.sealed[k]))
  {
    DrillByLength(s, hash, contents, r);
    RestoreByDigest(s, hash, contents);
  }

  /** Such an archive: one sealed byte that has changed since. */
  lemma SameLengthRotPasses(s: CustodyRuns.System, hash: Custody.Hash, r: DrillResult)
    requires s.sealed == map[0 := [7]] && Serves(s, hash, [[8]])
    requires Reports(r, s.segments, Everything, Serving([[8]]))
    ensures r.outcome.Passed? && r.CoveredEverything()
    ensures Custody.RestoreOf(s.segments, 0, Ok(()), Fetched([[8]]), hash).Err?
  {
    DrillAgainstRestore(s, hash, [[8]], r);
    assert [[8]][0] != s.sealed[0];
  }

  // ----- the log of drills -----

  predicate Counts(r: DrillResult, full: bool) {
    r.outcome.Passed? && (full ==> r.CoveredEverything())
  }

  /** When a counted drill last finished: the maximum over the log, whatever order it is in. */
  function LastPass(results: seq<DrillResult>, full: bool): (last: Option<int64>)
    ensures last.None? <==> forall i :: 0 <= i < |results| ==> !Counts(results[i], full)
    ensures last.Some? ==>
              exists i :: 0 <= i < |results| && Counts(results[i], full) && results[i].finishedAtMs == last.value
    ensures forall i :: 0 <= i < |results| && Counts(results[i], full) ==>
            last.Some? && results[i].finishedAtMs <= last.value
  {
    if results == [] then None
    else
      var n := |results| - 1;
      var earlier := LastPass(results[..n], full);
      assert forall i :: 0 <= i < n ==> results[..n][i] == results[i];
      if !Counts(results[n], full) then earlier
      else if earlier.None? then Some(results[n].finishedAtMs)
      else Some(Max(earlier.value, results[n].finishedAtMs))
  }

  predicate Stale(results: seq<DrillResult>, maxAgeMs: int64, nowMs: int64) {
    match LastPass(results, false)
    case None => true
    case Some(last) => Clamp64(nowMs - last) > maxAgeMs
  }

  /** Drills are stale exactly when no pass on record is within the allowed age. */
  lemma StaleExactly(results: seq<DrillResult>, maxAgeMs: int64, nowMs: int64)
    ensures Stale(results, maxAgeMs, nowMs)
            <==> forall i :: 0 <= i < |results| && results[i].outcome.Passed? ==>
                   Clamp64(nowMs - results[i].finishedAtMs) > maxAgeMs
  {
    var last := LastPass(results, false);
    if last.Some? {
      var i :| 0 <= i < |results| && Counts(results[i], false) && results[i].finishedAtMs == last.value;
      assert Clamp64(nowMs - results[i].finishedAtMs) == Clamp64(nowMs - last.value);
      forall j | 0 <= j < |results| && results[j].outcome.Passed?
        ensures Clamp64(nowMs - results[j].finishedAtMs) >= Clamp64(nowMs - last.value)
      {
        assert Counts(results[j], false);
      }
    } else {
      forall j | 0 <= j < |results| ensures !results[j].outcome.Passed? {
        assert !Counts(results[j], false);
      }
    }
  }

  class DrillLog {
    var results: seq<DrillResult>

    constructor ()
      ensures results == []
    {
      results := [];
    }

    /** Passed or failed, every drill is kept; recording one never takes a date back. */
    method Record(result: DrillResult)
      modifies this
      ensures results == old(results) + [result]
      ensures forall full: bool :: LastPass(old(results), full).Some? ==>
                LastPass(results, full).Some? && LastPass(results, full).value >= LastPass(old(results), full).value
      ensures forall full: bool :: !Counts(result, full) ==> LastPass(results, full) == LastPass(old(results), full)
    {
      results := results + [result];
      assert results[..|results| - 1] == old(results);
    }
  }
}
