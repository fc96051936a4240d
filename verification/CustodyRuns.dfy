/** Custody over every run: whatever the archive answers, no sealed segment is lost. */
module CustodyRuns {
  import opened Prelude
  import opened ArchiveManifest
  import opened Custody

  /** The local log and the manifest, with their history: every segment ever sealed, those
      retention has forgotten, and those some fetch has returned byte for byte. */
  datatype System = System(
    log: Log, segments: Segments, sealed: map<nat, Content>, forgotten: set<nat>, proved: set<nat>)

  const INITIAL := System(Log(map[], 0), map[], map[], {}, {})

  datatype Event =
    | Seal(sequence: nat, content: Content)
    | Checkpoint(position: nat)
    | Sweep(paths: seq<Option<nat>>, replies: seq<Reply>, nowMs: int64, release: bool)
    | Expire(retention: Retention, nowMs: int64)

  /** A read of a local segment returns its bytes or fails; everything else is up to the archive. */
  predicate FaithfulReads(log: Log, paths: seq<Option<nat>>, replies: seq<Reply>)
    requires |replies| == |paths|
  {
    forall i :: 0 <= i < |paths| && paths[i].Some? && replies[i].read.Ok? ==>
      paths[i].value in log.local && replies[i].read.value == log.local[paths[i].value]
  }

  predicate Allowed(s: System, e: Event) {
    match e
    case Seal(sequence, _) => sequence !in s.sealed
    case Checkpoint(_) => true
    case Sweep(paths, replies, _, _) => |replies| == |paths| && FaithfulReads(s.log, paths, replies)
    case Expire(_, _) => true
  }

  /** This path is taken round the archive, and comes back with the digest of what was sealed. */
  predicate RoundTrip(p: Progress, path: Option<nat>, reply: Reply, sealed: map<nat, Content>, hash: Hash) {
    && path.Some? && path.value in sealed && path.value !in p.segments
    && reply.read.Ok? && reply.store.Ok? && Proves(reply, hash(sealed[path.value]), hash)
  }

  /** The segments a sweep takes round the archive and back, up to where it stops. */
  function ProvedBy(p: Progress, paths: seq<Option<nat>>, replies: seq<Reply>, nowMs: int64, release: bool,
                    sealed: map<nat, Content>, hash: Hash): set<nat>
    requires |replies| == |paths|
    decreases |paths|
  {
    if paths == [] then {}
    else
      var (next, goOn) := TickOne(p, paths[0], replies[0], nowMs, release, hash);
      (if RoundTrip(p, paths[0], replies[0], sealed, hash) then {paths[0].value} else {})
      + (if goOn then ProvedBy(next, paths[1..], replies[1..], nowMs, release, sealed, hash) else {})
  }

  ghost function Step(s: System, e: Event, hash: Hash): System
    requires Allowed(s, e)
  {
    match e
    case Seal(sequence, content) =>
      s.(log := s.log.(local := s.log.local[sequence := content]), sealed := s.sealed[sequence := content])
    case Checkpoint(position) => s.(log := s.log.(checkpoint := position))
    case Sweep(paths, replies, nowMs, release) =>
      var start := Progress(s.log, s.segments, EMPTY_REPORT);
      var p := TickAll(start, paths, replies, nowMs, release, hash);
      s.(log := p.log, segments := p.segments,
         proved := s.proved + ProvedBy(start, paths, replies, nowMs, release, s.sealed, hash))
    case Expire(retention, nowMs) =>
      var f := Forget(s.segments, ExpiredKeys(s.segments, retention, nowMs));
      s.(segments := f.left, forgotten := s.forgotten + set k | k in s.segments && k !in f.left)
  }

  ghost predicate AllowedRun(s: System, events: seq<Event>, hash: Hash)
    decreases |events|, 0
  {
    events != [] ==>
      var before, last := events[..|events| - 1], events[|events| - 1];
      AllowedRun(s, before, hash) && Allowed(Run(s, before, hash), last)
  }

  ghost function Run(s: System, events: seq<Event>, hash: Hash): System
    requires AllowedRun(s, events, hash)
    decreases |events|, 1
  {
    if events == [] then s else Step(Run(s, events[..|events| - 1], hash), events[|events| - 1], hash)
  }

  // ----- the invariant -----

  /** A manifest entry describes the bytes that were sealed. */
  predicate Describes(entry: ArchivedSegment, sequence: nat, content: Content, hash: Hash) {
    entry.sequence == sequence && entry.digest == hash(content) && entry.originalBytes == |content|
  }

  ghost predicate Honest(log: Log, segments: Segments, sealed: map<nat, Content>, hash: Hash) {
    && (forall k :: k in log.local ==> k in sealed && log.local[k] == sealed[k])
    && (forall k :: k in segments ==> k in sealed && Describes(segments[k], k, sealed[k], hash))
  }

  /** Nothing sealed is lost, and nothing has left the local log without a proved round trip. */
  ghost predicate Safe(s: System, hash: Hash) {
    && Honest(s.log, s.segments, s.sealed, hash)
    && (forall k :: k in s.sealed ==> k in s.log.local || k in s.segments || k in s.forgotten)
    && (forall k :: k in s.segments ==> k in s.proved)
    && (forall k :: k in s.sealed && k !in s.log.local ==> k in s.proved)
    && (forall k :: k in s.forgotten ==> k in s.sealed && k in s.proved)
  }

  lemma ReleaseOneKeeps(p: Progress, k: nat, reply: Reply, release: bool, sealed: map<nat, Content>, hash: Hash)
    requires Honest(p.log, p.segments, sealed, hash) && k in p.segments
    ensures var next := ReleaseOne(p, k, reply, release);
            && Honest(next.log, next.segments, sealed, hash) && next.segments == p.segments
            && (forall j :: j in next.log.local ==> j in p.log.local)
            && (forall j :: j in p.log.local && j !in next.log.local ==> j == k)
  {}

  lemma RecordedKeeps(p: Progress, k: nat, reply: Reply, nowMs: int64, sealed: map<nat, Content>, hash: Hash)
    requires Honest(p.log, p.segments, sealed, hash)
    requires reply.read.Ok? ==> k in sealed && reply.read.value == sealed[k]
    ensures var segments := Recorded(p.segments, k, reply, nowMs, hash);
            && Honest(p.log, segments, sealed, hash)
            && (forall j :: j in p.segments ==> j in segments && segments[j] == p.segments[j])
            && (forall j :: j in segments && j !in p.segments ==> j == k && RoundTrip(p, Some(k), reply, sealed, hash))
  {}

  /** What one path of a sweep may do: shrink the local log by what the manifest holds, and grow
      the manifest by what was just proved. */
  lemma TickOneKeeps(p: Progress, path: Option<nat>, reply: Reply, nowMs: int64, release: bool,
                     sealed: map<nat, Content>, hash: Hash)
    requires Honest(p.log, p.segments, sealed, hash)
    requires path.Some? && reply.read.Ok? ==> path.value in sealed && reply.read.value == sealed[path.value]
    ensures var next := TickOne(p, path, reply, nowMs, release, hash).0;
            && Honest(next.log, next.segments, sealed, hash)
            && (forall k :: k in p.segments ==> k in next.segments && next.segments[k] == p.segments[k])
            && (forall k :: k in next.log.local ==> k in p.log.local)
            && (forall k :: k in p.log.local && k !in next.log.local ==> k in next.segments && path == Some(k))
            && (forall k :: k in next.segments && k !in p.segments ==>
                  path == Some(k) && RoundTrip(p, path, reply, sealed, hash))
  {
    if path.Some? {
      var k := path.value;
      RecordedKeeps(p, k, reply, nowMs, sealed, hash);
      var segments := Recorded(p.segments, k, reply, nowMs, hash);
      match OutcomeOf(p.segments, k, reply, hash)
      case Archived(_, _, _) =>
        var report := p.report.(archived := p.report.archived + [k]);
        ReleaseOneKeeps(Progress(p.log, segments, report), k, reply, release, sealed, hash);
      case AlreadyArchived(_) =>
        var report := p.report.(already := p.report.already + [k]);
        ReleaseOneKeeps(Progress(p.log, segments, report), k, reply, release, sealed, hash);
      case _ =>
    }
  }

  lemma {:induction false} TickAllKeeps(p: Progress, paths: seq<Option<nat>>, replies: seq<Reply>, nowMs: int64,
                                        release: bool, sealed: map<nat, Content>, hash: Hash)
    requires |replies| == |paths| && Honest(p.log, p.segments, sealed, hash)
    requires forall i :: 0 <= i < |paths| && paths[i].Some? && replies[i].read.Ok? ==>
               paths[i].value in sealed && replies[i].read.value == sealed[paths[i].value]
    ensures var next := TickAll(p, paths, replies, nowMs, release, hash);
            && Honest(next.log, next.segments, sealed, hash)
            && (forall k :: k in p.segments ==> k in next.segments && next.segments[k] == p.segments[k])
            && (forall k :: k in next.log.local ==> k in p.log.local)
            && (forall k :: k in p.log.local && k !in next.log.local ==> k in next.segments)
            && (forall k :: k in next.segments && k !in p.segments ==>
                  k in ProvedBy(p, paths, replies, nowMs, release, sealed, hash))
    decreases |paths|
  {
    if paths != [] {
      TickOneKeeps(p, paths[0], replies[0], nowMs, release, sealed, hash);
      var (next, goOn) := TickOne(p, paths[0], replies[0], nowMs, release, hash);
      if goOn {
        forall i | 0 <= i < |paths[1..]| && paths[1..][i].Some? && replies[1..][i].read.Ok?
          ensures paths[1..][i].value in sealed && replies[1..][i].read.value == sealed[paths[1..][i].value]
        {
          assert paths[1..][i] == paths[i + 1] && replies[1..][i] == replies[i + 1];
        }
        TickAllKeeps(next, paths[1..], replies[1..], nowMs, release, sealed, hash);
      }
    }
  }

  lemma StepKeepsSafe(s: System, e: Event, hash: Hash)
    requires Safe(s, hash) && Allowed(s, e)
    ensures Safe(Step(s, e, hash), hash)
    ensures forall k :: k in s.sealed ==> k in Step(s, e, hash).sealed && Step(s, e, hash).sealed[k] == s.sealed[k]
  {
    match e
    case Seal(_, _) =>
    case Checkpoint(_) =>
    case Sweep(paths, replies, nowMs, release) =>
      TickAllKeeps(Progress(s.log, s.segments, EMPTY_REPORT), paths, replies, nowMs, release, s.sealed, hash);
    case Expire(retention, nowMs) => ForgetLeavesUpperPart(s.segments, ExpiredKeys(s.segments, retention, nowMs));
  }

  lemma {:induction false} RunKeepsSafe(s: System, events: seq<Event>, hash: Hash)
    requires Safe(s, hash) && AllowedRun(s, events, hash)
    ensures Safe(Run(s, events, hash), hash)
    decreases |events|
  {
    if events != [] {
      RunKeepsSafe(s, events[..|events| - 1], hash);
      StepKeepsSafe(Run(s, events[..|events| - 1], hash), events[|events| - 1], hash);
    }
  }

  /** On every run, every segment ever sealed is still local, or archived under the digest of its
      original bytes, or forgotten by retention; and whatever is no longer local was once proved. */
  lemma NoSegmentIsLost(events: seq<Event>, hash: Hash, k: nat)
    requires AllowedRun(INITIAL, events, hash) && k in Run(INITIAL, events, hash).sealed
    ensures var s := Run(INITIAL, events, hash);
            && (|| (k in s.log.local && s.log.local[k] == s.sealed[k])
                || (k in s.segments && Describes(s.segments[k], k, s.sealed[k], hash))
                || k in s.forgotten)
            && (k !in s.log.local ==> k in s.proved)
  {
    RunKeepsSafe(INITIAL, events, hash);
  }

  // ----- what a whole sweep does -----

  /** The archive turns a segment away for now, which ends the sweep. */
  predicate Defers(m: Segments, path: Option<nat>, reply: Reply) {
    path.Some? && path.value !in m && reply.read.Ok? && reply.store.Err? && reply.store.error.Unavailable?
  }

  /** The segment was read, stored and fetched back with the digest it had. */
  predicate Returns(reply: Reply, hash: Hash) {
    && reply.read.Ok? && reply.store.Ok? && reply.scratch.Ok? && reply.fetch.Ok? && reply.readBack.Ok?
    && hash(reply.readBack.value) == hash(reply.read.value)
  }

  predicate ReachedIn(m: Segments, paths: seq<Option<nat>>, replies: seq<Reply>, i: nat)
    requires i < |paths| == |replies|
  {
    forall j :: 0 <= j < i ==> !Defers(m, paths[j], replies[j])
  }

  predicate DistinctPaths(paths: seq<Option<nat>>) {
    forall i, j :: 0 <= i < j < |paths| && paths[i].Some? ==> paths[i] != paths[j]
  }

  /** The sweep comes to a segment and finds it archived, or archives it. */
  predicate ArchivedIn(m: Segments, paths: seq<Option<nat>>, replies: seq<Reply>, hash: Hash, k: nat, i: int)
    requires |paths| == |replies|
  {
    && 0 <= i < |paths| && paths[i] == Some(k) && ReachedIn(m, paths, replies, i)
    && (k in m || Returns(replies[i], hash))
  }

  /** What the sweep does with one path leaves the others as they were. */
  lemma LaterPathsUntouched(p: Progress, paths: seq<Option<nat>>, replies: seq<Reply>, nowMs: int64, release: bool,
                            hash: Hash, k: nat, i: nat)
    requires |replies| == |paths| && DistinctPaths(paths) && 0 < i < |paths|
    requires TickOne(p, paths[0], replies[0], nowMs, release, hash).1
    ensures var next := TickOne(p, paths[0], replies[0], nowMs, release, hash).0;
            ArchivedIn(p.segments, paths, replies, hash, k, i)
            <==> ArchivedIn(next.segments, paths[1..], replies[1..], hash, k, i - 1)
  {
    var next := TickOne(p, paths[0], replies[0], nowMs, release, hash).0;
    forall j | 0 < j < |paths|
      ensures Defers(p.segments, paths[j], replies[j])
              <==> Defers(next.segments, paths[1..][j - 1], replies[1..][j - 1])
    {}
    if ReachedIn(next.segments, paths[1..], replies[1..], i - 1) {
      forall j | 0 <= j < i ensures !Defers(p.segments, paths[j], replies[j]) {
        assert j > 0 ==> !Defers(next.segments, paths[1..][j - 1], replies[1..][j - 1]);
      }
    }
  }

  lemma FirstPath(p: Progress, paths: seq<Option<nat>>, replies: seq<Reply>, nowMs: int64, release: bool, hash: Hash,
                  k: nat)
    requires |replies| == |paths| && paths != []
    ensures var (next, goOn) := TickOne(p, paths[0], replies[0], nowMs, release, hash);
            && (goOn <==> !Defers(p.segments, paths[0], replies[0]))
            && (k in next.segments <==> k in p.segments || ArchivedIn(p.segments, paths, replies, hash, k, 0))
            && next.log.checkpoint == p.log.checkpoint
            && (k in next.log.local
                <==> k in p.log.local && !(release && k < p.log.checkpoint && replies[0].releaseFault.None?
                                           && ArchivedIn(p.segments, paths, replies, hash, k, 0)))
  {}

  /** The sweep comes to a segment and finds it archived, or archives it, and may then delete its
      file where that is asked. */
  predicate Archives(m: Segments, paths: seq<Option<nat>>, replies: seq<Reply>, hash: Hash, k: nat, deletable: bool)
    requires |paths| == |replies|
  {
    exists i :: 0 <= i < |paths| && ArchivedIn(m, paths, replies, hash, k, i)
                && (deletable ==> replies[i].releaseFault.None?)
  }

  lemma NotFirst(p: Progress, paths: seq<Option<nat>>, replies: seq<Reply>, nowMs: int64, release: bool, hash: Hash,
                 k: nat, deletable: bool)
    requires |replies| == |paths| && DistinctPaths(paths) && paths != []
    requires Archives(p.segments, paths, replies, hash, k, deletable)
    requires !ArchivedIn(p.segments, paths, replies, hash, k, 0) || (deletable && replies[0].releaseFault.Some?)
    ensures var (next, goOn) := TickOne(p, paths[0], replies[0], nowMs, release, hash);
            goOn && Archives(next.segments, paths[1..], replies[1..], hash, k, deletable)
  {
    var i :| 0 <= i < |paths| && ArchivedIn(p.segments, paths, replies, hash, k, i)
             && (deletable ==> replies[i].releaseFault.None?);
    assert !Defers(p.segments, paths[0], replies[0]);
    FirstPath(p, paths, replies, nowMs, release, hash, k);
    LaterPathsUntouched(p, paths, replies, nowMs, release, hash, k, i);
    assert replies[1..][i - 1] == replies[i];
  }

  lemma FromTheRest(p: Progress, paths: seq<Option<nat>>, replies: seq<Reply>, nowMs: int64, release: bool, hash: Hash,
                    k: nat, deletable: bool)
    requires |replies| == |paths| && DistinctPaths(paths) && paths != []
    requires var (next, goOn) := TickOne(p, paths[0], replies[0], nowMs, release, hash);
             goOn && Archives(next.segments, paths[1..], replies[1..], hash, k, deletable)
    ensures Archives(p.segments, paths, replies, hash, k, deletable)
  {
    var next := TickOne(p, paths[0], replies[0], nowMs, release, hash).0;
    var i :| 0 <= i < |paths[1..]| && ArchivedIn(next.segments, paths[1..], replies[1..], hash, k, i)
             && (deletable ==> replies[1..][i].releaseFault.None?);
    LaterPathsUntouched(p, paths, replies, nowMs, release, hash, k, i + 1);
    assert replies[1..][i] == replies[i + 1];
  }

  lemma ArchivesStep(p: Progress, paths: seq<Option<nat>>, replies: seq<Reply>, nowMs: int64, release: bool, hash: Hash,
                     k: nat, deletable: bool)
    requires |replies| == |paths| && DistinctPaths(paths) && paths != []
    ensures var (next, goOn) := TickOne(p, paths[0], replies[0], nowMs, release, hash);
            Archives(p.segments, paths, replies, hash, k, deletable)
            <==> || (ArchivedIn(p.segments, paths, replies, hash, k, 0)
                     && (deletable ==> replies[0].releaseFault.None?))
                 || (goOn && Archives(next.segments, paths[1..], replies[1..], hash, k, deletable))
  {
    var (next, goOn) := TickOne(p, paths[0], replies[0], nowMs, release, hash);
    if ArchivedIn(p.segments, paths, replies, hash, k, 0) && (deletable ==> replies[0].releaseFault.None?) {
    } else if Archives(p.segments, paths, replies, hash, k, deletable) {
      NotFirst(p, paths, replies, nowMs, release, hash, k, deletable);
    } else if goOn && Archives(next.segments, paths[1..], replies[1..], hash, k, deletable) {
      FromTheRest(p, paths, replies, nowMs, release, hash, k, deletable);
    }
  }

  /** A sweep goes on after failures and unreadable names and stops at the first deferral: of the
      segments it comes to it records exactly those that return, and of those recorded now or before it
      releases, if asked to, exactly the ones below the checkpoint whose file can be deleted. */
  lemma {:induction false} SweepExactly(p: Progress, paths: seq<Option<nat>>, replies: seq<Reply>, nowMs: int64,
                                        release: bool, hash: Hash, k: nat)
    requires |replies| == |paths| && DistinctPaths(paths)
    ensures var after := TickAll(p, paths, replies, nowMs, release, hash);
            && (k in after.segments <==> k in p.segments || Archives(p.segments, paths, replies, hash, k, false))
            && (k in after.log.local
                <==> k in p.log.local && !(release && k < p.log.checkpoint
                                           && Archives(p.segments, paths, replies, hash, k, true)))
    decreases |paths|
  {
    if paths != [] {
      FirstPath(p, paths, replies, nowMs, release, hash, k);
      ArchivesStep(p, paths, replies, nowMs, release, hash, k, false);
      ArchivesStep(p, paths, replies, nowMs, release, hash, k, true);
      var (next, goOn) := TickOne(p, paths[0], replies[0], nowMs, release, hash);
      if goOn {
        SweepExactly(next, paths[1..], replies[1..], nowMs, release, hash, k);
      }
    }
  }

  /** How many paths a report speaks of. */
  function Reported(r: Report): nat {
    |r.archived| + |r.already| + |r.deferred| + |r.failed|
  }

  /** A report has one entry for every path the sweep came to, and a sweep that did not come to all of
      them has one deferral more. */
  lemma {:induction false} EveryPathIsReported(p: Progress, paths: seq<Option<nat>>, replies: seq<Reply>, nowMs: int64,
                                               release: bool, hash: Hash)
    requires |replies| == |paths|
    ensures var after := TickAll(p, paths, replies, nowMs, release, hash);
            && Reported(p.report) <= Reported(after.report) <= Reported(p.report) + |paths|
            && |p.report.deferred| <= |after.report.deferred| <= |p.report.deferred| + 1
            && (Reported(after.report) < Reported(p.report) + |paths| ==>
                  |after.report.deferred| == |p.report.deferred| + 1)
    decreases |paths|
  {
    if paths != [] {
      var (next, goOn) := TickOne(p, paths[0], replies[0], nowMs, release, hash);
      assert Reported(next.report) == Reported(p.report) + 1;
      if goOn {
        EveryPathIsReported(next, paths[1..], replies[1..], nowMs, release, hash);
      }
    }
  }

  /** The segments a report gives as archived are those newly in the manifest. */
  lemma {:induction false} ArchivedAreRecorded(p: Progress, paths: seq<Option<nat>>, replies: seq<Reply>, nowMs: int64,
                                               release: bool, hash: Hash, k: nat)
    requires |replies| == |paths|
    ensures var after := TickAll(p, paths, replies, nowMs, release, hash);
            && (k in after.report.archived <==>
                k in p.report.archived || (k in after.segments && k !in p.segments))
            && (k in p.segments ==> k in after.segments)
    decreases |paths|
  {
    if paths != [] {
      var (next, goOn) := TickOne(p, paths[0], replies[0], nowMs, release, hash);
      if goOn {
        ArchivedAreRecorded(next, paths[1..], replies[1..], nowMs, release, hash, k);
      }
    }
  }

  lemma ReleasedByOne(p: Progress, path: Option<nat>, reply: Reply, nowMs: int64, release: bool, hash: Hash, k: nat)
    ensures var next := TickOne(p, path, reply, nowMs, release, hash).0;
            && p.report.released <= next.report.released
            && (k in p.log.local && k !in next.log.local ==> (k, |p.log.local[k]|) in next.report.released)
            && (k in next.log.local ==> k in p.log.local && next.log.local[k] == p.log.local[k])
  {
    var next := TickOne(p, path, reply, nowMs, release, hash).0;
    if k in p.log.local && k !in next.log.local {
      var last := next.report.released[|next.report.released| - 1];
      assert last == (k, |p.log.local[k]|) && last in next.report.released;
    }
  }

  /** Every segment that leaves the local log is reported as released, with its length. */
  lemma {:induction false} ReleasedAreReported(p: Progress, paths: seq<Option<nat>>, replies: seq<Reply>, nowMs: int64,
                                               release: bool, hash: Hash, k: nat)
    requires |replies| == |paths|
    ensures var after := TickAll(p, paths, replies, nowMs, release, hash);
            && p.report.released <= after.report.released
            && (k in p.log.local && k !in after.log.local ==> (k, |p.log.local[k]|) in after.report.released)
            && (k in after.log.local ==> k in p.log.local && after.log.local[k] == p.log.local[k])
    decreases |paths|
  {
    if paths != [] {
      var (next, goOn) := TickOne(p, paths[0], replies[0], nowMs, release, hash);
      ReleasedByOne(p, paths[0], replies[0], nowMs, release, hash, k);
      if goOn {
        ReleasedAreReported(next, paths[1..], replies[1..], nowMs, release, hash, k);
      }
    }
  }

  // ----- what recovery still needs -----

  lemma {:induction false} TickSparesCheckpoint(p: Progress, paths: seq<Option<nat>>, replies: seq<Reply>,
                                                nowMs: int64, release: bool, hash: Hash, k: nat)
    requires |replies| == |paths| && k in p.log.local && (k >= p.log.checkpoint || !release)
    ensures var log := TickAll(p, paths, replies, nowMs, release, hash).log;
            log.checkpoint == p.log.checkpoint && k in log.local && log.local[k] == p.log.local[k]
    decreases |paths|
  {
    if paths != [] {
      var (next, goOn) := TickOne(p, paths[0], replies[0], nowMs, release, hash);
      if goOn {
        TickSparesCheckpoint(next, paths[1..], replies[1..], nowMs, release, hash, k);
      }
    }
  }

  /** Whatever a sweep finds archived or proves, it leaves every local segment at or above the
      checkpoint where it is; and every other one too, unless it was asked to release. */
  lemma SweepSparesCheckpoint(s: System, paths: seq<Option<nat>>, replies: seq<Reply>, nowMs: int64, release: bool,
                              hash: Hash, k: nat)
    requires Allowed(s, Sweep(paths, replies, nowMs, release)) && k in s.log.local
    requires k >= s.log.checkpoint || !release
    ensures var log := Step(s, Sweep(paths, replies, nowMs, release), hash).log;
            k in log.local && log.local[k] == s.log.local[k]
  {
    TickSparesCheckpoint(Progress(s.log, s.segments, EMPTY_REPORT), paths, replies, nowMs, release, hash, k);
  }

  lemma {:induction false} TickKeepsCheckpoint(p: Progress, paths: seq<Option<nat>>, replies: seq<Reply>,
                                               nowMs: int64, release: bool, hash: Hash)
    requires |replies| == |paths|
    ensures TickAll(p, paths, replies, nowMs, release, hash).log.checkpoint == p.log.checkpoint
    decreases |paths|
  {
    if paths != [] {
      var (next, goOn) := TickOne(p, paths[0], replies[0], nowMs, release, hash);
      if goOn {
        TickKeepsCheckpoint(next, paths[1..], replies[1..], nowMs, release, hash);
      }
    }
  }

  lemma SweepKeepsCheckpoint(s: System, e: Event, hash: Hash)
    requires Allowed(s, e) && e.Sweep?
    ensures Step(s, e, hash).log.checkpoint == s.log.checkpoint
  {
    TickKeepsCheckpoint(Progress(s.log, s.segments, EMPTY_REPORT), e.paths, e.replies, e.nowMs, e.release, hash);
  }

  /** Some checkpoint of the run is past the segment. */
  predicate Passed(events: seq<Event>, k: nat) {
    exists i :: 0 <= i < |events| && events[i].Checkpoint? && events[i].position > k
  }

  lemma {:induction false} CheckpointIsPast(events: seq<Event>, hash: Hash, k: nat)
    requires AllowedRun(INITIAL, events, hash)
    ensures Run(INITIAL, events, hash).log.checkpoint > k ==> Passed(events, k)
    ensures k in Run(INITIAL, events, hash).sealed && !Passed(events, k) ==> k in Run(INITIAL, events, hash).log.local
    decreases |events|
  {
    if events != [] {
      var earlier, last := events[..|events| - 1], events[|events| - 1];
      CheckpointIsPast(earlier, hash, k);
      var before := Run(INITIAL, earlier, hash);
      if Passed(earlier, k) {
        var i :| 0 <= i < |earlier| && earlier[i].Checkpoint? && earlier[i].position > k;
        assert events[i] == earlier[i];
      }
      match last
      case Sweep(paths, replies, nowMs, release) =>
        SweepKeepsCheckpoint(before, last, hash);
        if k in before.log.local && before.log.checkpoint <= k {
          SweepSparesCheckpoint(before, paths, replies, nowMs, release, hash, k);
        }
      case Checkpoint(position) => assert events[|events| - 1] == last;
      case _ =>
    }
  }

  /** On every run, a sealed segment has left the local log only if some checkpoint was past it. */
  lemma NothingLeavesAheadOfCheckpoint(events: seq<Event>, hash: Hash, k: nat)
    requires AllowedRun(INITIAL, events, hash)
    requires k in Run(INITIAL, events, hash).sealed && k !in Run(INITIAL, events, hash).log.local
    ensures Passed(events, k)
  {
    CheckpointIsPast(events, hash, k);
  }

  // ----- what a sweep frees -----

  /** The bytes of all local segments. */
  ghost function Occupied(local: map<nat, Content>): nat {
    if local == map[] then 0
    else
      var k :| k in local;
      |local[k]| + Occupied(local - {k})
  }

  lemma {:induction false} OccupiedWithout(local: map<nat, Content>, k: nat)
    requires k in local
    ensures Occupied(local) == |local[k]| + Occupied(local - {k})
  {
    var j :| j in local && Occupied(local) == |local[j]| + Occupied(local - {j});
    if j != k {
      OccupiedWithout(local - {j}, k);
      OccupiedWithout(local - {k}, j);
      assert local - {j} - {k} == local - {k} - {j};
    }
  }

  /** The bytes a sweep reports as freed are those the local log no longer occupies. */
  lemma {:induction false} FreedBytesLeft(p: Progress, paths: seq<Option<nat>>, replies: seq<Reply>, nowMs: int64,
                                          release: bool, hash: Hash)
    requires |replies| == |paths|
    ensures var next := TickAll(p, paths, replies, nowMs, release, hash);
            Occupied(next.log.local) + next.report.freedBytes == Occupied(p.log.local) + p.report.freedBytes
    decreases |paths|
  {
    if paths != [] {
      FreedByOne(p, paths[0], replies[0], nowMs, release, hash);
      var (next, goOn) := TickOne(p, paths[0], replies[0], nowMs, release, hash);
      if goOn {
        FreedBytesLeft(next, paths[1..], replies[1..], nowMs, release, hash);
      }
    }
  }

  lemma FreedByOne(p: Progress, path: Option<nat>, reply: Reply, nowMs: int64, release: bool, hash: Hash)
    ensures var next := TickOne(p, path, reply, nowMs, release, hash).0;
            Occupied(next.log.local) + next.report.freedBytes == Occupied(p.log.local) + p.report.freedBytes
  {
    if path.Some? && path.value in p.log.local {
      OccupiedWithout(p.log.local, path.value);
    } else if path.Some? {
      assert p.log.local - {path.value} == p.log.local;
    }
  }

  /** Different contents with one digest. */
  predicate Collide(hash: Hash, x: Content, y: Content) {
    x != y && hash(x) == hash(y)
  }

  /** After any run, a restore that succeeds returns the bytes that were sealed, in order, even
      from an archive that has changed since the proofs: only a collision of digests could pass. */
  lemma RestoreReturnsTheOriginals(events: seq<Event>, hash: Hash, through: nat, directory: Result<(), string>,
                                   fetched: seq<Result<Content, string>>)
    requires AllowedRun(INITIAL, events, hash) && |fetched| == through + 1
    requires RestoreOf(Run(INITIAL, events, hash).segments, through, directory, fetched, hash).Ok?
    ensures var s := Run(INITIAL, events, hash);
            var restored := RestoreOf(s.segments, through, directory, fetched, hash).value;
            |restored| == through + 1
            && forall i :: 0 <= i <= through ==>
                 i in s.sealed && (restored[i] == s.sealed[i] || Collide(hash, restored[i], s.sealed[i]))
  {
    var s := Run(INITIAL, events, hash);
    RunKeepsSafe(INITIAL, events, hash);
    RestoreIsAllOrError(s.segments, through, directory, fetched, hash);
  }

  // ----- retention and what is still local -----

  /** A sweep brings a forgotten segment back exactly when it is still local and proves again. */
  lemma SweepReturnsExactly(s: System, k: nat, reply: Reply, nowMs: int64, release: bool, hash: Hash)
    requires Safe(s, hash) && k in s.sealed && k !in s.segments && FaithfulReads(s.log, [Some(k)], [reply])
    ensures k in Step(s, Sweep([Some(k)], [reply], nowMs, release), hash).segments
            <==> k in s.log.local && reply.read.Ok? && reply.store.Ok? && Proves(reply, hash(s.sealed[k]), hash)
  {
    var p := Progress(s.log, s.segments, EMPTY_REPORT);
    assert [Some(k)][0] == Some(k) && [reply][0] == reply;
    if reply.read.Ok? {
      assert k in s.log.local && reply.read.value == s.log.local[k];
    }
    var (next, goOn) := TickOne(p, Some(k), reply, nowMs, release, hash);
    assert TickAll(next, [], [], nowMs, release, hash) == next;
    assert [Some(k)][1..] == [] && [reply][1..] == [];
    assert TickAll(p, [Some(k)], [reply], nowMs, release, hash) == next;
  }

  ghost predicate OpensAGap(before: Segments, after: Segments) {
    exists s :: IsGap(after, s) && !IsGap(before, s)
  }

  /** Recording a segment opens a gap exactly when it is neither within the archive nor next to it. */
  lemma RecordingOpensAGapExactly(m: Segments, k: nat, entry: ArchivedSegment)
    requires k !in m
    ensures OpensAGap(m, m[k := entry])
            <==> m != map[] && (k + 1 < Horizon(m).value || k > Head(m).value + 1)
  {
    var after := m[k := entry];
    assert k in after;
    if m != map[] {
      var low, high := Horizon(m).value, Head(m).value;
      assert low in after && high in after;
      assert Horizon(after).value == Min(low, k) && Head(after).value == Max(high, k);
      if k + 1 < low {
        assert IsGap(after, k + 1) && !IsGap(m, k + 1);
      }
      if k > high + 1 {
        assert IsGap(after, high + 1) && !IsGap(m, high + 1);
      }
    }
  }

  /** A sweep of one segment opens a gap exactly when it records the segment, and the segment is
      neither within the archive nor next to it: one that retention has forgotten, or one that
      follows another not archived yet. */
  lemma SweepOpensAGapExactly(s: System, k: nat, reply: Reply, nowMs: int64, release: bool, hash: Hash)
    requires Safe(s, hash) && k in s.sealed && k !in s.segments && FaithfulReads(s.log, [Some(k)], [reply])
    ensures OpensAGap(s.segments, Step(s, Sweep([Some(k)], [reply], nowMs, release), hash).segments)
            <==> && k in s.log.local && reply.read.Ok? && reply.store.Ok? && Proves(reply, hash(s.sealed[k]), hash)
                 && s.segments != map[]
                 && (k + 1 < Horizon(s.segments).value || k > Head(s.segments).value + 1)
  {
    var p := Progress(s.log, s.segments, EMPTY_REPORT);
    assert [Some(k)][0] == Some(k) && [reply][0] == reply && [Some(k)][1..] == [] && [reply][1..] == [];
    SweepReturnsExactly(s, k, reply, nowMs, release, hash);
    var (next, goOn) := TickOne(p, Some(k), reply, nowMs, release, hash);
    assert TickAll(next, [], [], nowMs, release, hash) == next;
    var after := Step(s, Sweep([Some(k)], [reply], nowMs, release), hash).segments;
    assert after == next.segments == Recorded(s.segments, k, reply, nowMs, hash);
    if k in after {
      RecordingOpensAGapExactly(s.segments, k, after[k]);
      assert after == s.segments[k := after[k]];
    } else {
      assert after == s.segments;
    }
  }

  // ----- a run that ends with a gap -----

  const SEGMENT: Content := [7]

  /** An archive that keeps what it is given, and one that cannot be reached. */
  const KEPT := Reply(Ok(SEGMENT), Ok(StoredRef("", 1, None)), Ok(()), Ok(()), Ok(SEGMENT), None)
  const UNREACHABLE := KEPT.(store := Err(Unavailable("")))

  const PATHS: seq<Option<nat>> := [Some(0), Some(1), Some(2)]
  const LOCAL: map<nat, Content> := map[0 := SEGMENT, 1 := SEGMENT, 2 := SEGMENT]

  /** All three are archived, and none released. */
  const ARCHIVING := Sweep(PATHS, [KEPT, KEPT, KEPT], 0, false)

  /** Retention forgets the first two. */
  const EXPIRING := Expire(For(1), 1)

  /** The next sweep brings the first back, and stops at the second. */
  const RETURNING := Sweep(PATHS, [KEPT, UNREACHABLE, KEPT], 1, false)

  function Entry(sequence: nat, nowMs: int64, hash: Hash): ArchivedSegment {
    ArchivedSegment(sequence, hash(SEGMENT), 1, StoredRef("", 1, None), nowMs)
  }

  function Archived3(hash: Hash): Segments {
    map[0 := Entry(0, 0, hash), 1 := Entry(1, 0, hash), 2 := Entry(2, 0, hash)]
  }

  ghost predicate Reached(s: System, events: seq<Event>, hash: Hash) {
    AllowedRun(INITIAL, events, hash) && Run(INITIAL, events, hash) == s
  }

  lemma Then(s: System, events: seq<Event>, e: Event, hash: Hash) returns (next: System, longer: seq<Event>)
    requires Reached(s, events, hash) && Allowed(s, e)
    ensures next == Step(s, e, hash) && longer == events + [e]
    ensures Reached(next, longer, hash)
  {
    next, longer := Step(s, e, hash), events + [e];
    assert longer[..|events|] == events && longer[|events|] == e;
  }

  lemma SweepOfThree(p: Progress, first: Reply, second: Reply, third: Reply, nowMs: int64, hash: Hash)
    ensures var (p1, on1) := TickOne(p, Some(0), first, nowMs, false, hash);
            var (p2, on2) := TickOne(p1, Some(1), second, nowMs, false, hash);
            var (p3, on3) := TickOne(p2, Some(2), third, nowMs, false, hash);
            TickAll(p, PATHS, [first, second, third], nowMs, false, hash)
            == if !on1 then p1 else if !on2 then p2 else p3
  {
    var replies := [first, second, third];
    assert PATHS[1..] == [Some(1), Some(2)] && PATHS[1..][1..] == [Some(2)] && PATHS[1..][1..][1..] == [];
    assert replies[1..] == [second, third] && replies[1..][1..] == [third] && replies[1..][1..][1..] == [];
  }

  /** Three segments are sealed, and none is needed for recovery. */
  lemma Sealed(hash: Hash) returns (s: System, events: seq<Event>)
    ensures Reached(s, events, hash) && s == System(Log(LOCAL, 3), map[], LOCAL, {}, {})
  {
    s, events := INITIAL, [];
    s, events := Then(s, events, Seal(0, SEGMENT), hash);
    s, events := Then(s, events, Seal(1, SEGMENT), hash);
    s, events := Then(s, events, Seal(2, SEGMENT), hash);
    s, events := Then(s, events, Checkpoint(3), hash);
  }

  lemma ThenArchived(s: System, events: seq<Event>, hash: Hash) returns (next: System, longer: seq<Event>)
    requires Reached(s, events, hash) && s.log == Log(LOCAL, 3) && s.segments == map[]
    ensures Reached(next, longer, hash) && next.log == s.log && next.segments == Archived3(hash)
  {
    SweepOfThree(Progress(s.log, s.segments, EMPTY_REPORT), KEPT, KEPT, KEPT, 0, hash);
    next, longer := Then(s, events, ARCHIVING, hash);
  }

  lemma OrderOfThree()
    ensures InOrder({0, 1, 2}) == [0, 1, 2]
  {
    assert Least({0, 1, 2}) == 0 && {0, 1, 2} - {0} == {1, 2};
    assert Least({1, 2}) == 1 && {1, 2} - {1} == {2};
    assert Least({2}) == 2 && {2} - {2} == {};
    assert InOrder({2}) == [2];
    assert InOrder({1, 2}) == [1, 2];
  }

  lemma FirstTwoExpire(m: Segments, hash: Hash)
    requires m == Archived3(hash)
    ensures ExpiredKeys(m, For(1), 1) == [0, 1]
  {
    var keys := InOrder(m.Keys);
    assert m.Keys == {0, 1, 2};
    OrderOfThree();
    assert keys == [0, 1, 2];
    assert forall k :: k in keys ==> k in m && ExpiredBy(For(1), m[k].verifiedAtMs, 1);
    assert AgedPrefix(keys, m, For(1), 1) == 3;
  }

  lemma FirstTwoForgotten(m: Segments, hash: Hash)
    requires m == Archived3(hash)
    ensures Forget(m, [0, 1]).left == map[2 := Entry(2, 0, hash)]
  {
    var n := m - {0};
    assert [0, 1][1..] == [1] && [1][1..] == [] && 0 in m && 1 in n;
    assert Horizon(m) == Some(0) && Horizon(n) == Some(1);
    assert n - {1} == map[2 := Entry(2, 0, hash)];
    assert Forget(n - {1}, []).left == n - {1};
    assert Forget(n, [1]).left == n - {1};
  }

  lemma ThenExpired(s: System, events: seq<Event>, hash: Hash) returns (next: System, longer: seq<Event>)
    requires Reached(s, events, hash) && s.log == Log(LOCAL, 3) && s.segments == Archived3(hash)
    ensures Reached(next, longer, hash) && next.log == s.log && next.segments == map[2 := Entry(2, 0, hash)]
  {
    FirstTwoExpire(s.segments, hash);
    FirstTwoForgotten(s.segments, hash);
    next, longer := Then(s, events, EXPIRING, hash);
  }

  lemma ReturningSweep(p: Progress, hash: Hash)
    requires p.segments == map[2 := Entry(2, 0, hash)]
    ensures var last := TickAll(p, PATHS, [KEPT, UNREACHABLE, KEPT], 1, false, hash);
            last.segments == map[0 := Entry(0, 1, hash), 2 := Entry(2, 0, hash)]
  {
    SweepOfThree(p, KEPT, UNREACHABLE, KEPT, 1, hash);
    assert Recorded(p.segments, 0, KEPT, 1, hash) == p.segments[0 := Entry(0, 1, hash)];
  }

  lemma ThenReturned(s: System, events: seq<Event>, hash: Hash) returns (next: System)
    requires Reached(s, events, hash) && s.log == Log(LOCAL, 3) && s.segments == map[2 := Entry(2, 0, hash)]
    ensures Reached(next, events + [RETURNING], hash)
    ensures next.segments == map[0 := Entry(0, 1, hash), 2 := Entry(2, 0, hash)]
  {
    ReturningSweep(Progress(s.log, s.segments, EMPTY_REPORT), hash);
    ghost var longer;
    next, longer := Then(s, events, RETURNING, hash);
  }

  lemma ZeroAndTwo(before: Segments, after: Segments)
    requires before.Keys == {2} && after.Keys == {0, 2}
    ensures (forall k :: !IsGap(before, k)) && IsGap(after, 1)
  {
    assert 2 in before && 0 in after && 2 in after;
  }

  /** A run from the beginning, whose last sweep, after retention, opens a gap in an archive that
      had none. */
  lemma RetainedLogOpensAGap(hash: Hash) returns (events: seq<Event>, before: System, after: System)
    ensures Reached(before, events, hash) && Reached(after, events + [RETURNING], hash)
    ensures before.segments.Keys == {2} && after.segments.Keys == {0, 2}
    ensures (forall k :: !IsGap(before.segments, k)) && IsGap(after.segments, 1)
  {
    before, events := Sealed(hash);
    before, events := ThenArchived(before, events, hash);
    before, events := ThenExpired(before, events, hash);
    after := ThenReturned(before, events, hash);
    ZeroAndTwo(before.segments, after.segments);
  }
}
