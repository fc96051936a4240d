/** Archiving, proving, releasing and restoring log segments, against an archive that may
    refuse, lie or rot. */
module Custody {
  import opened Prelude
  import opened ArchiveManifest

  type Hash = Content -> Digest

  datatype StoreError = Unavailable(reason: string) | StoreFailed(reason: string)

  /** What the world answers while one segment is archived: the local read, the store, the
      scratch directory, the fetch, and the bytes the fetch left behind. */
  datatype Reply = Reply(
    read: Result<Content, string>,
    store: Result<StoredRef, StoreError>,
    scratch: Result<(), string>,
    fetch: Result<(), string>,
    readBack: Result<Content, string>,
    releaseFault: Option<string>)

  datatype Outcome =
    | Archived(sequence: nat, originalBytes: nat, storedBytes: nat)
    | AlreadyArchived(sequence: nat)
    | Deferred(sequence: nat, reason: string)
    | Failed(sequence: nat, reason: string)

  /** The round trip: what came back has the digest of what went in. */
  predicate Proves(reply: Reply, expected: Digest, hash: Hash) {
    reply.scratch.Ok? && reply.fetch.Ok? && reply.readBack.Ok? && hash(reply.readBack.value) == expected
  }

  function ProofFailure(reply: Reply): string {
    if reply.scratch.Err? then reply.scratch.error
    else if reply.fetch.Err? then reply.fetch.error
    else if reply.readBack.Err? then reply.readBack.error
    else "the segment did not survive its round trip"
  }

  function OutcomeOf(m: Segments, sequence: nat, reply: Reply, hash: Hash): Outcome {
    if sequence in m then AlreadyArchived(sequence)
    else if reply.read.Err? then Failed(sequence, reply.read.error)
    else if reply.store.Err? then
      if reply.store.error.Unavailable? then Deferred(sequence, reply.store.error.reason)
      else Failed(sequence, reply.store.error.reason)
    else if Proves(reply, hash(reply.read.value), hash) then
      Archived(sequence, |reply.read.value|, reply.store.value.storedBytes)
    else Failed(sequence, ProofFailure(reply))
  }

  function Recorded(m: Segments, sequence: nat, reply: Reply, nowMs: int64, hash: Hash): Segments {
    if OutcomeOf(m, sequence, reply, hash).Archived? then
      m[sequence := ArchivedSegment(sequence, hash(reply.read.value), |reply.read.value|, reply.store.value, nowMs)]
    else m
  }

  // ----- one tick over the local log -----

  /** The local log: its segments, and the first sequence recovery still needs. */
  datatype Log = Log(local: map<nat, Content>, checkpoint: nat)

  /** `release_segment`: refuses what recovery needs, and what is already gone frees nothing. */
  function ReleaseResult(log: Log, sequence: nat, fault: Option<string>): Result<nat, string> {
    if sequence >= log.checkpoint then Err("segment in use")
    else if sequence !in log.local then Ok(0)
    else if fault.Some? then Err(fault.value)
    else Ok(|log.local[sequence]|)
  }

  function ReleaseLog(log: Log, sequence: nat, fault: Option<string>): Log {
    if ReleaseResult(log, sequence, fault).Ok? then log.(local := log.local - {sequence}) else log
  }

  const NO_SEQUENCE: nat := U64_MAX

  datatype Report = Report(
    archived: seq<nat>, already: seq<nat>, released: seq<(nat, nat)>,
    deferred: seq<(nat, string)>, failed: seq<(nat, string)>, freedBytes: nat)

  const EMPTY_REPORT := Report([], [], [], [], [], 0)

  datatype Progress = Progress(log: Log, segments: Segments, report: Report)

  /** What one listed path does, and whether the tick goes on after it.  A path whose name
      holds no sequence is None. */
  function TickOne(p: Progress, path: Option<nat>, reply: Reply, nowMs: int64, release: bool, hash: Hash)
    : (next: (Progress, bool))
  {
    if path.None? then
      (p.(report := p.report.(failed := p.report.failed + [(NO_SEQUENCE, "unreadable name")])), true)
    else
      var s := path.value;
      var segments := Recorded(p.segments, s, reply, nowMs, hash);
      match OutcomeOf(p.segments, s, reply, hash)
      case Deferred(_, reason) => (p.(report := p.report.(deferred := p.report.deferred + [(s, reason)])), false)
      case Failed(_, reason) => (p.(report := p.report.(failed := p.report.failed + [(s, reason)])), true)
      case Archived(_, _, _) =>
        (ReleaseOne(Progress(p.log, segments, p.report.(archived := p.report.archived + [s])), s, reply, release), true)
      case AlreadyArchived(_) =>
        (ReleaseOne(Progress(p.log, segments, p.report.(already := p.report.already + [s])), s, reply, release), true)
  }

  function ReleaseOne(p: Progress, s: nat, reply: Reply, release: bool): Progress {
    if !release then p
    else
      var freed := ReleaseResult(p.log, s, reply.releaseFault);
      if freed.Err? then p
      else
        p.(log := ReleaseLog(p.log, s, reply.releaseFault),
           report := p.report.(released := p.report.released + [(s, freed.value)],
                               freedBytes := p.report.freedBytes + freed.value))
  }

  function TickAll(p: Progress, paths: seq<Option<nat>>, replies: seq<Reply>, nowMs: int64, release: bool,
                   hash: Hash): Progress
    requires |replies| == |paths|
    decreases |paths|
  {
    if paths == [] then p
    else
      var (next, goOn) := TickOne(p, paths[0], replies[0], nowMs, release, hash);
      if goOn then TickAll(next, paths[1..], replies[1..], nowMs, release, hash) else next
  }

  lemma TickFrom(p: Progress, paths: seq<Option<nat>>, replies: seq<Reply>, i: nat, nowMs: int64, release: bool,
                 hash: Hash)
    requires i < |paths| == |replies|
    ensures var (next, goOn) := TickOne(p, paths[i], replies[i], nowMs, release, hash);
            TickAll(p, paths[i..], replies[i..], nowMs, release, hash)
            == if goOn then TickAll(next, paths[i + 1..], replies[i + 1..], nowMs, release, hash) else next
  {
    assert paths[i..][0] == paths[i] && paths[i..][1..] == paths[i + 1..];
    assert replies[i..][0] == replies[i] && replies[i..][1..] == replies[i + 1..];
  }

  // ----- the objects -----

  class LocalLog {
    var local: map<nat, Content>
    var checkpoint: nat

    constructor ()
      ensures Value() == Log(map[], 0)
    {
      local, checkpoint := map[], 0;
    }

    function Value(): Log
      reads this
    {
      Log(local, checkpoint)
    }

    method Release(sequence: nat, fault: Option<string>) returns (freed: Result<nat, string>)
      modifies this
      ensures freed == ReleaseResult(old(Value()), sequence, fault)
      ensures Value() == ReleaseLog(old(Value()), sequence, fault)
    {
      if sequence >= checkpoint {
        return Err("segment in use");
      }
      if sequence !in local {
        assert local - {sequence} == local;
        return Ok(0);
      }
      if fault.Some? {
        return Err(fault.value);
      }
      freed := Ok(|local[sequence]|);
      local := local - {sequence};
    }
  }

  class Sweep {
    const manifest: Manifest
    const hash: Hash

    constructor (manifest: Manifest, hash: Hash)
      ensures this.manifest == manifest && this.hash == hash
    {
      this.manifest, this.hash := manifest, hash;
    }

    /** Archive one segment and prove it before recording it. */
    method ArchiveSegment(sequence: nat, reply: Reply, nowMs: int64) returns (outcome: Outcome)
      modifies manifest
      ensures outcome == OutcomeOf(old(manifest.segments), sequence, reply, hash)
      ensures manifest.segments == Recorded(old(manifest.segments), sequence, reply, nowMs, hash)
    {
      if sequence in manifest.segments {
        return AlreadyArchived(sequence);
      }
      // The digest is taken before the archive has touched anything.
      if reply.read.Err? {
        return Failed(sequence, reply.read.error);
      }
      var digest, original := hash(reply.read.value), |reply.read.value|;
      if reply.store.Err? {
        match reply.store.error
        case Unavailable(reason) => return Deferred(sequence, reason);
        case StoreFailed(reason) => return Failed(sequence, reason);
      }
      if !Proves(reply, digest, hash) {
        return Failed(sequence, ProofFailure(reply));
      }
      manifest.Record(ArchivedSegment(sequence, digest, original, reply.store.value, nowMs));
      outcome := Archived(sequence, original, reply.store.value.storedBytes);
    }

    /** Restore segments zero to `through`, checking each against its recorded digest. */
    method Restore(through: nat, directory: Result<(), string>, fetched: seq<Result<Content, string>>)
      returns (restored: Result<seq<Content>, RestoreError>)
      requires |fetched| == through + 1
      ensures restored == RestoreOf(manifest.segments, through, directory, fetched, hash)
    {
      var plan := manifest.RestorePlan(through);
      if plan.Err? {
        LeastMissingUnique(manifest.segments, through, plan.error.missing);
        return Err(Gap(plan.error.missing));
      }
      NothingMissing(manifest.segments, 0, through);
      if directory.Err? {
        return Err(Io(directory.error));
      }
      var out: seq<Content> := [];
      ghost var whole := RestoreFrom(manifest.segments, 0, fetched, hash);
      assert fetched[0..] == fetched && (whole.Ok? ==> [] + whole.value == whole.value);
      for i := 0 to through + 1
        invariant |out| == i
        invariant RestoreFrom(manifest.segments, 0, fetched, hash)
                  == (if RestoreFrom(manifest.segments, i, fetched[i..], hash).Ok?
                      then Ok(out + RestoreFrom(manifest.segments, i, fetched[i..], hash).value)
                      else RestoreFrom(manifest.segments, i, fetched[i..], hash))
      {
        assert fetched[i..][0] == fetched[i] && fetched[i..][1..] == fetched[i + 1..];
        if fetched[i].Err? {
          return Err(Io(fetched[i].error));
        }
        if hash(fetched[i].value) != plan.value[i].digest {
          return Err(RoundTripFailed(i));
        }
        ghost var rest := RestoreFrom(manifest.segments, i + 1, fetched[i + 1..], hash);
        assert rest.Ok? ==> out + ([fetched[i].value] + rest.value) == (out + [fetched[i].value]) + rest.value;
        out := out + [fetched[i].value];
      }
      assert out + [] == out;
      restored := Ok(out);
    }
  }

  class Custodian {
    const sweep: Sweep
    const release: bool

    constructor (sweep: Sweep, release: bool)
      ensures this.sweep == sweep && this.release == release
    {
      this.sweep, this.release := sweep, release;
    }

    /** One pass: archive what is archivable, release what is proved. */
    method Tick(source: LocalLog, listing: Result<seq<Option<nat>>, string>, replies: seq<Reply>, nowMs: int64)
      returns (report: Report, gaps: seq<nat>)
      requires listing.Ok? ==> |replies| == |listing.value|
      modifies source, sweep.manifest
      ensures var start := Progress(old(source.Value()), old(sweep.manifest.segments), EMPTY_REPORT);
              Progress(source.Value(), sweep.manifest.segments, report)
              == if listing.Err? then start.(report := EMPTY_REPORT.(failed := [(NO_SEQUENCE, listing.error)]))
                 else TickAll(start, listing.value, replies, nowMs, release, sweep.hash)
      ensures listing.Ok? ==>
                StrictlyAscending(gaps) && forall s: nat :: s in gaps <==> IsGap(sweep.manifest.segments, s)
    {
      report, gaps := EMPTY_REPORT, [];
      if listing.Err? {
        report := report.(failed := [(NO_SEQUENCE, listing.error)]);
        return;
      }
      var paths := listing.value;
      ghost var all := TickAll(Progress(source.Value(), sweep.manifest.segments, report), paths, replies, nowMs,
        release, sweep.hash);
      assert paths[0..] == paths && replies[0..] == replies;
      var i := 0;
      while i < |paths|
        invariant 0 <= i <= |paths|
        invariant all == TickAll(Progress(source.Value(), sweep.manifest.segments, report),
                                 paths[i..], replies[i..], nowMs, release, sweep.hash)
        decreases |paths| - i
      {
        TickFrom(Progress(source.Value(), sweep.manifest.segments, report), paths, replies, i, nowMs, release,
          sweep.hash);
        if paths[i].None? {
          report := report.(failed := report.failed + [(NO_SEQUENCE, "unreadable name")]);
          i := i + 1;
          continue;
        }
        var sequence, reply := paths[i].value, replies[i];
        var outcome := sweep.ArchiveSegment(sequence, reply, nowMs);
        match outcome {
          case Archived(_, _, _) => report := report.(archived := report.archived + [sequence]);
          case AlreadyArchived(_) => report := report.(already := report.already + [sequence]);
          case Deferred(_, reason) =>
            report := report.(deferred := report.deferred + [(sequence, reason)]);
            break;
          case Failed(_, reason) =>
            report := report.(failed := report.failed + [(sequence, reason)]);
            i := i + 1;
            continue;
        }
        if release {
          var freed := source.Release(sequence, reply.releaseFault);
          if freed.Ok? {
            report := report.(released := report.released + [(sequence, freed.value)],
                              freedBytes := report.freedBytes + freed.value);
          }
        }
        i := i + 1;
      }
      gaps := sweep.manifest.Gaps();
    }
  }

  // ----- restoring -----

  datatype RestoreError = Gap(missing: nat) | Io(detail: string) | RoundTripFailed(sequence: nat)

  /** Fetch and check from one sequence on, stopping at the first failure. */
  function RestoreFrom(m: Segments, from: nat, fetched: seq<Result<Content, string>>, hash: Hash)
    : Result<seq<Content>, RestoreError>
    requires forall s :: from <= s < from + |fetched| ==> s in m
    decreases |fetched|
  {
    if fetched == [] then Ok([])
    else if fetched[0].Err? then Err(Io(fetched[0].error))
    else if hash(fetched[0].value) != m[from].digest then Err(RoundTripFailed(from))
    else
      var rest := RestoreFrom(m, from + 1, fetched[1..], hash);
      if rest.Ok? then Ok([fetched[0].value] + rest.value) else rest
  }

  predicate LeastMissing(m: Segments, through: nat, s: nat) {
    s <= through && s !in m && forall j :: 0 <= j < s ==> j in m
  }

  lemma LeastMissingUnique(m: Segments, through: nat, s: nat)
    requires LeastMissing(m, through, s)
    ensures FirstMissing(m, 0, through) == Some(s)
  {
    MissingFrom(m, 0, through, s);
  }

  function FirstMissing(m: Segments, from: nat, through: nat): Option<nat>
    decreases through + 1 - from
  {
    if from > through then None else if from !in m then Some(from) else FirstMissing(m, from + 1, through)
  }

  lemma {:induction false} MissingFrom(m: Segments, from: nat, through: nat, s: nat)
    requires from <= s && LeastMissing(m, through, s)
    ensures FirstMissing(m, from, through) == Some(s)
    decreases s - from
  {
    if from < s {
      MissingFrom(m, from + 1, through, s);
    }
  }

  lemma {:induction false} NothingMissing(m: Segments, from: nat, through: nat)
    ensures FirstMissing(m, from, through).None? <==> forall s :: from <= s <= through ==> s in m
    ensures FirstMissing(m, from, through).Some? ==>
              var s := FirstMissing(m, from, through).value;
              from <= s <= through && s !in m && forall j :: from <= j < s ==> j in m
    decreases through + 1 - from
  {
    if from <= through && from in m {
      NothingMissing(m, from + 1, through);
    }
  }

  function RestoreOf(m: Segments, through: nat, directory: Result<(), string>, fetched: seq<Result<Content, string>>,
                     hash: Hash)
    : Result<seq<Content>, RestoreError>
    requires |fetched| == through + 1
  {
    NothingMissing(m, 0, through);
    if FirstMissing(m, 0, through).Some? then Err(Gap(FirstMissing(m, 0, through).value))
    else if directory.Err? then Err(Io(directory.error))
    else RestoreFrom(m, 0, fetched, hash)
  }

  lemma {:induction false} RestoreFromChecks(m: Segments, from: nat, fetched: seq<Result<Content, string>>, hash: Hash)
    requires forall s :: from <= s < from + |fetched| ==> s in m
    ensures var r := RestoreFrom(m, from, fetched, hash);
            r.Ok? ==> |r.value| == |fetched|
                      && forall i :: 0 <= i < |fetched| ==>
                         fetched[i] == Ok(r.value[i]) && hash(r.value[i]) == m[from + i].digest
    ensures (forall i :: 0 <= i < |fetched| ==> fetched[i].Ok? && hash(fetched[i].value) == m[from + i].digest)
            ==> RestoreFrom(m, from, fetched, hash).Ok?
    decreases |fetched|
  {
    if fetched != [] {
      RestoreFromChecks(m, from + 1, fetched[1..], hash);
      if forall i :: 0 <= i < |fetched| ==> fetched[i].Ok? && hash(fetched[i].value) == m[from + i].digest {
        forall i | 0 <= i < |fetched[1..]|
          ensures fetched[1..][i].Ok? && hash(fetched[1..][i].value) == m[from + 1 + i].digest
        {
          assert fetched[1..][i] == fetched[i + 1];
        }
      }
      var r := RestoreFrom(m, from, fetched, hash);
      if r.Ok? {
        forall i | 0 <= i < |fetched| ensures fetched[i] == Ok(r.value[i]) && hash(r.value[i]) == m[from + i].digest {
          if i > 0 {
            assert fetched[i] == fetched[1..][i - 1];
          }
        }
      }
    }
  }

  /** A restore yields every segment from zero, in order and with its recorded digest, or an
      error; a gap error names the least missing segment; and it succeeds exactly when nothing
      is missing and every fetch returns bytes with the recorded digest. */
  lemma RestoreIsAllOrError(m: Segments, through: nat, directory: Result<(), string>,
                            fetched: seq<Result<Content, string>>, hash: Hash)
    requires |fetched| == through + 1
    ensures var r := RestoreOf(m, through, directory, fetched, hash);
            && (r.Ok? <==> Whole(m, through) && directory.Ok?
                           && forall i :: 0 <= i <= through ==> fetched[i].Ok? && hash(fetched[i].value) == m[i].digest)
            && (r.Ok? ==> |r.value| == through + 1
                          && forall i :: 0 <= i <= through ==> i in m && hash(r.value[i]) == m[i].digest)
            && ((r.Err? && r.error.Gap?) <==> !Whole(m, through))
            && (r.Err? && r.error.Gap? ==> LeastMissing(m, through, r.error.missing))
  {
    NothingMissing(m, 0, through);
    if Whole(m, through) {
      RestoreFromChecks(m, 0, fetched, hash);
      NoGapOnceWhole(m, 0, fetched, hash);
    }
  }

  lemma {:induction false} NoGapOnceWhole(m: Segments, from: nat, fetched: seq<Result<Content, string>>, hash: Hash)
    requires forall s :: from <= s < from + |fetched| ==> s in m
    ensures var r := RestoreFrom(m, from, fetched, hash); r.Err? ==> !r.error.Gap?
    decreases |fetched|
  {
    if fetched != [] {
      NoGapOnceWhole(m, from + 1, fetched[1..], hash);
    }
  }
}
