/** The log store: an index of entries by hash, the heads of its branches, and the walks over it. */
module LogStore {
  import opened Prelude
  import opened LogChain

  /** Entries with the same hash have the same parent. */
  ghost predicate NamesParents<O(!new), A(!new)>(log: seq<LogEntry<O, A>>, hash: Hasher<O, A>) {
    forall i, j :: 0 <= i < |log| && 0 <= j < |log| && hash(log[i]) == hash(log[j]) ==>
      log[i].prevHash == log[j].prevHash
  }

  /** The entries of a log are such, when the hash function tells them apart. */
  lemma EntryHashesNameParents<O(!new), A(!new)>(log: seq<LogEntry<O, A>>, codec: Codec<O, A>)
    requires NoForgery(log, log, codec) && AllWritable(log, codec)
    ensures NamesParents(log, HasherOf(codec))
  {
    forall i, j | 0 <= i < |log| && 0 <= j < |log| && HashOf(log[i], codec) == HashOf(log[j], codec)
      ensures log[i].prevHash == log[j].prevHash
    {
      HashCommits(log[i], log[j], codec);
    }
  }

  /** The parent of the entry at a position is nothing, or some entry before it. */
  ghost predicate LinkedAt<O(!new), A(!new)>(entries: seq<LogEntry<O, A>>, i: nat, parent: ContentHash,
                                             hash: Hasher<O, A>)
    requires i <= |entries|
  {
    parent == ZERO || exists j :: 0 <= j < i && hash(entries[j]) == parent
  }

  ghost predicate Linked<O(!new), A(!new)>(entries: seq<LogEntry<O, A>>, hash: Hasher<O, A>) {
    forall i :: 0 <= i < |entries| ==> LinkedAt(entries, i, entries[i].prevHash, hash)
  }

  function HashesOf<O, A>(entries: seq<LogEntry<O, A>>, n: nat, hash: Hasher<O, A>): set<ContentHash>
    requires n <= |entries|
  {
    if n == 0 then {} else HashesOf(entries, n - 1, hash) + {hash(entries[n - 1])}
  }

  lemma {:induction false} HashesOfExactly<O, A>(entries: seq<LogEntry<O, A>>, n: nat, x: ContentHash,
                                                 hash: Hasher<O, A>)
    requires n <= |entries|
    ensures x in HashesOf(entries, n, hash) <==> exists j :: 0 <= j < n && hash(entries[j]) == x
  {
    if n > 0 {
      HashesOfExactly(entries, n - 1, x, hash);
    }
  }

  /** Replay a whole log and check every link: the number of entries, or the first commit that
      does not chain. */
  method VerifyChain<O(!new), A(!new)>(entries: seq<LogEntry<O, A>>,
                                       hash: Hasher<O, A>) returns (r: Result<nat, uint64>)
    ensures r.Ok? <==> Linked(entries, hash)
    ensures r.Ok? ==> r.value == |entries|
    ensures r.Err? ==> exists i :: 0 <= i < |entries| && r.error == entries[i].commitId
                                  && !LinkedAt(entries, i, entries[i].prevHash, hash)
                                  && forall j :: 0 <= j < i ==> LinkedAt(entries, j, entries[j].prevHash, hash)
  {
    var seen: set<ContentHash> := {};
    for i := 0 to |entries|
      invariant seen == HashesOf(entries, i, hash)
      invariant forall j :: 0 <= j < i ==> LinkedAt(entries, j, entries[j].prevHash, hash)
    {
      HashesOfExactly(entries, i, entries[i].prevHash, hash);
      if entries[i].prevHash != ZERO && entries[i].prevHash !in seen {
        return Err(entries[i].commitId);
      }
      seen := seen + {hash(entries[i])};
    }
    r := Ok(|entries|);
  }

  // ----- what a replay notices -----

  /** Only the entry at a position has its hash. */
  ghost predicate OnlyAt<O(!new), A(!new)>(entries: seq<LogEntry<O, A>>, i: nat, hash: Hasher<O, A>)
    requires i < |entries|
  {
    forall j :: 0 <= j < |entries| && j != i ==> hash(entries[j]) != hash(entries[i])
  }

  ghost predicate HasSuccessor<O(!new), A(!new)>(entries: seq<LogEntry<O, A>>, i: nat, hash: Hasher<O, A>)
    requires i < |entries|
  {
    exists k :: i < k < |entries| && entries[k].prevHash == hash(entries[i])
  }

  lemma LinkedElsewhere<O(!new), A(!new)>(before: seq<LogEntry<O, A>>, after: seq<LogEntry<O, A>>, i: nat, k: nat,
                                          hash: Hasher<O, A>)
    requires i < k < |before| == |after| && before[..i] == after[..i]
    requires forall j :: i < j < |before| ==> before[j] == after[j]
    requires LinkedAt(before, k, before[k].prevHash, hash) && before[k].prevHash != hash(before[i])
    ensures LinkedAt(after, k, after[k].prevHash, hash)
  {
    if before[k].prevHash != ZERO {
      var j :| 0 <= j < k && hash(before[j]) == before[k].prevHash;
      assert j < i ==> before[..i][j] == after[..i][j];
      assert hash(after[j]) == after[k].prevHash;
    }
  }

  /** An entry replaced by one with another hash goes unnoticed exactly when no later entry names
      the one it replaces, and it names a parent of its own that is there: an edit to an entry with
      a successor is always noticed, and one to the last entry of a branch never need be. */
  lemma EditDetectedExactly<O(!new), A(!new)>(entries: seq<LogEntry<O, A>>, i: nat, edited: LogEntry<O, A>,
                                              hash: Hasher<O, A>)
    requires Linked(entries, hash) && i < |entries| && OnlyAt(entries, i, hash)
    requires hash(entries[i]) != ZERO && hash(edited) != hash(entries[i])
    ensures Linked(entries[i := edited], hash)
            <==> !HasSuccessor(entries, i, hash) && LinkedAt(entries, i, edited.prevHash, hash)
  {
    var after := entries[i := edited];
    assert after[..i] == entries[..i];
    if Linked(after, hash) {
      assert LinkedAt(after, i, after[i].prevHash, hash);
      if edited.prevHash != ZERO {
        var j :| 0 <= j < i && hash(after[j]) == edited.prevHash;
        assert hash(entries[j]) == edited.prevHash;
      }
      forall k | i < k < |entries| ensures entries[k].prevHash != hash(entries[i]) {
        assert LinkedAt(after, k, after[k].prevHash, hash);
      }
    }
    if !HasSuccessor(entries, i, hash) && LinkedAt(entries, i, edited.prevHash, hash) {
      forall k | 0 <= k < |after| ensures LinkedAt(after, k, after[k].prevHash, hash) {
        if k > i {
          assert LinkedAt(entries, k, entries[k].prevHash, hash);
          LinkedElsewhere(entries, after, i, k, hash);
        } else {
          PrefixLinks(entries, after, i, k, edited, hash);
        }
      }
    }
  }

  lemma PrefixLinks<O(!new), A(!new)>(entries: seq<LogEntry<O, A>>, after: seq<LogEntry<O, A>>, i: nat, k: nat,
                                      edited: LogEntry<O, A>, hash: Hasher<O, A>)
    requires k <= i < |entries| && after == entries[i := edited] && Linked(entries, hash)
    requires LinkedAt(entries, i, edited.prevHash, hash)
    ensures LinkedAt(after, k, after[k].prevHash, hash)
  {
    var parent := after[k].prevHash;
    assert LinkedAt(entries, k, parent, hash);
    if parent != ZERO {
      var j :| 0 <= j < k && hash(entries[j]) == parent;
      assert after[j] == entries[j];
    }
  }

  /** Entries cut off the end go unnoticed. */
  lemma TruncationGoesUnnoticed<O(!new), A(!new)>(entries: seq<LogEntry<O, A>>, n: nat, hash: Hasher<O, A>)
    requires Linked(entries, hash) && n <= |entries|
    ensures Linked(entries[..n], hash)
  {
    forall i | 0 <= i < n ensures LinkedAt(entries[..n], i, entries[..n][i].prevHash, hash) {
      assert LinkedAt(entries, i, entries[i].prevHash, hash);
      if entries[i].prevHash != ZERO {
        var j :| 0 <= j < i && hash(entries[j]) == entries[i].prevHash;
        assert entries[..n][j] == entries[j];
      }
    }
  }

  // ----- the index -----

  type Index<O, A> = map<ContentHash, LogEntry<O, A>>

  /** Every entry of the index is one that was appended, under its hash. */
  ghost predicate Indexes<O(!new), A(!new)>(entries: Index<O, A>, log: seq<LogEntry<O, A>>, hash: Hasher<O, A>) {
    forall x :: x in entries ==> entries[x] in log && hash(entries[x]) == x
  }

  ghost predicate Stored<O(!new), A(!new)>(walked: seq<LogEntry<O, A>>, entries: Index<O, A>, hash: Hasher<O, A>) {
    forall i :: 0 <= i < |walked| ==> hash(walked[i]) in entries && entries[hash(walked[i])] == walked[i]
  }

  /** The hash a walk stops at: the parent of its oldest entry. */
  function Bottom<O, A>(walked: seq<LogEntry<O, A>>, head: ContentHash): ContentHash {
    if walked == [] then head else walked[0].prevHash
  }

  /** A walk from a head through the index, oldest first, as far down as the index goes. */
  ghost predicate IsWalk<O(!new), A(!new)>(walked: seq<LogEntry<O, A>>, head: ContentHash, entries: Index<O, A>,
                                           hash: Hasher<O, A>) {
    && Stored(walked, entries, hash)
    && (forall i :: 0 < i < |walked| ==> walked[i].prevHash == hash(walked[i - 1]))
    && (walked != [] ==> hash(walked[|walked| - 1]) == head)
    && (Bottom(walked, head) == ZERO || Bottom(walked, head) !in entries)
  }

  lemma WalkStarts<O(!new), A(!new)>(walked: seq<LogEntry<O, A>>, head: ContentHash, entries: Index<O, A>,
                                     hash: Hasher<O, A>)
    requires ZERO !in entries && IsWalk(walked, head, entries, hash)
    ensures walked == [] <==> head == ZERO || head !in entries
    ensures walked != [] ==> walked[|walked| - 1] == entries[head]
  {}

  /** There is one walk from a head. */
  lemma {:induction false} WalkUnique<O(!new), A(!new)>(a: seq<LogEntry<O, A>>, b: seq<LogEntry<O, A>>,
                                                        head: ContentHash, entries: Index<O, A>, hash: Hasher<O, A>)
    requires ZERO !in entries && IsWalk(a, head, entries, hash) && IsWalk(b, head, entries, hash)
    ensures a == b
    decreases |a|
  {
    WalkStarts(a, head, entries, hash);
    WalkStarts(b, head, entries, hash);
    if a != [] {
      ShorterWalk(a, head, entries, hash);
      ShorterWalk(b, head, entries, hash);
      WalkUnique(a[..|a| - 1], b[..|b| - 1], entries[head].prevHash, entries, hash);
      assert a == a[..|a| - 1] + [entries[head]] && b == b[..|b| - 1] + [entries[head]];
    }
  }

  lemma ShorterWalk<O(!new), A(!new)>(walked: seq<LogEntry<O, A>>, head: ContentHash, entries: Index<O, A>,
                                      hash: Hasher<O, A>)
    requires IsWalk(walked, head, entries, hash) && walked != []
    ensures IsWalk(walked[..|walked| - 1], walked[|walked| - 1].prevHash, entries, hash)
  {}

  /** A whole history that is stored is what a walk from its head returns. */
  lemma HistoryIsWalk<O(!new), A(!new)>(history: seq<LogEntry<O, A>>, entries: Index<O, A>, hash: Hasher<O, A>)
    requires IsChain(history, hash) && Stored(history, entries, hash)
    ensures IsWalk(history, Head(history, hash), entries, hash)
  {}

  lemma HistoryGrows<O(!new), A(!new)>(history: seq<LogEntry<O, A>>, entry: LogEntry<O, A>, entries: Index<O, A>,
                                       hash: Hasher<O, A>)
    requires hash(entry) !in entries && entry.prevHash == Head(history, hash)
    requires IsChain(history, hash) && Stored(history, entries, hash)
    ensures IsWalk(history + [entry], hash(entry), entries[hash(entry) := entry], hash)
  {
    var after, longer := entries[hash(entry) := entry], history + [entry];
    assert IsChain(longer, hash) && Head(longer, hash) == hash(entry);
    forall i | 0 <= i < |longer| ensures hash(longer[i]) in after && after[hash(longer[i])] == longer[i] {}
    HistoryIsWalk(longer, after, hash);
  }

  /** Appending on a branch adds one entry to that branch's history and changes no other. */
  lemma AppendExtendsOneHistory<O(!new), A(!new)>(history: seq<LogEntry<O, A>>, other: seq<LogEntry<O, A>>,
                                                  entry: LogEntry<O, A>, entries: Index<O, A>,
                                                  walked: seq<LogEntry<O, A>>, walkedOther: seq<LogEntry<O, A>>,
                                                  hash: Hasher<O, A>)
    requires ZERO !in entries && hash(entry) != ZERO && hash(entry) !in entries
    requires IsChain(history, hash) && Stored(history, entries, hash) && entry.prevHash == Head(history, hash)
    requires IsChain(other, hash) && Stored(other, entries, hash)
    requires IsWalk(walked, hash(entry), entries[hash(entry) := entry], hash)
    requires IsWalk(walkedOther, Head(other, hash), entries[hash(entry) := entry], hash)
    ensures walked == history + [entry] && walkedOther == other
  {
    var after := entries[hash(entry) := entry];
    HistoryGrows(history, entry, entries, hash);
    HistoryIsWalk(other, after, hash);
    WalkUnique(walked, history + [entry], hash(entry), after, hash);
    WalkUnique(walkedOther, other, Head(other, hash), after, hash);
  }

  datatype AppendError =
    | HeadMoved(actual: ContentHash)
    | NotDurable(reason: string)
    | NotCheckpointed(reason: string)

  class Store<O(!new), A(!new)> {
    const hash: Hasher<O, A>
    const checkpointInterval: uint64
    var entries: Index<O, A>
    var heads: map<uint64, ContentHash>
    var sinceCheckpoint: nat

    /** Every entry ever appended, whether or not the index still has it. */
    ghost var log: seq<LogEntry<O, A>>

    ghost predicate Valid()
      reads this
    {
      Indexes(entries, log, hash)
    }

    /** Every parent ever named, and every head, is nothing or an earlier entry. */
    ghost predicate Rooted()
      reads this
    {
      Linked(log, hash) && forall b :: b in heads ==> LinkedAt(log, |log|, heads[b], hash)
    }

    constructor (hash: Hasher<O, A>, checkpointInterval: uint64)
      ensures Valid() && Rooted() && this.hash == hash && this.checkpointInterval == checkpointInterval
      ensures entries == map[] && heads == map[] && log == [] && sinceCheckpoint == 0
      ensures forall b :: HeadOf(b) == ZERO
    {
      this.hash, this.checkpointInterval := hash, checkpointInterval;
      entries, heads, log, sinceCheckpoint := map[], map[], [], 0;
    }

    function HeadOf(branch: uint64): ContentHash
      reads this
    {
      if branch in heads then heads[branch] else ZERO
    }

    /** Refused unless it names the branch's head; durable before it is visible. When it is the
        checkpoint that fails, the caller is told so although the entry is visible. */
    method Append(entry: LogEntry<O, A>, fault: Option<string>, checkpointFault: Option<string>)
      returns (r: Result<ContentHash, AppendError>)
      requires Valid()
      modifies this
      ensures Valid() && (old(Rooted()) ==> Rooted())
      ensures var current := entry.prevHash == old(HeadOf(entry.branchId));
              var due := old(sinceCheckpoint) + 1 >= checkpointInterval;
              && (r.Ok? <==> current && fault.None? && !(due && checkpointFault.Some?))
              && (r.Ok? ==> r.value == hash(entry))
              && (!current ==> r == Err(HeadMoved(old(HeadOf(entry.branchId)))))
              && (current && fault.Some? ==> r == Err(NotDurable(fault.value)))
              && (current && fault.None? && r.Err? ==> r == Err(NotCheckpointed(checkpointFault.value)))
              && (if current && fault.None? then
                    && entries == old(entries)[hash(entry) := entry]
                    && heads == old(heads)[entry.branchId := hash(entry)]
                    && HeadOf(entry.branchId) == hash(entry)
                    && log == old(log) + [entry]
                    && sinceCheckpoint == (if due && checkpointFault.None? then 0 else old(sinceCheckpoint) + 1)
                  else
                    entries == old(entries) && heads == old(heads) && log == old(log)
                    && sinceCheckpoint == old(sinceCheckpoint))
      ensures forall b :: b != entry.branchId ==> HeadOf(b) == old(HeadOf(b))
    {
      var expected := HeadOf(entry.branchId);
      if entry.prevHash != expected {
        return Err(HeadMoved(expected));
      }
      if fault.Some? {
        return Err(NotDurable(fault.value));
      }
      var id := hash(entry);
      ghost var rooted := Rooted();
      if rooted {
        AppendLinks(log, entry, hash);
        forall b | b in heads ensures LinkedAt(log + [entry], |log| + 1, heads[b], hash) {
          LaterLinks(log, entry, heads[b], hash);
        }
      }
      entries, heads, log := entries[id := entry], heads[entry.branchId := id], log + [entry];
      sinceCheckpoint := sinceCheckpoint + 1;
      assert log[|log| - 1] == entry;
      if sinceCheckpoint >= checkpointInterval {
        if checkpointFault.Some? {
          return Err(NotCheckpointed(checkpointFault.value));
        }
        sinceCheckpoint := 0;
      }
      r := Ok(id);
    }

    /** Point a branch at a commit, whichever it is: what was rooted stays so exactly when the
        commit is nothing, or one that was appended. */
    method SetHead(branch: uint64, head: ContentHash)
      requires Valid()
      modifies this`heads
      ensures Valid() && heads == old(heads)[branch := head]
      ensures forall b :: HeadOf(b) == if b == branch then head else old(HeadOf(b))
      ensures old(Rooted()) ==> (Rooted() <==> LinkedAt(log, |log|, head, hash))
    {
      heads := heads[branch := head];
      assert heads[branch] == head;
    }

    /** A branch's entries, oldest first: walked back from its head until nothing, or until the
        index has no more. The walk ends because a hash names its parent. */
    method Chain(branch: uint64) returns (walked: seq<LogEntry<O, A>>)
      requires Valid() && Rooted() && NamesParents(log, hash)
      ensures IsWalk(walked, HeadOf(branch), entries, hash)
    {
      walked := [];
      var cursor := HeadOf(branch);
      ghost var bound: nat := |log|;
      while cursor != ZERO && cursor in entries
        invariant bound <= |log| && LinkedAt(log, bound, cursor, hash)
        invariant Stored(walked, entries, hash) && cursor == Bottom(walked, HeadOf(branch))
        invariant forall i :: 0 < i < |walked| ==> walked[i].prevHash == hash(walked[i - 1])
        invariant walked != [] ==> hash(walked[|walked| - 1]) == HeadOf(branch)
        decreases bound
      {
        var entry := entries[cursor];
        ghost var j := ParentIsEarlier(log, entries, cursor, bound, hash);
        WalkGrows(walked, entry, entries, hash);
        cursor, bound, walked := entry.prevHash, j, [entry] + walked;
      }
    }
  }

  /** The parent of an entry of the index is nothing, or appended before the entry was. */
  lemma ParentIsEarlier<O(!new), A(!new)>(log: seq<LogEntry<O, A>>, entries: Index<O, A>, cursor: ContentHash,
                                          bound: nat, hash: Hasher<O, A>) returns (j: nat)
    requires Linked(log, hash) && Indexes(entries, log, hash) && NamesParents(log, hash)
    requires bound <= |log| && LinkedAt(log, bound, cursor, hash) && cursor != ZERO && cursor in entries
    ensures j < bound && LinkedAt(log, j, entries[cursor].prevHash, hash)
  {
    j :| 0 <= j < bound && hash(log[j]) == cursor;
    var i :| 0 <= i < |log| && log[i] == entries[cursor];
    assert log[i].prevHash == log[j].prevHash;
    assert LinkedAt(log, j, log[j].prevHash, hash);
  }

  lemma WalkGrows<O(!new), A(!new)>(walked: seq<LogEntry<O, A>>, entry: LogEntry<O, A>, entries: Index<O, A>,
                                    hash: Hasher<O, A>)
    requires Stored(walked, entries, hash) && hash(entry) in entries && entries[hash(entry)] == entry
    requires walked != [] ==> walked[0].prevHash == hash(entry)
    requires forall i :: 0 < i < |walked| ==> walked[i].prevHash == hash(walked[i - 1])
    ensures var longer := [entry] + walked;
            && Stored(longer, entries, hash)
            && (forall i :: 0 < i < |longer| ==> longer[i].prevHash == hash(longer[i - 1]))
            && longer[|longer| - 1] == (if walked == [] then entry else walked[|walked| - 1])
  {
    var longer := [entry] + walked;
    forall i | 0 < i < |longer| ensures longer[i].prevHash == hash(longer[i - 1]) {
      assert longer[i] == walked[i - 1];
      assert i > 1 ==> longer[i - 1] == walked[i - 2];
    }
  }

  lemma LaterLinks<O(!new), A(!new)>(log: seq<LogEntry<O, A>>, entry: LogEntry<O, A>, parent: ContentHash,
                                     hash: Hasher<O, A>)
    requires LinkedAt(log, |log|, parent, hash)
    ensures LinkedAt(log + [entry], |log| + 1, parent, hash)
  {
    if parent != ZERO {
      var j :| 0 <= j < |log| && hash(log[j]) == parent;
      assert (log + [entry])[j] == log[j];
    }
  }

  lemma AppendLinks<O(!new), A(!new)>(log: seq<LogEntry<O, A>>, entry: LogEntry<O, A>, hash: Hasher<O, A>)
    requires Linked(log, hash) && LinkedAt(log, |log|, entry.prevHash, hash)
    ensures Linked(log + [entry], hash)
    ensures LinkedAt(log + [entry], |log| + 1, hash(entry), hash)
  {
    var longer := log + [entry];
    forall i | 0 <= i < |longer| ensures LinkedAt(longer, i, longer[i].prevHash, hash) {
      var parent := longer[i].prevHash;
      assert LinkedAt(log, i, parent, hash);
      if parent != ZERO {
        var j :| 0 <= j < i && hash(log[j]) == parent;
        assert longer[j] == log[j];
      }
    }
    assert longer[|log|] == entry;
  }
}
