/** Revocation lists, and a replica that receives them late, twice, out of order or not at all. */
module Revocation {
  import opened Prelude

  datatype TokenScope = TokenScope(tokenId: string, sessionId: string, userId: string, orgId: string)

  /** What a list says at one moment: what is sent to the instances. */
  datatype Revocations = Revocations(version: nat, tokens: set<string>, sessions: set<string>, users: set<string>,
    orgs: set<string>)

  const NOTHING_REVOKED := Revocations(0, {}, {}, {}, {})

  predicate Covers(list: Revocations, scope: TokenScope) {
    || scope.tokenId in list.tokens
    || scope.sessionId in list.sessions
    || scope.userId in list.users
    || scope.orgId in list.orgs
  }

  // ----- the control plane's list -----

  datatype Change =
    | RevokeToken(id: string)
    | RevokeSession(id: string)
    | RevokeUser(id: string)
    | RevokeOrg(id: string)
    | Compact(dropped: set<string>)

  function After(list: Revocations, change: Change): Revocations {
    match change
    case RevokeToken(id) => list.(tokens := list.tokens + {id}, version := list.version + 1)
    case RevokeSession(id) => list.(sessions := list.sessions + {id}, version := list.version + 1)
    case RevokeUser(id) => list.(users := list.users + {id}, version := list.version + 1)
    case RevokeOrg(id) => list.(orgs := list.orgs + {id}, version := list.version + 1)
    case Compact(dropped) => list.(tokens := list.tokens - dropped)
  }

  /** The list after the first `n` changes of a history. */
  function ListAt(history: seq<Change>, n: nat): Revocations
    requires n <= |history|
  {
    if n == 0 then NOTHING_REVOKED else After(ListAt(history, n - 1), history[n - 1])
  }

  class RevocationList {
    var version: nat
    var tokens: set<string>
    var sessions: set<string>
    var users: set<string>
    var orgs: set<string>

    constructor ()
      ensures Value() == NOTHING_REVOKED
    {
      version, tokens, sessions, users, orgs := 0, {}, {}, {}, {};
    }

    function Value(): Revocations
      reads this
    {
      Revocations(version, tokens, sessions, users, orgs)
    }

    method Token(id: string)
      modifies this
      ensures Value() == After(old(Value()), RevokeToken(id))
    {
      tokens, version := tokens + {id}, version + 1;
    }

    method Session(id: string)
      modifies this
      ensures Value() == After(old(Value()), RevokeSession(id))
    {
      sessions, version := sessions + {id}, version + 1;
    }

    method User(id: string)
      modifies this
      ensures Value() == After(old(Value()), RevokeUser(id))
    {
      users, version := users + {id}, version + 1;
    }

    method Org(id: string)
      modifies this
      ensures Value() == After(old(Value()), RevokeOrg(id))
    {
      orgs, version := orgs + {id}, version + 1;
    }

    /** Keeps the tokens still relevant. The version stays as it is. */
    method Retain(stillRelevant: string -> bool)
      modifies this`tokens
      ensures Value() == After(old(Value()), Compact(set id | id in old(tokens) && !stillRelevant(id)))
    {
      tokens := set id | id in tokens && stillRelevant(id);
    }
  }

  // ----- a replica -----

  datatype Decision = Allowed | Revoked | Stale(ageMs: int, limitMs: int)

  datatype Replica = Replica(list: Revocations, lastSyncedMs: Option<int64>, limitMs: int64)

  function Awaiting(limitMs: int64): Replica {
    Replica(NOTHING_REVOKED, None, limitMs)
  }

  function AgeMs(r: Replica, nowMs: int64): int {
    match r.lastSyncedMs
    case Some(at) => Max(nowMs - at, 0)
    case None => I64_MAX
  }

  function Check(r: Replica, scope: TokenScope, nowMs: int64): Decision {
    if Covers(r.list, scope) then Revoked
    else if AgeMs(r, nowMs) > r.limitMs then Stale(AgeMs(r, nowMs), r.limitMs)
    else Allowed
  }

  function Accept(r: Replica, update: Revocations, nowMs: int64): Replica {
    if update.version < r.list.version then r.(lastSyncedMs := Some(nowMs))
    else r.(list := update, lastSyncedMs := Some(nowMs))
  }

  class RevocationSync {
    var list: Revocations
    var lastSyncedMs: Option<int64>
    const stalenessLimitMs: int64

    constructor AwaitingFirstSync(limitMs: int64)
      ensures Value() == Awaiting(limitMs)
    {
      list, lastSyncedMs, stalenessLimitMs := NOTHING_REVOKED, None, limitMs;
    }

    function Value(): Replica
      reads this
    {
      Replica(list, lastSyncedMs, stalenessLimitMs)
    }

    method Apply(update: Revocations, nowMs: int64) returns (applied: bool)
      modifies this
      ensures Value() == Accept(old(Value()), update, nowMs)
      ensures applied <==> update.version >= old(list.version)
    {
      if update.version < list.version {
        // An old list is not applied, but counts as having been heard from.
        lastSyncedMs := Some(nowMs);
        return false;
      }
      list := update;
      lastSyncedMs := Some(nowMs);
      applied := true;
    }

    method Heartbeat(nowMs: int64)
      modifies this
      ensures Value() == old(Value()).(lastSyncedMs := Some(nowMs))
    {
      lastSyncedMs := Some(nowMs);
    }

    method Decide(scope: TokenScope, nowMs: int64) returns (decision: Decision)
      ensures decision == Check(Value(), scope, nowMs)
    {
      if Covers(list, scope) {
        return Revoked;
      }
      var age := AgeMs(Value(), nowMs);
      if age > stalenessLimitMs {
        return Stale(age, stalenessLimitMs);
      }
      decision := Allowed;
    }
  }

  // ----- every run of a replica -----

  /** The list after some prefix of the history arrives, whatever arrived before; or a heartbeat. */
  datatype Event = Delivery(n: nat, atMs: int64) | Heard(atMs: int64)

  predicate FromHistory(events: seq<Event>, history: seq<Change>) {
    forall i :: 0 <= i < |events| && events[i].Delivery? ==> events[i].n <= |history|
  }

  function Step(r: Replica, e: Event, history: seq<Change>): Replica
    requires e.Delivery? ==> e.n <= |history|
  {
    match e
    case Delivery(n, atMs) => Accept(r, ListAt(history, n), atMs)
    case Heard(atMs) => r.(lastSyncedMs := Some(atMs))
  }

  function Run(r: Replica, events: seq<Event>, history: seq<Change>): Replica
    requires FromHistory(events, history)
  {
    if events == [] then r
    else Step(Run(r, events[..|events| - 1], history), events[|events| - 1], history)
  }

  lemma {:induction false} RunAppend(r: Replica, a: seq<Event>, b: seq<Event>, history: seq<Change>)
    requires FromHistory(a, history) && FromHistory(b, history)
    ensures FromHistory(a + b, history) && Run(r, a + b, history) == Run(Run(r, a, history), b, history)
  {
    if b == [] {
      assert a + b == a;
    } else {
      var shorter := b[..|b| - 1];
      RunAppend(r, a, shorter, history);
      assert (a + b)[..|a + b| - 1] == a + shorter;
    }
  }

  // ----- what one history's lists have in common -----

  /** A later list has a version no lower, and has lost nothing but compacted tokens. */
  lemma {:induction false} ListsGrow(history: seq<Change>, m: nat, n: nat)
    requires m <= n <= |history|
    ensures var a, b := ListAt(history, m), ListAt(history, n);
            && a.version <= b.version
            && a.sessions <= b.sessions && a.users <= b.users && a.orgs <= b.orgs
            && (a.version == b.version ==> a.sessions == b.sessions && a.users == b.users && a.orgs == b.orgs)
  {
    if m < n {
      ListsGrow(history, m, n - 1);
    }
  }

  /** No compaction of the history drops a token. */
  predicate NeverDropped(history: seq<Change>, tokenId: string) {
    forall i :: 0 <= i < |history| && history[i].Compact? ==> tokenId !in history[i].dropped
  }

  lemma {:induction false} TokenStays(history: seq<Change>, m: nat, n: nat, tokenId: string)
    requires m <= n <= |history| && NeverDropped(history, tokenId)
    ensures tokenId in ListAt(history, m).tokens ==> tokenId in ListAt(history, n).tokens
    ensures ListAt(history, m).version == ListAt(history, n).version ==>
              (tokenId in ListAt(history, m).tokens <==> tokenId in ListAt(history, n).tokens)
  {
    if m < n {
      TokenStays(history, m, n - 1, tokenId);
      ListsGrow(history, m, n - 1);
    }
  }

  /** Of two lists of one history, one that is not older in version has every session, user and
      organization of the other. */
  lemma NewerKeepsSets(history: seq<Change>, m: nat, n: nat)
    requires m <= |history| && n <= |history| && ListAt(history, m).version <= ListAt(history, n).version
    ensures var a, b := ListAt(history, m), ListAt(history, n);
            a.sessions <= b.sessions && a.users <= b.users && a.orgs <= b.orgs
  {
    if m <= n {
      ListsGrow(history, m, n);
    } else {
      ListsGrow(history, n, m);
    }
  }

  /** And every token of it that is never compacted away. */
  lemma NewerKeepsToken(history: seq<Change>, m: nat, n: nat, tokenId: string)
    requires m <= |history| && n <= |history| && ListAt(history, m).version <= ListAt(history, n).version
    requires NeverDropped(history, tokenId) && tokenId in ListAt(history, m).tokens
    ensures tokenId in ListAt(history, n).tokens
  {
    if m <= n {
      TokenStays(history, m, n, tokenId);
    } else {
      ListsGrow(history, n, m);
      TokenStays(history, n, m, tokenId);
    }
  }

  /** So it covers whatever the other covers, unless the scope's token has been compacted away. */
  lemma NewerCovers(history: seq<Change>, m: nat, n: nat, scope: TokenScope)
    requires m <= |history| && n <= |history| && ListAt(history, m).version <= ListAt(history, n).version
    requires Covers(ListAt(history, m), scope)
    requires scope.tokenId in ListAt(history, m).tokens ==> NeverDropped(history, scope.tokenId)
    ensures Covers(ListAt(history, n), scope)
  {
    NewerKeepsSets(history, m, n);
    if scope.tokenId in ListAt(history, m).tokens {
      NewerKeepsToken(history, m, n, scope.tokenId);
    }
  }

  /** A change names the scope's token, session, user or organization. */
  predicate Names(change: Change, scope: TokenScope) {
    match change
    case RevokeToken(id) => id == scope.tokenId
    case RevokeSession(id) => id == scope.sessionId
    case RevokeUser(id) => id == scope.userId
    case RevokeOrg(id) => id == scope.orgId
    case Compact(_) => false
  }

  /** No compaction among the changes from the `i`th to the `n`th drops a token. */
  predicate KeptSince(history: seq<Change>, i: nat, n: nat, tokenId: string)
    requires n <= |history|
  {
    forall j :: i <= j < n && history[j].Compact? ==> tokenId !in history[j].dropped
  }

  /** The first `n` changes of a history revoke a scope: one names it, and if that revoked a token
      no later one among them compacts it away. */
  predicate RevokedBy(history: seq<Change>, n: nat, scope: TokenScope)
    requires n <= |history|
  {
    exists i :: 0 <= i < n && Names(history[i], scope)
                && (history[i].RevokeToken? ==> KeptSince(history, i, n, scope.tokenId))
  }

  /** What each of a list's four sets holds, by the history alone. */
  lemma {:induction false} SetsAreHistory(history: seq<Change>, n: nat, id: string)
    requires n <= |history|
    ensures id in ListAt(history, n).sessions <==> exists i :: 0 <= i < n && history[i] == RevokeSession(id)
    ensures id in ListAt(history, n).users <==> exists i :: 0 <= i < n && history[i] == RevokeUser(id)
    ensures id in ListAt(history, n).orgs <==> exists i :: 0 <= i < n && history[i] == RevokeOrg(id)
    ensures id in ListAt(history, n).tokens
            <==> exists i :: 0 <= i < n && history[i] == RevokeToken(id) && KeptSince(history, i, n, id)
  {
    if n > 0 {
      SetsAreHistory(history, n - 1, id);
      if history[n - 1] == RevokeToken(id) {
        assert KeptSince(history, n - 1, n, id);
      }
    }
  }

  /** A list of the history covers a scope exactly when the changes it was made by revoke it. */
  lemma ListCoversExactly(history: seq<Change>, n: nat, scope: TokenScope)
    requires n <= |history|
    ensures Covers(ListAt(history, n), scope) <==> RevokedBy(history, n, scope)
  {
    SetsAreHistory(history, n, scope.tokenId);
    SetsAreHistory(history, n, scope.sessionId);
    SetsAreHistory(history, n, scope.userId);
    SetsAreHistory(history, n, scope.orgId);
  }

  // ----- what a replica holds -----

  /** The replica holds a list of the history that arrived, and none that arrived was newer. */
  ghost predicate HoldsNewest(r: Replica, events: seq<Event>, history: seq<Change>)
    requires FromHistory(events, history)
  {
    && (exists n :: 0 <= n <= |history| && r.list == ListAt(history, n) && (n == 0 || Delivered(events, n)))
    && (forall i :: 0 <= i < |events| && events[i].Delivery? ==> ListAt(history, events[i].n).version <= r.list.version)
  }

  predicate Delivered(events: seq<Event>, n: nat) {
    exists i :: 0 <= i < |events| && events[i].Delivery? && events[i].n == n
  }

  /** Whatever was lost, repeated or reordered. */
  lemma {:induction false} ReplicaHoldsNewest(limitMs: int64, events: seq<Event>, history: seq<Change>)
    requires FromHistory(events, history)
    ensures HoldsNewest(Run(Awaiting(limitMs), events, history), events, history)
  {
    if events == [] {
      assert ListAt(history, 0) == NOTHING_REVOKED;
    } else {
      var earlier, last := events[..|events| - 1], events[|events| - 1];
      ReplicaHoldsNewest(limitMs, earlier, history);
      var before, after := Run(Awaiting(limitMs), earlier, history), Run(Awaiting(limitMs), events, history);
      assert forall i :: 0 <= i < |earlier| ==> earlier[i] == events[i];
      if last.Delivery? && after.list == ListAt(history, last.n) {
        assert Delivered(events, last.n);
      } else {
        var n :| 0 <= n <= |history| && before.list == ListAt(history, n) && (n == 0 || Delivered(earlier, n));
        if n != 0 {
          var i :| 0 <= i < |earlier| && earlier[i].Delivery? && earlier[i].n == n;
          assert events[i].n == n;
        }
      }
    }
  }

  /** The version a replica holds never goes down, and sessions, users and orgs are never forgotten. */
  lemma ReplicaNeverGoesBack(limitMs: int64, a: seq<Event>, b: seq<Event>, history: seq<Change>)
    requires FromHistory(a, history) && FromHistory(b, history)
    ensures FromHistory(a + b, history)
    ensures var early, late := Run(Awaiting(limitMs), a, history).list, Run(Awaiting(limitMs), a + b, history).list;
            && early.version <= late.version
            && early.sessions <= late.sessions && early.users <= late.users && early.orgs <= late.orgs
  {
    var early, late := Run(Awaiting(limitMs), a, history).list, Run(Awaiting(limitMs), a + b, history).list;
    var m, n := TwoLists(limitMs, a, b, history);
    if m <= n {
      ListsGrow(history, m, n);
    } else {
      ListsGrow(history, n, m);
    }
  }

  lemma {:induction false} VersionGrows(r: Replica, events: seq<Event>, history: seq<Change>)
    requires FromHistory(events, history)
    ensures r.list.version <= Run(r, events, history).list.version
  {
    if events != [] {
      VersionGrows(r, events[..|events| - 1], history);
    }
  }

  lemma TwoLists(limitMs: int64, a: seq<Event>, b: seq<Event>, history: seq<Change>) returns (m: nat, n: nat)
    requires FromHistory(a, history) && FromHistory(b, history)
    ensures m <= |history| && n <= |history| && FromHistory(a + b, history)
    ensures Run(Awaiting(limitMs), a, history).list == ListAt(history, m)
    ensures Run(Awaiting(limitMs), a + b, history).list == ListAt(history, n)
    ensures ListAt(history, m).version <= ListAt(history, n).version
  {
    RunAppend(Awaiting(limitMs), a, b, history);
    VersionGrows(Run(Awaiting(limitMs), a, history), b, history);
    ReplicaHoldsNewest(limitMs, a, history);
    ReplicaHoldsNewest(limitMs, a + b, history);
    m :| 0 <= m <= |history| && Run(Awaiting(limitMs), a, history).list == ListAt(history, m);
    n :| 0 <= n <= |history| && Run(Awaiting(limitMs), a + b, history).list == ListAt(history, n);
  }

  /** Once a scope was refused as revoked it is never allowed again, unless it was its token that
      was revoked and a compaction dropped that token. */
  lemma RevokedStaysRevoked(limitMs: int64, a: seq<Event>, b: seq<Event>, history: seq<Change>, scope: TokenScope,
                            thenMs: int64, nowMs: int64)
    requires FromHistory(a, history) && FromHistory(b, history)
    requires Check(Run(Awaiting(limitMs), a, history), scope, thenMs) == Revoked
    requires scope.tokenId in Run(Awaiting(limitMs), a, history).list.tokens ==> NeverDropped(history, scope.tokenId)
    ensures FromHistory(a + b, history) && Check(Run(Awaiting(limitMs), a + b, history), scope, nowMs) == Revoked
  {
    var m, n := TwoLists(limitMs, a, b, history);
    NewerCovers(history, m, n, scope);
  }

  /** A compaction, once delivered, does let a token through again; and since it has no version
      of its own, a late delivery of the list before it takes it back. */
  lemma CompactionComesAndGoes(scope: TokenScope, atMs: int64)
    requires scope.tokenId == "t"
    ensures var history, limitMs := [RevokeToken("t"), Compact({"t"})], 0;
            var before, after, late := Delivery(1, atMs), Delivery(2, atMs), Delivery(1, atMs);
            && Check(Run(Awaiting(limitMs), [before], history), scope, atMs) == Revoked
            && Check(Run(Awaiting(limitMs), [before, after], history), scope, atMs) == Allowed
            && Check(Run(Awaiting(limitMs), [before, after, late], history), scope, atMs) == Revoked
  {
    var history := [RevokeToken("t"), Compact({"t"})];
    var before, after := Delivery(1, atMs), Delivery(2, atMs);
    assert [before][..0] == [] && [before, after][..1] == [before] && [before, after, before][..2] == [before, after];
    assert ListAt(history, 0) == NOTHING_REVOKED;
    assert ListAt(history, 1) == Revocations(1, {"t"}, {}, {}, {});
    assert ListAt(history, 2).tokens == {} && ListAt(history, 2).version == 1;
  }

  // ----- what being allowed means -----

  predicate HeardWithin(events: seq<Event>, nowMs: int64, limitMs: int64) {
    exists i :: 0 <= i < |events| && Max(nowMs - events[i].atMs, 0) <= limitMs
  }

  lemma {:induction false} LastSyncIsAnEvent(limitMs: int64, events: seq<Event>, history: seq<Change>)
    requires FromHistory(events, history)
    ensures var r := Run(Awaiting(limitMs), events, history);
            && r.limitMs == limitMs
            && (r.lastSyncedMs.None? <==> events == [])
            && (events != [] ==> r.lastSyncedMs == Some(events[|events| - 1].atMs))
  {
    if events != [] {
      LastSyncIsAnEvent(limitMs, events[..|events| - 1], history);
    }
  }

  /** The list after the first `n` changes arrived, or `n` is zero, and none that arrived is newer. */
  ghost predicate Newest(events: seq<Event>, history: seq<Change>, n: nat)
    requires FromHistory(events, history)
  {
    && n <= |history|
    && (n == 0 || Delivered(events, n))
    && forall i :: 0 <= i < |events| && events[i].Delivery? ==>
         ListAt(history, events[i].n).version <= ListAt(history, n).version
  }

  /** The decision, from the history and what was heard of it alone: revoked exactly when the newest
      list that arrived was made by changes that revoke the scope; otherwise stale when the last thing
      heard is longer ago than the limit, a negative age counting as none; otherwise allowed. */
  lemma DecisionExactly(limitMs: int64, events: seq<Event>, history: seq<Change>, scope: TokenScope, nowMs: int64)
    returns (n: nat)
    requires FromHistory(events, history)
    ensures Newest(events, history, n)
    ensures var ageMs := if events == [] then I64_MAX else Max(nowMs - events[|events| - 1].atMs, 0);
            Check(Run(Awaiting(limitMs), events, history), scope, nowMs)
            == if RevokedBy(history, n, scope) then Revoked
               else if ageMs > limitMs then Stale(ageMs, limitMs) else Allowed
  {
    ReplicaHoldsNewest(limitMs, events, history);
    LastSyncIsAnEvent(limitMs, events, history);
    n :| 0 <= n <= |history| && Run(Awaiting(limitMs), events, history).list == ListAt(history, n)
         && (n == 0 || Delivered(events, n));
    ListCoversExactly(history, n, scope);
  }

  /** Whoever was revoked by any list that ever arrived is refused from then on, a token apart that
      the history compacts away. */
  lemma DeliveredRevocationHolds(limitMs: int64, events: seq<Event>, history: seq<Change>, scope: TokenScope,
                                 nowMs: int64, n: nat, i: nat)
    requires FromHistory(events, history) && Delivered(events, n) && i < n <= |history|
    requires Names(history[i], scope) && (history[i].RevokeToken? ==> NeverDropped(history, scope.tokenId))
    ensures Check(Run(Awaiting(limitMs), events, history), scope, nowMs) == Revoked
  {
    ReplicaHoldsNewest(limitMs, events, history);
    var m :| 0 <= m <= |history| && Run(Awaiting(limitMs), events, history).list == ListAt(history, m);
    SetsAreHistory(history, n, scope.tokenId);
    SetsAreHistory(history, n, scope.sessionId);
    SetsAreHistory(history, n, scope.userId);
    SetsAreHistory(history, n, scope.orgId);
    if history[i].RevokeToken? {
      NewerKeepsToken(history, n, m, scope.tokenId);
    } else {
      NewerKeepsSets(history, n, m);
    }
  }

  /** And nobody is refused as revoked whom no change of a list that arrived names. */
  lemma RevokedWasNamed(limitMs: int64, events: seq<Event>, history: seq<Change>, scope: TokenScope, nowMs: int64)
    returns (n: nat, i: nat)
    requires FromHistory(events, history)
    requires Check(Run(Awaiting(limitMs), events, history), scope, nowMs) == Revoked
    ensures Delivered(events, n) && i < n <= |history| && Names(history[i], scope)
  {
    n := DecisionExactly(limitMs, events, history, scope, nowMs);
    i :| 0 <= i < n && Names(history[i], scope);
  }

  /** What is allowed was asked within the limit of something the replica heard, and no list that
      ever arrived was made by changes that revoke it, compacted tokens apart. */
  lemma AllowedMeans(limitMs: int64, events: seq<Event>, history: seq<Change>, scope: TokenScope, nowMs: int64, i: nat)
    requires FromHistory(events, history) && limitMs < I64_MAX
    requires Check(Run(Awaiting(limitMs), events, history), scope, nowMs) == Allowed
    ensures HeardWithin(events, nowMs, limitMs)
    ensures i < |events| && events[i].Delivery? && NeverDropped(history, scope.tokenId) ==>
              !RevokedBy(history, events[i].n, scope)
  {
    LastSyncIsAnEvent(limitMs, events, history);
    if i < |events| && events[i].Delivery? && NeverDropped(history, scope.tokenId)
      && RevokedBy(history, events[i].n, scope) {
      var j :| 0 <= j < events[i].n && Names(history[j], scope);
      DeliveredRevocationHolds(limitMs, events, history, scope, nowMs, events[i].n, j);
    }
  }

  /** A replica that has never heard anything authorizes nothing exactly when its limit is below
      the largest integer, which is the age it gives to never. */
  lemma NeverSyncedExactly(limitMs: int64, scope: TokenScope, nowMs: int64)
    ensures Check(Awaiting(limitMs), scope, nowMs) != Allowed <==> limitMs < I64_MAX
  {
    assert !Covers(NOTHING_REVOKED, scope);
  }

  /** Hearing anything counts as being up to date: when a list arrives, however old, the instance
      allows a scope exactly when the newer of it and the list held does not cover the scope, and
      the limit is not negative, whatever has been revoked since. */
  lemma OldListCountsAsFresh(limitMs: int64, events: seq<Event>, history: seq<Change>, n: nat, scope: TokenScope,
                             nowMs: int64)
    requires FromHistory(events, history) && n <= |history|
    ensures FromHistory(events + [Delivery(n, nowMs)], history)
    ensures var held, delivered := Run(Awaiting(limitMs), events, history).list, ListAt(history, n);
            var newer := if delivered.version < held.version then held else delivered;
            Check(Run(Awaiting(limitMs), events + [Delivery(n, nowMs)], history), scope, nowMs) == Allowed
            <==> !Covers(newer, scope) && limitMs >= 0
  {
    var all := events + [Delivery(n, nowMs)];
    assert all[..|all| - 1] == events;
    LastSyncIsAnEvent(limitMs, events, history);
  }

  /** So an empty list that is late lets through a user who was revoked in between. */
  lemma RevokedYetAllowed(scope: TokenScope, nowMs: int64)
    ensures var history := [RevokeUser(scope.userId)];
            && Covers(ListAt(history, 1), scope)
            && Check(Run(Awaiting(0), [Delivery(0, nowMs)], history), scope, nowMs) == Allowed
  {
    var history := [RevokeUser(scope.userId)];
    OldListCountsAsFresh(0, [], history, 0, scope, nowMs);
    assert [] + [Delivery(0, nowMs)] == [Delivery(0, nowMs)];
    assert ListAt(history, 1) == After(ListAt(history, 0), history[0]);
  }
}
