/** Content addresses, and what the head of a log chain commits to. */
module LogChain {
  import opened Prelude
  import opened Endian

  function Zeros(n: nat): (bytes: seq<byte>)
    ensures |bytes| == n && forall i :: 0 <= i < n ==> bytes[i] == 0
  {
    if n == 0 then [] else Zeros(n - 1) + [0]
  }

  type ContentHash = bytes: seq<byte> | |bytes| == 32 witness Zeros(32)

  /** What every genesis entry chains onto. */
  const ZERO: ContentHash := Zeros(32)

  type HashFunction = seq<byte> -> ContentHash

  /** Two different byte strings with one hash. */
  predicate Collide(h: HashFunction, p: seq<byte>, q: seq<byte>) {
    p != q && h(p) == h(q)
  }

  // ----- hashing a list of fields -----

  /** The bytes that are hashed for a list of fields: each behind its length, in 64 bits. */
  function Preimage(fields: seq<seq<byte>>): seq<byte> {
    if fields == [] then []
    else Preimage(fields[..|fields| - 1]) + LittleEndian(|fields[|fields| - 1]|, WORD) + fields[|fields| - 1]
  }

  /** The same bytes, taken from the front. */
  function Prefixed(fields: seq<seq<byte>>): seq<byte> {
    if fields == [] then [] else LittleEndian(|fields[0]|, WORD) + fields[0] + Prefixed(fields[1..])
  }

  lemma {:induction false} PrefixedAppend(a: seq<seq<byte>>, b: seq<seq<byte>>)
    ensures Prefixed(a + b) == Prefixed(a) + Prefixed(b)
  {
    if a == [] {
      assert a + b == b;
    } else {
      assert (a + b)[1..] == a[1..] + b;
      PrefixedAppend(a[1..], b);
    }
  }

  lemma {:induction false} PreimageIsPrefixed(fields: seq<seq<byte>>)
    ensures Preimage(fields) == Prefixed(fields)
  {
    if fields != [] {
      var front, last: seq<seq<byte>> := fields[..|fields| - 1], [fields[|fields| - 1]];
      PreimageIsPrefixed(front);
      PrefixedAppend(front, last);
      assert fields == front + last && last[1..] == [];
      assert Prefixed(last) == LittleEndian(|last[0]|, WORD) + last[0];
    }
  }

  /** A length that fits in 64 bits, as every length in memory does. */
  predicate Fits(fields: seq<seq<byte>>) {
    forall i :: 0 <= i < |fields| ==> |fields[i]| <= U64_MAX
  }

  lemma SplitsAt(p: seq<byte>, q: seq<byte>, x: seq<byte>, y: seq<byte>)
    requires |p| == |q| && p + x == q + y
    ensures p == q && x == y
  {
    assert (p + x)[..|p|] == p && (q + y)[..|q|] == q;
    assert (p + x)[|p|..] == x && (q + y)[|q|..] == y;
  }

  lemma SplitsTwice(p: seq<byte>, q: seq<byte>, x: seq<byte>, y: seq<byte>, r: seq<byte>, s: seq<byte>)
    requires |p| == |q| && p + x + r == q + y + s
    ensures p == q && x + r == y + s
  {
    assert p + x + r == p + (x + r) && q + y + s == q + (y + s);
    SplitsAt(p, q, x + r, y + s);
  }

  /** The first field can be told from what follows it, when its length fits the prefix. */
  lemma FirstFieldIdentified(width: nat, x: seq<byte>, y: seq<byte>, r: seq<byte>, s: seq<byte>)
    requires |x| < Pow256(width) && |y| < Pow256(width)
    requires LittleEndian(|x|, width) + x + r == LittleEndian(|y|, width) + y + s
    ensures x == y && r == s
  {
    SplitsTwice(LittleEndian(|x|, width), LittleEndian(|y|, width), x, y, r, s);
    LittleEndianInjective(|x|, |y|, width);
    SplitsAt(x, y, r, s);
  }

  lemma {:induction false} PrefixedInjective(a: seq<seq<byte>>, b: seq<seq<byte>>)
    requires Fits(a) && Fits(b) && Prefixed(a) == Prefixed(b)
    ensures a == b
  {
    if a != [] && b != [] {
      Pow256Eight();
      FirstFieldIdentified(WORD, a[0], b[0], Prefixed(a[1..]), Prefixed(b[1..]));
      PrefixedInjective(a[1..], b[1..]);
      assert a == [a[0]] + a[1..] && b == [b[0]] + b[1..];
    }
  }

  /** Lists of fields that differ, in number, order, boundaries or bytes, are hashed from different bytes. */
  lemma PreimageIdentifies(a: seq<seq<byte>>, b: seq<seq<byte>>)
    requires Fits(a) && Fits(b)
    ensures Preimage(a) == Preimage(b) <==> a == b
  {
    PreimageIsPrefixed(a);
    PreimageIsPrefixed(b);
    if Prefixed(a) == Prefixed(b) {
      PrefixedInjective(a, b);
    }
  }

  /** `of_fields`: a hasher fed field by field. */
  method OfFields(fields: seq<seq<byte>>, h: HashFunction) returns (r: ContentHash)
    ensures r == h(Preimage(fields))
  {
    var fed: seq<byte> := [];
    for i := 0 to |fields|
      invariant fed == Preimage(fields[..i])
    {
      fed := fed + LittleEndian(|fields[i]|, WORD);
      fed := fed + fields[i];
      assert fields[..i + 1][..i] == fields[..i];
    }
    assert fields[..|fields|] == fields;
    r := h(fed);
  }

  // ----- entries -----

  /** A log entry, for any kind of operation and of author. */
  datatype LogEntry<O, A> = LogEntry(
    prevHash: ContentHash, commitId: uint64, branchId: uint64, op: O, author: A, timestampMs: int64)

  /** How operations and authors are written, and how bytes are hashed. */
  datatype Codec<!O, !A> = Codec(op: O -> seq<byte>, author: A -> seq<byte>, h: HashFunction)

  function Unsigned(i: int64): uint64 {
    if i >= 0 then i else i + 0x1_0000_0000_0000_0000
  }

  function ContentFields<O, A>(e: LogEntry<O, A>, c: Codec<O, A>): seq<seq<byte>> {
    [LittleEndian(e.commitId, WORD), LittleEndian(e.branchId, WORD), c.op(e.op), c.author(e.author),
     LittleEndian(Unsigned(e.timestampMs), WORD)]
  }

  /** The bytes an entry is hashed from: its parent's hash before what it says. */
  function EntryBytes<O, A>(e: LogEntry<O, A>, c: Codec<O, A>): seq<byte> {
    var prev: seq<byte> := e.prevHash;
    Preimage([prev] + ContentFields(e, c))
  }

  function ContentBytes<O, A>(e: LogEntry<O, A>, c: Codec<O, A>): seq<byte> {
    Preimage(ContentFields(e, c))
  }

  function HashOf<O, A>(e: LogEntry<O, A>, c: Codec<O, A>): ContentHash {
    c.h(EntryBytes(e, c))
  }

  function ContentHashOf<O, A>(e: LogEntry<O, A>, c: Codec<O, A>): ContentHash {
    c.h(ContentBytes(e, c))
  }

  predicate Writable<O, A>(e: LogEntry<O, A>, c: Codec<O, A>) {
    |c.op(e.op)| <= U64_MAX && |c.author(e.author)| <= U64_MAX
  }

  /** The same in everything but where it stands, as far as the written forms tell. */
  predicate SameContent<O, A>(a: LogEntry<O, A>, b: LogEntry<O, A>, c: Codec<O, A>) {
    && a.commitId == b.commitId && a.branchId == b.branchId && a.timestampMs == b.timestampMs
    && c.op(a.op) == c.op(b.op) && c.author(a.author) == c.author(b.author)
  }

  predicate SameEntry<O, A>(a: LogEntry<O, A>, b: LogEntry<O, A>, c: Codec<O, A>) {
    a.prevHash == b.prevHash && SameContent(a, b, c)
  }

  lemma FieldsIdentify<O, A>(a: LogEntry<O, A>, b: LogEntry<O, A>, c: Codec<O, A>)
    ensures ContentFields(a, c) == ContentFields(b, c) <==> SameContent(a, b, c)
  {
    Pow256Eight();
    var f, g := ContentFields(a, c), ContentFields(b, c);
    if f == g {
      assert f[0] == g[0] && f[1] == g[1] && f[2] == g[2] && f[3] == g[3] && f[4] == g[4];
      LittleEndianInjective(a.commitId, b.commitId, WORD);
      LittleEndianInjective(a.branchId, b.branchId, WORD);
      LittleEndianInjective(Unsigned(a.timestampMs), Unsigned(b.timestampMs), WORD);
    }
  }

  /** Two entries are hashed from the same bytes exactly when they name the same parent and say
      the same, and content-hashed from the same bytes exactly when they say the same. */
  lemma BytesIdentify<O, A>(a: LogEntry<O, A>, b: LogEntry<O, A>, c: Codec<O, A>)
    requires Writable(a, c) && Writable(b, c)
    ensures EntryBytes(a, c) == EntryBytes(b, c) <==> SameEntry(a, b, c)
    ensures ContentBytes(a, c) == ContentBytes(b, c) <==> SameContent(a, b, c)
  {
    var p: seq<byte>, q: seq<byte> := a.prevHash, b.prevHash;
    var f, g := ContentFields(a, c), ContentFields(b, c);
    FieldsIdentify(a, b, c);
    assert Fits(f) && Fits(g) && Fits([p] + f) && Fits([q] + g);
    PreimageIdentifies(f, g);
    PreimageIdentifies([p] + f, [q] + g);
    assert ([p] + f)[0] == p && ([q] + g)[0] == q && ([p] + f)[1..] == f && ([q] + g)[1..] == g;
  }

  predicate EntriesCollide<O, A>(a: LogEntry<O, A>, b: LogEntry<O, A>, c: Codec<O, A>) {
    Collide(c.h, EntryBytes(a, c), EntryBytes(b, c))
  }

  /** Whatever the hash function: two entries have the same hash exactly when they name the same
      parent and say the same, or their bytes collide; and likewise two content hashes. */
  lemma HashCommits<O, A>(a: LogEntry<O, A>, b: LogEntry<O, A>, c: Codec<O, A>)
    requires Writable(a, c) && Writable(b, c)
    ensures HashOf(a, c) == HashOf(b, c) <==> SameEntry(a, b, c) || EntriesCollide(a, b, c)
    ensures !(SameEntry(a, b, c) && EntriesCollide(a, b, c))
    ensures ContentHashOf(a, c) == ContentHashOf(b, c)
            <==> SameContent(a, b, c) || Collide(c.h, ContentBytes(a, c), ContentBytes(b, c))
  {
    BytesIdentify(a, b, c);
  }

  // ----- chains -----

  type Hasher<!O, !A> = LogEntry<O, A> -> ContentHash

  function HasherOf<O, A>(c: Codec<O, A>): Hasher<O, A> {
    (e: LogEntry<O, A>) => HashOf(e, c)
  }

  /** A history, oldest first: it starts at nothing, and each entry names the one before it. */
  ghost predicate IsChain<O(!new), A(!new)>(entries: seq<LogEntry<O, A>>, hash: Hasher<O, A>) {
    && (entries != [] ==> entries[0].prevHash == ZERO)
    && (forall i :: 0 < i < |entries| ==> entries[i].prevHash == hash(entries[i - 1]))
  }

  function Head<O, A>(entries: seq<LogEntry<O, A>>, hash: Hasher<O, A>): ContentHash {
    if entries == [] then ZERO else hash(entries[|entries| - 1])
  }

  ghost predicate AllWritable<O(!new), A(!new)>(entries: seq<LogEntry<O, A>>, c: Codec<O, A>) {
    forall i :: 0 <= i < |entries| ==> Writable(entries[i], c)
  }

  lemma ChainShorter<O(!new), A(!new)>(entries: seq<LogEntry<O, A>>, hash: Hasher<O, A>)
    requires IsChain(entries, hash) && entries != []
    ensures var n := |entries| - 1; IsChain(entries[..n], hash) && Head(entries[..n], hash) == entries[n].prevHash
  {}

  ghost predicate SameHistory<O(!new), A(!new)>(a: seq<LogEntry<O, A>>, b: seq<LogEntry<O, A>>, c: Codec<O, A>) {
    |a| == |b| && forall i :: 0 <= i < |a| ==> SameEntry(a[i], b[i], c)
  }

  /** Below their newest entries, as far as these are the same, two entries collide; or one
      history is at its end, and the other has an entry with the hash that stands for nothing. */
  predicate Forged<O, A>(a: seq<LogEntry<O, A>>, b: seq<LogEntry<O, A>>, c: Codec<O, A>)
    decreases |a|
  {
    if a == [] && b == [] then false
    else if b == [] then HashOf(a[|a| - 1], c) == ZERO
    else if a == [] then HashOf(b[|b| - 1], c) == ZERO
    else
      var x, y := a[|a| - 1], b[|b| - 1];
      EntriesCollide(x, y, c) || (SameEntry(x, y, c) && Forged(a[..|a| - 1], b[..|b| - 1], c))
  }

  lemma SameHistoryStep<O(!new), A(!new)>(a: seq<LogEntry<O, A>>, b: seq<LogEntry<O, A>>, c: Codec<O, A>)
    requires a != [] && b != []
    ensures SameHistory(a, b, c)
            <==> SameEntry(a[|a| - 1], b[|b| - 1], c) && SameHistory(a[..|a| - 1], b[..|b| - 1], c)
  {
    var x, y := a[..|a| - 1], b[..|b| - 1];
    if SameEntry(a[|a| - 1], b[|b| - 1], c) && SameHistory(x, y, c) {
      forall i | 0 <= i < |a| ensures SameEntry(a[i], b[i], c) {
        assert i < |x| ==> SameEntry(x[i], y[i], c);
      }
    }
  }

  lemma {:induction false} SameHeadSameHistory<O(!new), A(!new)>(
      a: seq<LogEntry<O, A>>, b: seq<LogEntry<O, A>>, c: Codec<O, A>)
    requires IsChain(a, HasherOf(c)) && IsChain(b, HasherOf(c)) && AllWritable(a, c) && AllWritable(b, c)
    requires Head(a, HasherOf(c)) == Head(b, HasherOf(c))
    ensures SameHistory(a, b, c) || Forged(a, b, c)
    decreases |a|
  {
    if a != [] && b != [] {
      HashCommits(a[|a| - 1], b[|b| - 1], c);
      if SameEntry(a[|a| - 1], b[|b| - 1], c) {
        ChainShorter(a, HasherOf(c));
        ChainShorter(b, HasherOf(c));
        SameHeadSameHistory(a[..|a| - 1], b[..|b| - 1], c);
        SameHistoryStep(a, b, c);
      }
    }
  }

  lemma {:induction false} SameIsNotForged<O(!new), A(!new)>(
      a: seq<LogEntry<O, A>>, b: seq<LogEntry<O, A>>, c: Codec<O, A>)
    requires SameHistory(a, b, c) && AllWritable(a, c) && AllWritable(b, c)
    ensures !Forged(a, b, c)
    decreases |a|
  {
    if a != [] {
      HashCommits(a[|a| - 1], b[|b| - 1], c);
      SameHistoryStep(a, b, c);
      SameIsNotForged(a[..|a| - 1], b[..|b| - 1], c);
    }
  }

  /** Whatever the hash function: two histories have the same head exactly when they have the same
      length and say the same, entry by entry, or the hash function failed at the first place,
      counted from the head, where they differ: the head commits to the whole history. */
  lemma HeadCommits<O(!new), A(!new)>(a: seq<LogEntry<O, A>>, b: seq<LogEntry<O, A>>, c: Codec<O, A>)
    requires IsChain(a, HasherOf(c)) && IsChain(b, HasherOf(c)) && AllWritable(a, c) && AllWritable(b, c)
    ensures Head(a, HasherOf(c)) == Head(b, HasherOf(c)) <==> SameHistory(a, b, c) || Forged(a, b, c)
    ensures !(SameHistory(a, b, c) && Forged(a, b, c))
  {
    if Head(a, HasherOf(c)) == Head(b, HasherOf(c)) {
      SameHeadSameHistory(a, b, c);
    }
    if a != [] && b != [] {
      HashCommits(a[|a| - 1], b[|b| - 1], c);
      SameHistoryStep(a, b, c);
    }
    if SameHistory(a, b, c) {
      SameIsNotForged(a, b, c);
    }
  }

  /** No two entries of the two logs collide, and none hashes to nothing. */
  ghost predicate NoForgery<O(!new), A(!new)>(a: seq<LogEntry<O, A>>, b: seq<LogEntry<O, A>>, c: Codec<O, A>) {
    && (forall i, j :: 0 <= i < |a| && 0 <= j < |b| ==> !EntriesCollide(a[i], b[j], c))
    && (forall i :: 0 <= i < |a| ==> HashOf(a[i], c) != ZERO)
    && (forall j :: 0 <= j < |b| ==> HashOf(b[j], c) != ZERO)
  }

  lemma {:induction false} NothingForged<O(!new), A(!new)>(a: seq<LogEntry<O, A>>, b: seq<LogEntry<O, A>>,
                                                           c: Codec<O, A>)
    requires NoForgery(a, b, c)
    ensures !Forged(a, b, c)
    decreases |a|
  {
    if a != [] && b != [] {
      NothingForged(a[..|a| - 1], b[..|b| - 1], c);
    }
  }

  /** So where the hash function tells the entries of the two histories apart, the head decides. */
  lemma HeadDecides<O(!new), A(!new)>(a: seq<LogEntry<O, A>>, b: seq<LogEntry<O, A>>, c: Codec<O, A>)
    requires IsChain(a, HasherOf(c)) && IsChain(b, HasherOf(c)) && AllWritable(a, c) && AllWritable(b, c)
    requires NoForgery(a, b, c)
    ensures Head(a, HasherOf(c)) == Head(b, HasherOf(c)) <==> SameHistory(a, b, c)
  {
    HeadCommits(a, b, c);
    NothingForged(a, b, c);
  }

  // ----- a hash function that forges nothing -----

  /** Where an entry's bytes hold its commit: behind the parent's hash, and two lengths. */
  const COMMIT_AT := 48

  /** Hashes an entry to the commit it names, and a one. */
  function ByCommit(bytes: seq<byte>): ContentHash {
    if |bytes| < COMMIT_AT + WORD then [1] + Zeros(31)
    else bytes[COMMIT_AT..COMMIT_AT + WORD] + [1] + Zeros(23)
  }

  lemma CommitInBytes<O, A>(e: LogEntry<O, A>, c: Codec<O, A>)
    ensures |EntryBytes(e, c)| >= COMMIT_AT + WORD
    ensures EntryBytes(e, c)[COMMIT_AT..COMMIT_AT + WORD] == LittleEndian(e.commitId, WORD)
  {
    var prev: seq<byte> := e.prevHash;
    var fields := [prev] + ContentFields(e, c);
    PreimageIsPrefixed(fields);
    assert fields[1..] == ContentFields(e, c) && fields[1..][0] == LittleEndian(e.commitId, WORD);
    var before := LittleEndian(|prev|, WORD) + prev + LittleEndian(WORD, WORD);
    var after := fields[1..][0] + Prefixed(fields[1..][1..]);
    assert Prefixed(fields) == before + after;
  }

  /** With it, histories that give different entries different commits have nothing forged. */
  lemma ByCommitForgesNothing<O(!new), A(!new)>(a: seq<LogEntry<O, A>>, b: seq<LogEntry<O, A>>, c: Codec<O, A>)
    requires c.h == ByCommit
    requires forall i, j :: 0 <= i < |a| && 0 <= j < |b| && a[i].commitId == b[j].commitId ==> a[i] == b[j]
    ensures NoForgery(a, b, c)
  {
    forall e: LogEntry<O, A> ensures HashOf(e, c)[..WORD] == LittleEndian(e.commitId, WORD) && HashOf(e, c)[WORD] == 1 {
      CommitInBytes(e, c);
    }
    forall i, j | 0 <= i < |a| && 0 <= j < |b| ensures !EntriesCollide(a[i], b[j], c) {
      Pow256Eight();
      if HashOf(a[i], c) == HashOf(b[j], c) {
        LittleEndianInjective(a[i].commitId, b[j].commitId, WORD);
      }
    }
  }
}
