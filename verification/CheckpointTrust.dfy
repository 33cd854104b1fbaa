/** Trusted checkpoints: one advance, the store, and every interleaving of the
    clients that share it. */
module CheckpointTrust {
  import opened Common
  import opened Merkle
  import opened Entries
  import Consistency
  import Tiles

  /** What a client keeps of the last checkpoint it accepted from one origin. */
  datatype Checkpoint = Checkpoint(origin: string, treeSize: int, rootHash: Hash, witnessTime: int)

  predicate ValidOrigin(origin: string) {
    exists i :: 0 <= i < |origin| && !Blank(origin[i])
  }

  predicate ValidCheckpoint(c: Checkpoint, origin: string) {
    && ValidOrigin(origin)
    && c.origin == origin
    && Safe(c.treeSize) && c.treeSize >= 0
    && (c.treeSize == 0 ==> c.rootHash == Empty)
    && Safe(c.witnessTime)
  }

  // ---- One advance ----

  datatype ProofReply = Unavailable | Nodes(proof: seq<Hash>)

  /** What a caller can offer to show that a newer checkpoint extends an older one. */
  datatype Evidence = Evidence(
    completeEntries: Option<seq<Indexed<Bytes>>>,
    consistencyProof: Option<ProofReply>,
    tiles: Option<Tiles.Server>)

  datatype Verdict =
    | Accepted
    | BadScan
    | Rollback
    | Fork
    | Inconsistent
    | ProofUnavailable
    | TilesRejected
    | MissingEvidence

  function EntryBytes(es: seq<Indexed<Bytes>>): (bs: seq<Bytes>)
    ensures |bs| == |es|
    ensures forall i :: 0 <= i < |es| ==> bs[i] == es[i].bytes
  {
    seq(|es|, i requires 0 <= i < |es| => es[i].bytes)
  }

  /** `verifyCompleteEntriesPrefix` on sorted entries. */
  predicate ScanMatches(es: seq<Indexed<Bytes>>, c: Checkpoint)
    requires c.treeSize >= 0
  {
    && c.treeSize <= |es|
    && (forall i :: 0 <= i < c.treeSize ==> es[i].index == i)
    && Root(EntryBytes(es[..c.treeSize])) == c.rootHash
  }

  /** The decision of `verifyCheckpointAdvance`. */
  function Judge(previous: Option<Checkpoint>, candidate: Checkpoint, evidence: Evidence): Verdict
    requires candidate.treeSize >= 0
    requires previous.Some? ==> previous.value.treeSize >= 0
  {
    var scan := if evidence.completeEntries.Some? then Some(SortByIndex(evidence.completeEntries.value)) else None;
    if scan.Some? && !ScanMatches(scan.value, candidate) then BadScan
    else if previous.None? then Accepted
    else JudgeAgainst(previous.value, candidate, scan, evidence)
  }

  function JudgeAgainst(previous: Checkpoint, candidate: Checkpoint, scan: Option<seq<Indexed<Bytes>>>, evidence: Evidence): Verdict
    requires candidate.treeSize >= 0 && previous.treeSize >= 0
  {
    if candidate.treeSize < previous.treeSize then Rollback
    else if candidate.treeSize == previous.treeSize then
      if candidate.rootHash == previous.rootHash then Accepted else Fork
    else if previous.treeSize == 0 then Accepted
    else if scan.Some? then
      if ScanMatches(scan.value, previous) then Accepted else Inconsistent
    else if evidence.consistencyProof.Some? then
      match evidence.consistencyProof.value
      case Unavailable => ProofUnavailable
      case Nodes(proof) =>
        if Consistency.Accepts(previous.treeSize, candidate.treeSize, previous.rootHash, candidate.rootHash, proof)
        then Accepted else Inconsistent
    else if evidence.tiles.Some? then
      var root := Tiles.PrefixRoot(evidence.tiles.value, candidate.treeSize, candidate.rootHash, previous.treeSize);
      if root.None? then TilesRejected
      else if root.value == previous.rootHash then Accepted
      else Inconsistent
    else MissingEvidence
  }

  method VerifyCompleteEntriesPrefix(es: seq<Indexed<Bytes>>, c: Checkpoint) returns (ok: bool)
    requires c.treeSize >= 0
    ensures ok <==> ScanMatches(es, c)
  {
    if |es| < c.treeSize {
      return false;
    }
    var prefix := es[..c.treeSize];
    for i := 0 to |prefix|
      invariant forall j :: 0 <= j < i ==> es[j].index == j
    {
      assert prefix[i] == es[i];
      if prefix[i].index != i {
        return false;
      }
    }
    var root := MerkleRootFromEntries(EntryBytes(prefix));
    return root == c.rootHash;
  }

  method VerifyCheckpointAdvance(previous: Option<Checkpoint>, candidate: Checkpoint, evidence: Evidence) returns (verdict: Verdict)
    requires candidate.treeSize >= 0
    requires previous.Some? ==> previous.value.treeSize >= 0
    ensures verdict == Judge(previous, candidate, evidence)
  {
    hide Consistency.Accepts, Tiles.PrefixRoot, ScanMatches;
    var scan: Option<seq<Indexed<Bytes>>> := None;
    if evidence.completeEntries.Some? {
      scan := Some(SortByIndex(evidence.completeEntries.value));
      var ok := VerifyCompleteEntriesPrefix(scan.value, candidate);
      if !ok { return BadScan; }
    }
    if previous.None? { return Accepted; }
    var trusted := previous.value;
    if candidate.treeSize < trusted.treeSize { return Rollback; }
    if candidate.treeSize == trusted.treeSize {
      return if candidate.rootHash == trusted.rootHash then Accepted else Fork;
    }
    if trusted.treeSize == 0 { return Accepted; }
    if scan.Some? {
      var ok := VerifyCompleteEntriesPrefix(scan.value, trusted);
      return if ok then Accepted else Inconsistent;
    }
    if evidence.consistencyProof.Some? {
      if evidence.consistencyProof.value.Unavailable? { return ProofUnavailable; }
      var ok := Consistency.VerifyConsistencyProof(trusted.treeSize, candidate.treeSize, trusted.rootHash,
                                                   candidate.rootHash, evidence.consistencyProof.value.proof);
      return if ok then Accepted else Inconsistent;
    }
    if evidence.tiles.Some? {
      var client := new Tiles.TileClient(evidence.tiles.value, candidate.treeSize);
      var root := client.Run(candidate.rootHash, trusted.treeSize);
      if root.Err? { return TilesRejected; }
      return if root.value == trusted.rootHash then Accepted else Inconsistent;
    }
    return MissingEvidence;
  }

  /** The checkpoint is the head of the list of entries. */
  ghost predicate Commits(c: Checkpoint, entries: seq<Bytes>) {
    c.treeSize == |entries| && c.rootHash == Root(entries)
  }

  /** The checkpoint is the head of a prefix of the list of entries. */
  ghost predicate CommitsToPrefix(c: Checkpoint, entries: seq<Bytes>) {
    0 <= c.treeSize <= |entries| && c.rootHash == Root(entries[..c.treeSize])
  }

  /** Soundness of an advance, for all three kinds of evidence. */
  lemma AdvanceSound(previous: Checkpoint, candidate: Checkpoint, evidence: Evidence, entries: seq<Bytes>)
    requires ValidCheckpoint(previous, previous.origin) && ValidCheckpoint(candidate, candidate.origin)
    requires Judge(Some(previous), candidate, evidence) == Accepted
    requires Commits(candidate, entries)
    ensures CommitsToPrefix(previous, entries)
  {
    hide Consistency.Accepts, Tiles.PrefixRoot, Root;
    var m := previous.treeSize;
    if m == |entries| {
      assert entries[..m] == entries;
    } else if m == 0 {
      RootOfNone(entries[..0]);
    } else if evidence.completeEntries.Some? {
      var es := SortByIndex(evidence.completeEntries.value);
      RootInjective(EntryBytes(es[..|entries|]), entries);
      assert EntryBytes(es[..m]) == EntryBytes(es[..|entries|])[..m];
    } else if evidence.consistencyProof.Some? {
      Consistency.ConsistencyExact(m, entries, previous.rootHash, evidence.consistencyProof.value.proof);
    } else {
      Tiles.PrefixRootSound(evidence.tiles.value, entries, m);
    }
  }

  lemma RootOfNone(entries: seq<Bytes>)
    requires entries == []
    ensures Root(entries) == Empty
  {
  }

  function IndexedEntries(entries: seq<Bytes>): (es: seq<Indexed<Bytes>>)
    ensures |es| == |entries|
    ensures forall i :: 0 <= i < |es| ==> es[i] == Indexed(i, entries[i])
  {
    seq(|entries|, i requires 0 <= i < |entries| => Indexed(i, entries[i]))
  }

  /** Some evidence the advance would look at, as an honest log would give it. */
  ghost predicate HonestEvidence(evidence: Evidence, m: nat, entries: seq<Bytes>)
    requires m <= |entries|
  {
    if evidence.completeEntries.Some? then multiset(evidence.completeEntries.value) == multiset(IndexedEntries(entries))
    else if evidence.consistencyProof.Some? then
      evidence.consistencyProof.value == Nodes(Consistency.ConsistencyProof(m, entries))
    else evidence.tiles.Some? && Tiles.HonestServer(evidence.tiles.value, LeafHashes(entries))
  }

  /** Completeness of an advance: honest growth is accepted with any one kind of
      honest evidence, a complete scan in whatever order its entries arrive. */
  lemma AdvanceComplete(previous: Checkpoint, candidate: Checkpoint, evidence: Evidence, entries: seq<Bytes>)
    requires ValidCheckpoint(previous, previous.origin) && ValidCheckpoint(candidate, candidate.origin)
    requires Commits(candidate, entries) && CommitsToPrefix(previous, entries)
    requires HonestEvidence(evidence, previous.treeSize, entries)
    ensures Judge(Some(previous), candidate, evidence) == Accepted
  {
    hide Consistency.Accepts, Tiles.PrefixRoot, Root, Tiles.HonestServer;
    var m := previous.treeSize;
    assert entries[..|entries|] == entries;
    if evidence.completeEntries.Some? {
      HonestScan(evidence.completeEntries.value, entries, candidate);
      HonestScan(evidence.completeEntries.value, entries, previous);
      hide ScanMatches;
    } else if 0 < m < |entries| {
      if evidence.consistencyProof.Some? {
        Consistency.ConsistencyExact(m, entries, previous.rootHash, evidence.consistencyProof.value.proof);
      } else {
        Tiles.PrefixRootComplete(evidence.tiles.value, entries, m);
      }
    }
  }

  lemma HonestScan(scan: seq<Indexed<Bytes>>, entries: seq<Bytes>, c: Checkpoint)
    requires multiset(scan) == multiset(IndexedEntries(entries)) && CommitsToPrefix(c, entries)
    ensures ScanMatches(SortByIndex(scan), c)
  {
    hide Root, SortByIndex;
    var own := IndexedEntries(entries);
    SortedScan(entries, 0);
    assert own[0..] == own;
    SortKeeps(scan);
    DistinctScan(entries);
    SortedUnique(own, SortByIndex(scan));
    assert EntryBytes(own[..c.treeSize]) == entries[..c.treeSize];
  }

  lemma {:induction false} SortedScan(entries: seq<Bytes>, from: nat)
    requires from <= |entries|
    ensures Sorted(IndexedEntries(entries)[from..])
    decreases |entries| - from
  {
    if from < |entries| {
      SortedScan(entries, from + 1);
      assert IndexedEntries(entries)[from..][1..] == IndexedEntries(entries)[from + 1..];
    }
  }

  lemma DistinctScan(entries: seq<Bytes>)
    ensures DistinctIndexes(multiset(IndexedEntries(entries)))
  {
    var es := IndexedEntries(entries);
    forall x: Indexed<Bytes>, y: Indexed<Bytes> | x in multiset(es) && y in multiset(es) && x.index == y.index
      ensures x == y && multiset(es)[x] == 1
    {
      assert x in es && y in es;
      var i := x.index;
      assert es == es[..i] + [es[i]] + es[i + 1..];
      assert x !in es[..i] && x !in es[i + 1..];
    }
  }

  // ---- What each verdict means ----

  /** The scan, in index order, starts with the entries of a list the checkpoint commits to. */
  ghost predicate ScanShows(scan: seq<Indexed<Bytes>>, c: Checkpoint) {
    exists entries :: Commits(c, entries) && IndexedEntries(entries) <= SortByIndex(scan)
  }

  lemma ScanExact(scan: seq<Indexed<Bytes>>, c: Checkpoint)
    requires c.treeSize >= 0
    ensures ScanMatches(SortByIndex(scan), c) <==> ScanShows(scan, c)
  {
    hide Root, SortByIndex;
    var es := SortByIndex(scan);
    if ScanMatches(es, c) {
      var entries := EntryBytes(es[..c.treeSize]);
      assert IndexedEntries(entries) == es[..c.treeSize];
      assert Commits(c, entries);
    }
    forall entries | Commits(c, entries) && IndexedEntries(entries) <= es ensures ScanMatches(es, c) {
      assert es[..c.treeSize] == IndexedEntries(entries);
      assert EntryBytes(es[..c.treeSize]) == entries;
    }
  }

  predicate SameTree(a: Checkpoint, b: Checkpoint) {
    a.treeSize == b.treeSize && a.rootHash == b.rootHash
  }

  /** A scan is refused exactly when it does not show the candidate; then a first
      checkpoint is accepted, a smaller one is a rollback, one of the same size with
      another root a fork, and one that is the same or follows the empty tree is accepted. */
  lemma RefusalExact(previous: Option<Checkpoint>, candidate: Checkpoint, evidence: Evidence)
    requires candidate.treeSize >= 0 && (previous.Some? ==> previous.value.treeSize >= 0)
    ensures
      var verdict := Judge(previous, candidate, evidence);
      var bad := evidence.completeEntries.Some? && !ScanShows(evidence.completeEntries.value, candidate);
      && (verdict == BadScan <==> bad)
      && (!bad && previous.None? ==> verdict == Accepted)
      && (verdict == Rollback <==> !bad && previous.Some? && candidate.treeSize < previous.value.treeSize)
      && (verdict == Fork <==> !bad && previous.Some? && candidate.treeSize == previous.value.treeSize
                               && candidate.rootHash != previous.value.rootHash)
      && (!bad && previous.Some? && SameTree(candidate, previous.value) ==> verdict == Accepted)
      && (!bad && previous.Some? && candidate.treeSize > previous.value.treeSize == 0 ==> verdict == Accepted)
  {
    hide Consistency.Accepts, Tiles.PrefixRoot, ScanMatches, ScanShows;
    if evidence.completeEntries.Some? {
      ScanExact(evidence.completeEntries.value, candidate);
    }
  }

  /** What growth from a checkpoint of size m needs: with a scan, only that the old
      checkpoint is the head of its first m entries; with a consistency proof, also
      that the proof is the one of RFC 6962; with tiles, that they can be read. */
  function GrowthVerdict(previous: Checkpoint, entries: seq<Bytes>, evidence: Evidence): (verdict: Verdict)
    requires 0 < previous.treeSize < |entries|
  {
    var m := previous.treeSize;
    var prefix := if previous.rootHash == Root(entries[..m]) then Accepted else Inconsistent;
    if evidence.completeEntries.Some? then prefix
    else if evidence.consistencyProof.Some? then
      match evidence.consistencyProof.value
      case Unavailable => ProofUnavailable
      case Nodes(proof) => if proof == Consistency.ConsistencyProof(m, entries) then prefix else Inconsistent
    else if evidence.tiles.Some? then
      if Tiles.PrefixRoot(evidence.tiles.value, |entries|, Root(entries), m).None? then TilesRejected else prefix
    else MissingEvidence
  }

  lemma GrowthExact(previous: Checkpoint, candidate: Checkpoint, evidence: Evidence, entries: seq<Bytes>)
    requires Commits(candidate, entries) && Safe(|entries|) && 0 < previous.treeSize < |entries|
    requires evidence.completeEntries.Some? ==> ScanShows(evidence.completeEntries.value, candidate)
    ensures Judge(Some(previous), candidate, evidence) == GrowthVerdict(previous, entries, evidence)
  {
    hide Consistency.Accepts, Tiles.PrefixRoot, Root, SortByIndex, Consistency.ConsistencyProof;
    var m := previous.treeSize;
    if evidence.completeEntries.Some? {
      var scan := evidence.completeEntries.value;
      ScanExact(scan, candidate);
      var own :| Commits(candidate, own) && IndexedEntries(own) <= SortByIndex(scan);
      RootInjective(own, entries);
      assert SortByIndex(scan)[..m] == IndexedEntries(entries)[..m];
      assert EntryBytes(SortByIndex(scan)[..m]) == entries[..m];
    } else if evidence.consistencyProof.Some? && evidence.consistencyProof.value.Nodes? {
      Consistency.ConsistencyExact(m, entries, previous.rootHash, evidence.consistencyProof.value.proof);
    } else if evidence.consistencyProof.None? && evidence.tiles.Some?
              && Tiles.PrefixRoot(evidence.tiles.value, |entries|, Root(entries), m).Some? {
      Tiles.PrefixRootSound(evidence.tiles.value, entries, m);
    }
  }

  // ---- The store ----

  function Lookup(store: map<string, Checkpoint>, origin: string): Option<Checkpoint> {
    if origin in store then Some(store[origin]) else None
  }

  /** The store kept in memory; a result of None is an argument error. */
  class CheckpointStore {
    var checkpoints: map<string, Checkpoint>

    constructor ()
      ensures checkpoints == map[]
    {
      checkpoints := map[];
    }

    /** Every stored checkpoint is well formed and filed under its own origin. */
    ghost predicate Valid()
      reads this
    {
      forall origin | origin in checkpoints :: ValidCheckpoint(checkpoints[origin], origin)
    }

    method Load(origin: string) returns (r: Option<Option<Checkpoint>>)
      requires Valid()
      ensures r == if ValidOrigin(origin) then Some(Lookup(checkpoints, origin)) else None
      ensures r.Some? && r.value.Some? ==> ValidCheckpoint(r.value.value, origin)
    {
      if !ValidOrigin(origin) {
        return None;
      }
      r := Some(if origin in checkpoints then Some(checkpoints[origin]) else None);
    }

    /** Compares all four fields, so a swap can only replace the very checkpoint that was loaded. */
    method CompareAndSwap(origin: string, expected: Option<Checkpoint>, candidate: Checkpoint) returns (r: Option<bool>)
      requires Valid()
      modifies this
      ensures Valid()
      ensures r.Some? <==> ValidCheckpoint(candidate, origin) && (expected.Some? ==> ValidCheckpoint(expected.value, origin))
      ensures r == Some(true) <==> r.Some? && Lookup(old(checkpoints), origin) == expected
      ensures checkpoints == if r == Some(true) then old(checkpoints)[origin := candidate] else old(checkpoints)
    {
      if !ValidOrigin(origin) {
        return None;
      }
      if expected.Some? && !ValidCheckpoint(expected.value, origin) {
        return None;
      }
      if !ValidCheckpoint(candidate, origin) {
        return None;
      }
      var current := Lookup(checkpoints, origin);
      if current != expected {
        return Some(false);
      }
      checkpoints := checkpoints[origin := candidate];
      return Some(true);
    }
  }

  // ---- All runs of all clients ----

  /** Where a client of `advanceC2spCheckpoint` is between two awaits. */
  datatype Client =
    | Idle
    | Started(candidate: Checkpoint)
    | Loaded(candidate: Checkpoint, previous: Option<Checkpoint>)
    | Verified(candidate: Checkpoint, previous: Option<Checkpoint>)

  datatype State = State(store: map<string, Checkpoint>, clients: map<nat, Client>)

  datatype Step =
    | Start(candidate: Checkpoint, origin: string)
    | Load
    | Verify(evidence: Evidence)
    | Swap
    | GiveUp

  function ClientOf(s: State, id: nat): Client {
    if id in s.clients then s.clients[id] else Idle
  }

  /** One atomic step of client `id`; a failed or cancelled operation leaves the store alone. */
  ghost predicate Next(s: State, s': State, id: nat, step: Step) {
    var client := ClientOf(s, id);
    match step
    case Start(candidate, origin) =>
      client.Idle? && ValidCheckpoint(candidate, origin) && s' == s.(clients := s.clients[id := Started(candidate)])
    case Load =>
      client.Started? &&
      s' == s.(clients := s.clients[id := Loaded(client.candidate, Lookup(s.store, client.candidate.origin))])
    case Verify(evidence) =>
      && client.Loaded?
      && client.candidate.treeSize >= 0 && (client.previous.Some? ==> client.previous.value.treeSize >= 0)
      && var next := if Judge(client.previous, client.candidate, evidence) == Accepted
                     then Verified(client.candidate, client.previous) else Idle;
         s' == s.(clients := s.clients[id := next])
    case Swap =>
      && client.Verified?
      && var origin := client.candidate.origin;
         if Lookup(s.store, origin) == client.previous
         then s' == State(s.store[origin := client.candidate], s.clients[id := Idle])
         else s' == s.(clients := s.clients[id := Started(client.candidate)])
    case GiveUp =>
      s' == s.(clients := s.clients[id := Idle])
  }

  /** A run: states and the steps between them, by any clients in any order. */
  ghost predicate Run(states: seq<State>, ids: seq<nat>, steps: seq<Step>) {
    && |states| == |ids| + 1 == |steps| + 1
    && ValidState(states[0])
    && (forall id :: ClientOf(states[0], id) == Idle)
    && forall i :: 0 <= i < |steps| ==> Next(states[i], states[i + 1], ids[i], steps[i])
  }

  ghost predicate ValidState(s: State) {
    forall origin | origin in s.store :: ValidCheckpoint(s.store[origin], origin)
  }

  /** `next` may replace `previous`: some evidence was accepted. */
  ghost predicate Extends(previous: Checkpoint, next: Checkpoint) {
    && ValidCheckpoint(previous, previous.origin) && ValidCheckpoint(next, previous.origin)
    && exists evidence :: Judge(Some(previous), next, evidence) == Accepted
  }

  ghost predicate ValidClient(client: Client) {
    match client
    case Idle => true
    case Started(candidate) => ValidCheckpoint(candidate, candidate.origin)
    case Loaded(candidate, previous) =>
      && ValidCheckpoint(candidate, candidate.origin)
      && (previous.Some? ==> ValidCheckpoint(previous.value, candidate.origin))
    case Verified(candidate, previous) =>
      && ValidCheckpoint(candidate, candidate.origin)
      && (previous.Some? ==> previous.value.origin == candidate.origin && Extends(previous.value, candidate))
  }

  ghost predicate Inv(s: State) {
    && ValidState(s)
    && forall id :: ValidClient(ClientOf(s, id))
  }

  lemma InvStep(s: State, s': State, id: nat, step: Step)
    requires Inv(s) && Next(s, s', id, step)
    ensures Inv(s')
    ensures forall origin | origin in s.store ::
              origin in s'.store && (s'.store[origin] == s.store[origin] || Extends(s.store[origin], s'.store[origin]))
  {
    hide Judge, ValidOrigin;
    var client := ClientOf(s, id);
    assert ValidClient(client);
    forall other ensures ValidClient(ClientOf(s', other)) {
      assert ValidClient(ClientOf(s, other));
    }
  }

  /** Append-only trust, over every run of any number of clients, lost races and
      restored values included: if the checkpoint stored for an origin is the head
      of a list of entries, every checkpoint stored for it before is the head of a
      prefix of that list; an origin is never forgotten, sizes never shrink, and
      one size never has two roots. */
  lemma {:induction false} AppendOnlyTrust(states: seq<State>, ids: seq<nat>, steps: seq<Step>, i: nat, j: nat, origin: string)
    requires Run(states, ids, steps) && i <= j < |states| && origin in states[i].store
    ensures origin in states[j].store
    ensures states[i].store[origin].treeSize <= states[j].store[origin].treeSize
    ensures states[i].store[origin].treeSize == states[j].store[origin].treeSize ==>
              states[i].store[origin].rootHash == states[j].store[origin].rootHash
    ensures forall entries | Commits(states[j].store[origin], entries) :: CommitsToPrefix(states[i].store[origin], entries)
    decreases j - i
  {
    InvReached(states, ids, steps, i);
    if i == j {
      forall entries | Commits(states[j].store[origin], entries)
        ensures CommitsToPrefix(states[i].store[origin], entries)
      {
        assert entries[..|entries|] == entries;
      }
    } else {
      InvStep(states[i], states[i + 1], ids[i], steps[i]);
      AppendOnlyTrust(states, ids, steps, i + 1, j, origin);
      var now, next, last := states[i].store[origin], states[i + 1].store[origin], states[j].store[origin];
      if now != next {
        ExtendsGrows(now, next);
        forall entries | Commits(last, entries) ensures CommitsToPrefix(now, entries) {
          assert CommitsToPrefix(next, entries);
          ExtendsPrefix(now, next, entries);
        }
      }
    }
  }

  lemma ExtendsGrows(now: Checkpoint, next: Checkpoint)
    requires Extends(now, next)
    ensures now.treeSize <= next.treeSize && (now.treeSize == next.treeSize ==> now.rootHash == next.rootHash)
  {
  }

  lemma ExtendsPrefix(now: Checkpoint, next: Checkpoint, entries: seq<Bytes>)
    requires Extends(now, next) && CommitsToPrefix(next, entries)
    ensures CommitsToPrefix(now, entries)
  {
    hide Judge, Root;
    var evidence :| Judge(Some(now), next, evidence) == Accepted;
    var prefix := entries[..next.treeSize];
    AdvanceSound(now, next, evidence, prefix);
    assert prefix[..now.treeSize] == entries[..now.treeSize];
  }

  lemma {:induction false} InvReached(states: seq<State>, ids: seq<nat>, steps: seq<Step>, i: nat)
    requires Run(states, ids, steps) && i < |states|
    ensures Inv(states[i])
    decreases i
  {
    if i > 0 {
      InvReached(states, ids, steps, i - 1);
      InvStep(states[i - 1], states[i], ids[i - 1], steps[i - 1]);
    }
  }

  /** Honest clients get through: whatever is stored for the origin, nothing or the
      head of a prefix, a client that alone loads, verifies and swaps with no more
      than honest evidence stores its checkpoint, and touches no other origin. */
  lemma HonestAdvance(s: State, id: nat, candidate: Checkpoint, evidence: Evidence, entries: seq<Bytes>)
    returns (started: State, loaded: State, verified: State, done: State)
    requires ClientOf(s, id).Idle? && ValidState(s)
    requires ValidCheckpoint(candidate, candidate.origin) && Commits(candidate, entries)
    requires Lookup(s.store, candidate.origin).Some? ==> CommitsToPrefix(s.store[candidate.origin], entries)
    requires
      var trusted := Lookup(s.store, candidate.origin);
      HonestEvidence(evidence, if trusted.Some? then trusted.value.treeSize else 0, entries) ||
      (trusted.None? && evidence == Evidence(None, None, None))
    ensures Next(s, started, id, Start(candidate, candidate.origin)) && Next(started, loaded, id, Load)
    ensures Next(loaded, verified, id, Verify(evidence)) && Next(verified, done, id, Swap)
    ensures done.store == s.store[candidate.origin := candidate] && ClientOf(done, id).Idle?
  {
    hide Judge, Commits, CommitsToPrefix, ValidOrigin;
    var trusted := Lookup(s.store, candidate.origin);
    assert Judge(trusted, candidate, evidence) == Accepted by {
      if trusted.Some? {
        AdvanceComplete(trusted.value, candidate, evidence, entries);
      } else {
        FirstComplete(candidate, evidence, entries);
      }
    }
    hide HonestEvidence;
    started := s.(clients := s.clients[id := Started(candidate)]);
    loaded := s.(clients := s.clients[id := Loaded(candidate, trusted)]);
    verified := s.(clients := s.clients[id := Verified(candidate, trusted)]);
    done := State(s.store[candidate.origin := candidate], s.clients[id := Idle]);
    assert started.clients[id := Loaded(candidate, trusted)] == loaded.clients;
    assert loaded.clients[id := Verified(candidate, trusted)] == verified.clients;
    assert verified.clients[id := Idle] == done.clients;
  }

  lemma FirstComplete(candidate: Checkpoint, evidence: Evidence, entries: seq<Bytes>)
    requires candidate.treeSize >= 0 && Commits(candidate, entries)
    requires HonestEvidence(evidence, 0, entries) || evidence.completeEntries.None?
    ensures Judge(None, candidate, evidence) == Accepted
  {
    hide Root;
    if evidence.completeEntries.Some? {
      assert entries[..|entries|] == entries;
      HonestScan(evidence.completeEntries.value, entries, candidate);
      ScanExact(evidence.completeEntries.value, candidate);
    }
    hide ScanShows, HonestEvidence;
    RefusalExact(None, candidate, evidence);
  }
}
