/** `verifyStreamLifecycle`: the lifecycle of one domain extracted from log
    entries that may contain anything. */
module Stream {
  import opened Common
  import opened Entries
  import opened Lifecycle

  /** Entry bytes as the verifier reads them: an envelope, something it cannot
      read, or JSON beyond the nesting limit, with the length of the bytes. */
  datatype Content = Unreadable | TooDeep | Envelope(event: Event)
  datatype Entry = Entry(content: Content, size: nat)
  type LogEntry = Indexed<Entry>

  /** An accepted event with its log index. */
  datatype Item = Item(index: int, event: Event)

  function Events(items: seq<Item>): (es: seq<Event>)
    ensures |es| == |items|
    ensures forall i :: 0 <= i < |items| ==> es[i] == items[i].event
  {
    seq(|items|, i requires 0 <= i < |items| => items[i].event)
  }

  /** The authority in force after an applied event. */
  datatype Authority = Authority(entityKey: Jwk, operationalKey: Jwk)

  datatype Applied = Applied(payload: Payload, authority: Authority)

  /** The variables of the loop. `authority` is None until genesis. */
  datatype Scan = Scan(selected: seq<Item>, applied: map<EventId, Applied>, authority: Option<Authority>)

  const START := Scan([], map[], None)

  /** The keys an entry must verify under: those in force after its claimed predecessor, or the current ones. */
  function AuthorityFor(s: Scan, p: Payload): Authority
    requires s.authority.Some?
  {
    if p.chain.prevEventId.Some? && p.chain.prevEventId.value in s.applied
    then s.applied[p.chain.prevEventId.value].authority
    else s.authority.value
  }

  /** The entry is for this domain and stream and carries the signature that would authorize it. */
  predicate Addressed(entry: Entry, domain: string, o: Options) {
    && entry.content.Envelope?
    && Authorizes(entry.content.event, o)
    && entry.content.event.payload.domain == domain
  }

  predicate Authenticated(s: Scan, e: Event, o: Options)
    requires s.authority.Some?
  {
    var authority := AuthorityFor(s, e.payload);
    AllRolesVerify(e, authority.entityKey, authority.operationalKey, o)
  }

  /** One round of the loop; None when it throws. */
  function Round(s: Scan, entry: LogEntry, domain: string, o: Options): Option<Scan> {
    if entry.bytes.content.TooDeep? then None
    else if !Addressed(entry.bytes, domain, o) then Some(s)
    else
      var e := entry.bytes.content.event;
      var id := IdOf(e.payload);
      if id in s.applied then (if s.applied[id].payload == e.payload then Some(s) else None)
      else if s.authority.None? then Found(s, Item(entry.index, e), o)
      else if !Authenticated(s, e, o) then Some(s)
      else if !Decodes(e, o) then None
      else
        var r := ReplayAll(Events(s.selected + [Item(entry.index, e)]), o);
        if r.Err? then None else Some(Push(s, Item(entry.index, e), AuthorityAfter(s.authority.value, e)))
  }

  /** Before genesis: a candidate that is not a valid genesis is skipped, but a
      MIGRATION whose prior history cannot be verified stops the scan. */
  function Found(s: Scan, item: Item, o: Options): Option<Scan> {
    if !Decodes(item.event, o) then Some(s)
    else
      var r := ReplayAll([item.event], o);
      if r.Ok? then Some(Push(s, item, Authority(r.value.entityKey, r.value.operationalKey)))
      else if item.event.payload.body.Migration? && (o.verifyMigration.None? || r.error.MigrationFailed?) then None
      else Some(s)
  }

  function AuthorityAfter(a: Authority, e: Event): Authority {
    if e.payload.body.KeyRotation? then a.(operationalKey := e.payload.body.newKey) else a
  }

  function Push(s: Scan, item: Item, authority: Authority): Scan {
    Scan(s.selected + [item], s.applied[IdOf(item.event.payload) := Applied(item.event.payload, authority)], Some(authority))
  }

  function ScanAll(entries: seq<LogEntry>, domain: string, o: Options): Option<Scan> {
    if entries == [] then Some(START)
    else
      var last := |entries| - 1;
      var s := ScanAll(entries[..last], domain, o);
      if s.None? then None else Round(s.value, entries[last], domain, o)
  }

  function TotalSize(entries: seq<LogEntry>): nat {
    if entries == [] then 0 else entries[0].bytes.size + TotalSize(entries[1..])
  }

  const MAX_ENTRIES: nat := 1_000_000
  const MAX_ENTRY_BYTES: nat := 268_435_456

  predicate WithinLimits(entries: seq<LogEntry>) {
    |entries| <= MAX_ENTRIES && TotalSize(entries) <= MAX_ENTRY_BYTES
  }

  /** The outcome of `verifyStreamLifecycle`; None when it throws. */
  function VerifyStream(entries: seq<LogEntry>, domain: string, o: Options): Option<seq<Item>> {
    if !WithinLimits(entries) then None
    else
      var s := ScanAll(SortByIndex(entries), domain, o);
      if s.None? || ReplayAll(Events(s.value.selected), o).Err? then None else Some(s.value.selected)
  }

  /** The loop itself, with its variables, against `VerifyStream`. */
  method VerifyStreamLifecycle(entries: seq<LogEntry>, domain: string, o: Options) returns (r: Option<seq<Item>>)
    ensures r == VerifyStream(entries, domain, o)
  {
    hide Decodes, AllRolesVerify, ReplayAll, SortByIndex;
    var total := 0;
    for i := 0 to |entries|
      invariant total + TotalSize(entries[i..]) == TotalSize(entries)
    {
      assert entries[i..][1..] == entries[i + 1..];
      total := total + entries[i].bytes.size;
    }
    if |entries| > MAX_ENTRIES || total > MAX_ENTRY_BYTES {
      return None;
    }
    var sorted := SortByIndex(entries);
    var selected: seq<Item> := [];
    var applied: map<EventId, Applied> := map[];
    var authority: Option<Authority> := None;
    var i := 0;
    while i < |sorted|
      invariant 0 <= i <= |sorted|
      invariant ScanAll(sorted[..i], domain, o) == Some(Scan(selected, applied, authority))
    {
      var entry := sorted[i];
      ghost var before := Scan(selected, applied, authority);
      ScanPrefix(sorted, i, domain, o);
      i := i + 1;
      if entry.bytes.content.TooDeep? { return None; }
      if !Addressed(entry.bytes, domain, o) { continue; }
      var e := entry.bytes.content.event;
      var id := IdOf(e.payload);
      if id in applied {
        if applied[id].payload != e.payload { return None; }
        continue;
      }
      var item := Item(entry.index, e);
      if authority.None? {
        if !Decodes(e, o) { continue; }
        var genesis := VerifyLifecycle([e], o);
        if genesis.Err? {
          if e.payload.body.Migration? && (o.verifyMigration.None? || genesis.error.MigrationFailed?) { return None; }
          continue;
        }
        authority := Some(Authority(genesis.value.entityKey, genesis.value.operationalKey));
      } else {
        if !Authenticated(Scan(selected, applied, authority), e, o) { continue; }
        if !Decodes(e, o) { return None; }
        var replay := VerifyLifecycle(Events(selected + [item]), o);
        if replay.Err? { return None; }
        if e.payload.body.KeyRotation? {
          authority := Some(Authority(authority.value.entityKey, e.payload.body.newKey));
        }
      }
      selected := selected + [item];
      applied := applied[id := Applied(e.payload, authority.value)];
    }
    assert sorted[..|sorted|] == sorted;
    var final := VerifyLifecycle(Events(selected), o);
    r := if final.Ok? then Some(selected) else None;
  }

  /** The scan of a prefix and the round after it. */
  lemma {:induction false} ScanPrefix(entries: seq<LogEntry>, k: nat, domain: string, o: Options)
    requires k < |entries|
    ensures ScanAll(entries[..k + 1], domain, o) ==
            (var s := ScanAll(entries[..k], domain, o); if s.None? then None else Round(s.value, entries[k], domain, o))
    ensures ScanAll(entries[..k + 1], domain, o).None? ==> ScanAll(entries, domain, o).None?
    decreases |entries| - k
  {
    hide Round;
    assert entries[..k + 1][..k] == entries[..k];
    if k + 1 < |entries| {
      ScanPrefix(entries, k + 1, domain, o);
    } else {
      assert entries[..k + 1] == entries;
    }
  }
}
