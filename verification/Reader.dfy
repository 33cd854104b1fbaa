/** The reader's recursion across logs: each MIGRATION is verified by loading the
    previous log up to the entry it signed, under depth and size limits. */
module Reader {
  import opened Common
  import opened Entries
  import opened Lifecycle
  import opened Stream
  import opened StreamTheorems
  import opened Snapshot

  datatype Limits = Limits(maxDepth: nat, maxHistoryEvents: nat, maxResponseBytes: nat)

  /** What loading a log gives: its scan, the size of its checkpoint, the time its
      events may not exceed (None when the policy, its witness quorum or the advance
      of the trusted checkpoint rejects the checkpoint), and the bytes read. */
  datatype Source = Source(entries: seq<LogEntry>, treeSize: nat, integrationTime: Option<int>, bytes: nat)

  /** Everything outside the reader: the logs it can reach, an optional hook that
      verifies prior histories itself (with the size of its answer), and signatures. */
  datatype World = World(
    sources: map<Ref, Source>,
    hook: Option<Event -> Option<(MigrationResult, nat)>>,
    valid: (Jwk, Payload, string) -> bool,
    limits: Limits)

  datatype History = History(events: seq<Event>, references: Option<seq<Ref>>, items: seq<Item>, migration: Option<MigrationResult>)

  /** The position of a reader on a chain of migrations. */
  datatype Context = Context(seen: set<Ref>, depth: nat)

  predicate Within(w: World, c: Context) {
    c.depth <= w.limits.maxDepth
  }

  /** Every index exactly once. */
  predicate CompleteScan(s: Source) {
    var sorted := SortByIndex(s.entries);
    |sorted| == s.treeSize && forall i :: 0 <= i < |sorted| ==> sorted[i].index == i
  }

  // ---- A hook's answer ----

  /** The MIGRATIONs of a history, last first. */
  function MigrationsBack(es: seq<Event>): (ms: seq<Event>)
    ensures forall m | m in ms :: m.payload.body.Migration?
  {
    if es == [] then []
    else
      var last := |es| - 1;
      (if es[last].payload.body.Migration? then [es[last]] else []) + MigrationsBack(es[..last])
  }

  /** The loop over a hook's MIGRATIONs: each continues the log before it and none is seen twice. */
  predicate UnseenChain(ms: seq<Event>, seen: set<Ref>, current: Ref)
    requires forall m | m in ms :: m.payload.body.Migration?
  {
    current !in seen &&
    (ms != [] ==> ms[0].payload.body.newLog == current && UnseenChain(ms[1..], seen + {current}, ms[0].payload.body.previousLog))
  }

  predicate HookAcceptable(w: World, c: Context, previousLog: Ref, m: MigrationResult) {
    var ms := MigrationsBack(m.priorHistory);
    UnseenChain(ms, c.seen, previousLog) && c.depth + 1 + |ms| <= w.limits.maxDepth
  }

  // ---- The recursion, without its budget ----

  function OptionsFor(w: World, log: Ref, entity: Jwk, time: int, migrate: Event -> Option<MigrationResult>): Options {
    Options(Some(log), Some(entity), Some(time), Some(migrate), w.valid)
  }

  function EntryRefs(log: Ref, items: seq<Item>): (refs: seq<Ref>)
    requires log.LogRef?
    ensures |refs| == |items|
    ensures forall i :: 0 <= i < |items| ==> refs[i] == EntryRef(log.lr, items[i].index)
  {
    seq(|items|, i requires 0 <= i < |items| => EntryRef(log.lr, items[i].index))
  }

  function Selected(s: Source, cutoff: Option<int>): seq<LogEntry> {
    if cutoff.None? then s.entries else Keep(s.entries, (e: LogEntry) => e.index <= cutoff.value)
  }

  /** The part of `loadAndVerifyHistory` after the stream is verified: stitching. */
  function Assemble(log: Ref, domain: string, items: seq<Item>, migration: Option<MigrationResult>): Option<History>
    requires log.LogRef?
  {
    var es, refs := Events(items), EntryRefs(log, items);
    if es == [] || !es[0].payload.body.Migration? then Some(History(es, Some(refs), items, None))
    else if migration.None? then None
    else
      var m := migration.value;
      var references := if m.references.Some? then StitchReferences(es, refs, m) else None;
      var events := Stitch(domain, es, m);
      if (m.references.Some? && references.None?) || events.None? then None
      else Some(History(events.value, references, items, migration))
  }

  /** `loadAndVerifyHistory` on a full scan. */
  function Load(w: World, log: Ref, domain: string, entity: Jwk, c: Context, cutoff: Option<int>): Option<History>
    requires Within(w, c)
    decreases w.limits.maxDepth - c.depth, 1
  {
    if !log.LogRef? || log !in w.sources || w.sources[log].integrationTime.None? || !CompleteScan(w.sources[log]) then None
    else
      var migrate := (e: Event) => Migrate(w, log, entity, c, e);
      var o := OptionsFor(w, log, entity, w.sources[log].integrationTime.value, migrate);
      var items := VerifyStream(Selected(w.sources[log], cutoff), domain, o);
      if items.None? then None
      else Assemble(log, domain, items.value, if items.value == [] then None else migrate(items.value[0].event))
  }

  /** The closure of `migrationVerifier`. */
  function Migrate(w: World, log: Ref, entity: Jwk, c: Context, e: Event): Option<MigrationResult>
    requires Within(w, c)
    decreases w.limits.maxDepth - c.depth, 0
  {
    if !e.payload.body.Migration? then None
    else
      var body := e.payload.body;
      if body.newLog != log || c.depth >= w.limits.maxDepth || body.previousLog in c.seen then None
      else if w.hook.Some? then
        var answer := w.hook.value(e);
        if answer.Some? && HookAcceptable(w, c, body.previousLog, answer.value.0) then Some(answer.value.0) else None
      else
        var prior := LoadThrough(w, body.previousLog, e.payload.domain, body.finalEntryRef, entity,
                                 Context(c.seen + {body.previousLog}, c.depth + 1));
        if prior.None? then None else MigrationResultOf(e.payload.domain, prior.value)
  }

  /** `loadThrough`: the history up to exactly the entry a MIGRATION signed. */
  function LoadThrough(w: World, log: Ref, domain: string, finalRef: Ref, entity: Jwk, c: Context): Option<History>
    requires Within(w, c)
    decreases w.limits.maxDepth - c.depth, 2
  {
    if !finalRef.EntryRef? || LogRef(finalRef.lr) != log then None
    else
      var h := Load(w, log, domain, entity, c, Some(finalRef.index));
      if h.None? || !EndsAt(w, log, entity, h.value, finalRef.index) then None
      else
        var refs := h.value.references.value;
        Some(h.value.(references := Some(refs[..|refs| - 1] + [finalRef])))
  }

  /** The cutoff entry exists, repeats the last applied payload, and is itself a valid occurrence of it. */
  predicate EndsAt(w: World, log: Ref, entity: Jwk, h: History, index: int) {
    && log in w.sources && w.sources[log].integrationTime.Some?
    && 0 <= index < |w.sources[log].entries| == w.sources[log].treeSize
    && h.items != [] && h.references.Some? && |h.references.value| > 0
    && (var content := SortByIndex(w.sources[log].entries)[index].bytes.content;
        var last := h.items[|h.items| - 1];
        var o := OptionsFor(w, log, entity, w.sources[log].integrationTime.value, _ => h.migration);
        && content.Envelope? && content.event.payload == last.event.payload && last.index <= index
        && Decodes(content.event, o)
        && ReplayAll(Events(h.items[..|h.items| - 1]) + [content.event], o).Ok?)
  }

  /** `migrationResult`: the keys an ACTIVE history hands to the next log. */
  function MigrationResultOf(domain: string, h: History): Option<MigrationResult> {
    var snap, issuance := SnapshotOf(h.events, domain, Latest(h.events)), FirstIssuance(h.events);
    if snap.None? || snap.value.status != ACTIVE || issuance.None? then None
    else Some(MigrationResult(issuance.value.payload.body.entity, snap.value.activeKey, h.events, h.references))
  }

  // ---- No log twice on one chain ----

  /** The logs a history went through, the current one first. */
  function LogsBack(es: seq<Event>, log: Ref): (logs: seq<Ref>)
    ensures |logs| >= 1 && logs[0] == log
  {
    [log] + PreviousLogs(MigrationsBack(es))
  }

  function PreviousLogs(ms: seq<Event>): (logs: seq<Ref>)
    requires forall m | m in ms :: m.payload.body.Migration?
    ensures |logs| == |ms|
    ensures forall i :: 0 <= i < |ms| ==> logs[i] == ms[i].payload.body.previousLog
  {
    seq(|ms|, i requires 0 <= i < |ms| => ms[i].payload.body.previousLog)
  }

  ghost predicate Distinct(logs: seq<Ref>) {
    forall i, j :: 0 <= i < j < |logs| ==> logs[i] != logs[j]
  }

  /** The logs behind the current one are new to the context and pairwise different. */
  ghost predicate FreshChain(es: seq<Event>, log: Ref, w: World, c: Context) {
    var logs := LogsBack(es, log);
    && Distinct(logs)
    && (forall i :: 0 < i < |logs| ==> logs[i] !in c.seen)
    && c.depth + |logs| <= w.limits.maxDepth + 1
  }

  lemma {:induction false} MigrationsConcat(a: seq<Event>, b: seq<Event>)
    ensures MigrationsBack(a + b) == MigrationsBack(b) + MigrationsBack(a)
    decreases |b|
  {
    if b == [] {
      assert a + b == a;
      assert [] + MigrationsBack(a) == MigrationsBack(a);
    } else {
      hide MigrationsBack;
      var init, e := b[..|b| - 1], b[|b| - 1];
      assert b == init + [e];
      assert a + b == (a + init) + [e];
      MigrationsConcat(a, init);
      MigrationsLast(init, e);
      MigrationsLast(a + init, e);
      Assoc(if e.payload.body.Migration? then [e] else [], MigrationsBack(init), MigrationsBack(a));
    }
  }

  lemma {:induction false} MigrationsLast(es: seq<Event>, e: Event)
    ensures MigrationsBack(es + [e]) == (if e.payload.body.Migration? then [e] else []) + MigrationsBack(es)
  {
    assert (es + [e])[..|es|] == es;
  }

  lemma {:induction false} OnlyFirstMigrates(es: seq<Event>)
    requires forall k :: 0 < k < |es| ==> !es[k].payload.body.Migration?
    ensures MigrationsBack(es) == if es != [] && es[0].payload.body.Migration? then [es[0]] else []
  {
    if |es| > 1 {
      OnlyFirstMigrates(es[..|es| - 1]);
    } else if |es| == 1 {
      assert es[..0] == [] && MigrationsBack(es[..0]) == [];
    }
  }

  lemma {:induction false} UnseenIsFresh(ms: seq<Event>, seen: set<Ref>, current: Ref)
    requires (forall m | m in ms :: m.payload.body.Migration?) && UnseenChain(ms, seen, current)
    ensures Distinct([current] + PreviousLogs(ms))
    ensures forall log | log in [current] + PreviousLogs(ms) :: log !in seen
  {
    if ms != [] {
      var next := ms[0].payload.body.previousLog;
      UnseenIsFresh(ms[1..], seen + {current}, next);
      assert PreviousLogs(ms) == [next] + PreviousLogs(ms[1..]);
    }
  }

  lemma {:induction false} StitchedLogs(prior: seq<Event>, es: seq<Event>, log: Ref)
    requires |es| > 0 && es[0].payload.body.Migration? && forall k :: 0 < k < |es| ==> !es[k].payload.body.Migration?
    ensures LogsBack(prior + es, log) == [log] + LogsBack(prior, es[0].payload.body.previousLog)
  {
    hide MigrationsBack;
    MigrationsConcat(prior, es);
    OnlyFirstMigrates(es);
    var previous := es[0].payload.body.previousLog;
    assert PreviousLogs([es[0]] + MigrationsBack(prior)) == [previous] + PreviousLogs(MigrationsBack(prior));
  }

  lemma {:induction false} OneLog(es: seq<Event>, log: Ref)
    requires forall k :: 0 <= k < |es| ==> !es[k].payload.body.Migration?
    ensures LogsBack(es, log) == [log]
  {
    hide MigrationsBack;
    OnlyFirstMigrates(es);
  }

  /** Every history the recursion returns went through pairwise different logs,
      none of which the context had seen, and through at most maxDepth of them. */
  lemma {:induction false} ChainIsFresh(w: World, log: Ref, domain: string, entity: Jwk, c: Context, cutoff: Option<int>)
    requires Within(w, c) && log in c.seen && Load(w, log, domain, entity, c, cutoff).Some?
    ensures FreshChain(Load(w, log, domain, entity, c, cutoff).value.events, log, w, c)
    decreases w.limits.maxDepth - c.depth, 1
  {
    hide VerifyStream, ReplayAll, CompleteScan, StitchReferences, PriorEstablishes, SnapshotOf, LogsBack, Migrate;
    var h := Load(w, log, domain, entity, c, cutoff).value;
    var migrate := (e: Event) => Migrate(w, log, entity, c, e);
    var o := OptionsFor(w, log, entity, w.sources[log].integrationTime.value, migrate);
    var entries := Selected(w.sources[log], cutoff);
    var items := VerifyStream(entries, domain, o).value;
    var es := Events(items);
    LoadedShape(entries, domain, o);
    if es[0].payload.body.Migration? {
      var m := migrate(items[0].event).value;
      MigratedIsFresh(w, log, entity, c, es[0]);
      assert h.events == m.priorHistory + es;
      StitchedLogs(m.priorHistory, es, log);
    } else {
      assert forall k :: 0 <= k < |es| ==> !es[k].payload.body.Migration?;
      OneLog(es, log);
    }
  }

  lemma LoadedShape(entries: seq<LogEntry>, domain: string, o: Options)
    requires VerifyStream(entries, domain, o).Some?
    ensures
      var es := Events(VerifyStream(entries, domain, o).value);
      && ReplayAll(es, o).Ok? && |es| > 0
      && (forall k :: 0 < k < |es| ==> !es[k].payload.body.Migration?)
      && (forall e | e in es :: e.payload.domain == domain)
  {
    var items := VerifyStream(entries, domain, o).value;
    var es := Events(items);
    StreamSound(entries, domain, o);
    hide VerifyStream, ReplayFrom;
    forall k | 0 < k < |es| ensures !es[k].payload.body.Migration? {
      AcceptedShape(es, k, o);
    }
    forall e | e in es ensures e.payload.domain == domain {
      var k :| 0 <= k < |es| && es[k] == e;
      assert items[k] in items;
    }
  }

  lemma {:induction false} MigratedIsFresh(w: World, log: Ref, entity: Jwk, c: Context, e: Event)
    requires Within(w, c) && log in c.seen && Migrate(w, log, entity, c, e).Some?
    ensures e.payload.body.Migration?
    ensures
      var logs := LogsBack(Migrate(w, log, entity, c, e).value.priorHistory, e.payload.body.previousLog);
      && Distinct(logs) && (forall l | l in logs :: l !in c.seen)
      && c.depth + 1 + |logs| <= w.limits.maxDepth + 1
    decreases w.limits.maxDepth - c.depth, 0
  {
    hide Load, SnapshotOf, EndsAt, MigrationsBack, PreviousLogs, UnseenChain;
    var body := e.payload.body;
    if w.hook.Some? {
      UnseenIsFresh(MigrationsBack(w.hook.value(e).value.0.priorHistory), c.seen, body.previousLog);
    } else {
      var inner := Context(c.seen + {body.previousLog}, c.depth + 1);
      ChainIsFresh(w, body.previousLog, e.payload.domain, entity, inner, Some(body.finalEntryRef.index));
    }
  }

  // ---- References ----

  /** Every reference passes as one of the log fixed by the later MIGRATIONs, and
      every MIGRATION follows the entry it signed. */
  ghost predicate Referenced(h: History, log: Ref) {
    h.references.Some? ==>
      |h.references.value| == |h.events| > 0 && LinkedBack(h.references.value, h.events, |h.events|, log)
  }

  lemma {:induction false} OneLogReferenced(es: seq<Event>, refs: seq<Ref>, k: nat, log: Ref)
    requires k <= |es| == |refs|
    requires forall i :: 0 <= i < |es| ==> !es[i].payload.body.Migration? && BelongsTo(refs[i], log)
    ensures LinkedBack(refs, es, k, log)
  {
    hide BelongsTo;
    if k > 0 {
      OneLogReferenced(es, refs, k - 1, log);
    }
  }

  /** References stay valid hop after hop. */
  lemma LoadReferenced(w: World, log: Ref, domain: string, entity: Jwk, c: Context, cutoff: Option<int>)
    requires Within(w, c) && Load(w, log, domain, entity, c, cutoff).Some?
    ensures Referenced(Load(w, log, domain, entity, c, cutoff).value, log)
  {
    hide VerifyStream, ReplayAll, CompleteScan, SnapshotOf, LinkedBack;
    var h := Load(w, log, domain, entity, c, cutoff).value;
    var migrate := (e: Event) => Migrate(w, log, entity, c, e);
    var o := OptionsFor(w, log, entity, w.sources[log].integrationTime.value, migrate);
    var entries := Selected(w.sources[log], cutoff);
    var items := VerifyStream(entries, domain, o).value;
    var es, refs := Events(items), EntryRefs(log, items);
    LoadedShape(entries, domain, o);
    if es[0].payload.body.Migration? {
      var m := migrate(items[0].event).value;
      assert es[0].payload.body.newLog == log;
      if h.references.Some? {
        StitchedReferencesValid(es, refs, m, Migration(log, NO_TEXT, refs[|refs| - 1]));
      }
    } else {
      assert forall i :: 0 <= i < |es| ==> !es[i].payload.body.Migration?;
      OneLogReferenced(es, refs, |es|, log);
    }
  }

  lemma {:induction false} LastReplaced(refs: seq<Ref>, es: seq<Event>, log: Ref, finalRef: Ref, k: nat)
    requires 0 < k < |es| == |refs| && LinkedBack(refs, es, k, log)
    ensures LinkedBack(refs[..|refs| - 1] + [finalRef], es, k, log)
    decreases k
  {
    if k > 1 {
      var body := es[k - 1].payload.body;
      LastReplaced(refs, es, if body.Migration? then body.previousLog else log, finalRef, k - 1);
    }
  }

  /** A prior history ends at exactly the entry the MIGRATION signed, and what the
      next hop checks of its references holds by construction. */
  lemma ThroughReferenced(w: World, log: Ref, domain: string, finalRef: Ref, entity: Jwk, c: Context, inbound: Body)
    requires Within(w, c) && LoadThrough(w, log, domain, finalRef, entity, c).Some?
    requires inbound.Migration? && inbound.previousLog == log && inbound.finalEntryRef == finalRef
    ensures
      var h := LoadThrough(w, log, domain, finalRef, entity, c).value;
      h.references.Some? && PriorReferencesValid(inbound, h.events, h.references.value)
  {
    hide Load, LinkedBack, ReplayAll, Decodes;
    LoadReferenced(w, log, domain, entity, c, Some(finalRef.index));
    var h := Load(w, log, domain, entity, c, Some(finalRef.index)).value;
    FinalReference(h.references.value, h.events, log, finalRef);
  }

  lemma {:induction false} FinalReference(refs: seq<Ref>, es: seq<Event>, log: Ref, finalRef: Ref)
    requires |refs| == |es| > 0 && LinkedBack(refs, es, |es|, log) && BelongsTo(finalRef, log)
    ensures LinkedBack(refs[..|refs| - 1] + [finalRef], es, |es|, log)
  {
    var n := |es|;
    if n > 1 {
      var body := es[n - 1].payload.body;
      LastReplaced(refs, es, if body.Migration? then body.previousLog else log, finalRef, n - 1);
    }
  }

  // ---- The budget ----

  /** The candidate reaches the migration verifier. */
  predicate Consults(e: Event, o: Options) {
    && Decodes(e, o) && e.payload.body.Migration? && MigrationShape(e.payload.body)
    && Timely(e.payload, o) && FirstChainFields(e.payload.chain)
    && (o.lr.None? || e.payload.body.newLog == o.lr.value)
  }

  /** Before genesis, a MIGRATION is selected only after the verifier answered. */
  lemma SelectedWasConsulted(s: Scan, entry: LogEntry, domain: string, o: Options)
    requires s.selected == [] && s.authority.None? && Round(s, entry, domain, o).Some?
    requires o.verifyMigration.Some?
    ensures
      var s' := Round(s, entry, domain, o).value;
      s' != s && s'.selected[0].event.payload.body.Migration? ==>
        && Addressed(entry.bytes, domain, o) && s'.selected[0].event == entry.bytes.content.event
        && Consults(entry.bytes.content.event, o) && o.verifyMigration.value(entry.bytes.content.event).Some?
  {
    if Round(s, entry, domain, o).value != s {
      var e := entry.bytes.content.event;
      assert [e][0] == e;
      assert ReplayAll([e], o) == Genesis(e, o);
    }
  }

  lemma ConsultsMigration(e: Event, o: Options)
    requires Consults(e, o)
    ensures e.payload.body.Migration?
  {
  }

  /** And when the verifier refuses, the scan stops. */
  lemma ConsultedFails(s: Scan, entry: LogEntry, domain: string, o: Options)
    requires s.selected == [] && s.authority.None? && s.applied == map[] && o.verifyMigration.Some?
    requires Addressed(entry.bytes, domain, o) && Consults(entry.bytes.content.event, o)
    requires o.verifyMigration.value(entry.bytes.content.event).None?
    ensures Round(s, entry, domain, o).None?
  {
    var e := entry.bytes.content.event;
    assert [e][0] == e;
    assert ReplayAll([e], o) == Genesis(e, o);
  }

  predicate Crossed(items: seq<Item>) {
    items != [] && items[0].event.payload.body.Migration?
  }

  ghost predicate NoMigrations(entries: seq<LogEntry>) {
    forall e | e in entries && e.bytes.content.Envelope? :: !e.bytes.content.event.payload.body.Migration?
  }

  lemma NoMigrationSelected(s: Source, cutoff: Option<int>)
    requires NoMigrations(s.entries)
    ensures NoMigrations(Selected(s, cutoff))
  {
    if cutoff.Some? {
      var p := (e: LogEntry) => e.index <= cutoff.value;
      forall e | e in Keep(s.entries, p) ensures e in s.entries {
        KeepMember(s.entries, p, e);
      }
    }
  }

  lemma NotCrossed(w: World, log: Ref, domain: string, entity: Jwk, c: Context, cutoff: Option<int>, items: seq<Item>)
    requires Within(w, c) && log in w.sources && w.sources[log].integrationTime.Some? && NoMigrations(w.sources[log].entries)
    requires
      var o := OptionsFor(w, log, entity, w.sources[log].integrationTime.value, (e: Event) => Migrate(w, log, entity, c, e));
      VerifyStream(Selected(w.sources[log], cutoff), domain, o) == Some(items)
    requires items != []
    ensures !items[0].event.payload.body.Migration?
  {
    var o := OptionsFor(w, log, entity, w.sources[log].integrationTime.value, (e: Event) => Migrate(w, log, entity, c, e));
    var entries := Selected(w.sources[log], cutoff);
    hide VerifyStream, Migrate, Decodes, Addressed;
    NoMigrationSelected(w.sources[log], cutoff);
    StreamSound(entries, domain, o);
    assert items[0] in items && FromInput(items[0], entries, domain, o);
    var i :| 0 <= i < |entries| && entries[i].bytes.content == Envelope(items[0].event);
    assert entries[i] in entries;
  }

  lemma NoMigrationSorted(entries: seq<LogEntry>, i: nat)
    requires NoMigrations(entries) && i < |SortByIndex(entries)| && SortByIndex(entries)[i].bytes.content.Envelope?
    ensures !SortByIndex(entries)[i].bytes.content.event.payload.body.Migration?
  {
    hide SortByIndex;
    SortKeeps(entries);
    assert SortByIndex(entries)[i] in multiset(entries);
  }

  lemma AssembledEvents(log: Ref, domain: string, items: seq<Item>, migration: Option<MigrationResult>)
    requires log.LogRef? && Assemble(log, domain, items, migration).Some?
    ensures
      var h := Assemble(log, domain, items, migration).value;
      if Crossed(items) then migration.Some? && h.events == migration.value.priorHistory + Events(items)
      else h.events == Events(items)
  {
    hide StitchReferences, PriorEstablishes, SnapshotOf;
  }

  lemma AssembledItems(log: Ref, domain: string, items: seq<Item>, migration: Option<MigrationResult>)
    requires log.LogRef? && Assemble(log, domain, items, migration).Some?
    ensures Assemble(log, domain, items, migration).value.items == items
  {
    hide StitchReferences, Stitch;
  }

  /** The references of a stitched history are those of the prior history, if it has
      any, followed by those of the current log. */
  lemma AssembledReferences(log: Ref, domain: string, items: seq<Item>, migration: Option<MigrationResult>)
    requires log.LogRef? && Assemble(log, domain, items, migration).Some?
    ensures
      var h := Assemble(log, domain, items, migration).value;
      if !Crossed(items) then h.references == Some(EntryRefs(log, items)) && h.migration == None
      else
        && migration.Some? && h.migration == migration
        && h.references == if migration.value.references.None? then None
                           else Some(migration.value.references.value + EntryRefs(log, items))
  {
    hide PriorReferencesValid, PriorEstablishes, SnapshotOf;
  }

  /** One run of a reader with the budget all its nested readers share. */
  class ReaderRun {
    const w: World
    var events: nat
    var bytes: nat
    var active: bool

    constructor (w: World, active: bool)
      ensures this.w == w && events == 0 && bytes == 0 && this.active == active
    {
      this.w := w;
      events, bytes, this.active := 0, 0, active;
    }

    predicate Exceeded()
      reads this
    {
      active && (events > w.limits.maxHistoryEvents || bytes > w.limits.maxResponseBytes)
    }

    /** `loadAndVerifyHistory`: unless the budget is exceeded it returns exactly what
        the recursion without a budget defines, every event of it has been charged,
        and a history that crossed a migration is within the limits. */
    method LoadRun(log: Ref, domain: string, entity: Jwk, c: Context, cutoff: Option<int>) returns (r: Option<History>)
      requires Within(w, c)
      modifies this
      ensures events >= old(events) && bytes >= old(bytes) && (old(active) ==> active)
      ensures r == if active && (events > w.limits.maxHistoryEvents || bytes > w.limits.maxResponseBytes) then None
                   else Load(w, log, domain, entity, c, cutoff)
      ensures r.Some? ==> events >= old(events) + |r.value.events| && log in w.sources && bytes >= old(bytes) + w.sources[log].bytes
      ensures log.LogRef? && log in w.sources && NoMigrations(w.sources[log].entries) ==>
                && bytes == old(bytes) + w.sources[log].bytes && active == old(active)
                && (r.Some? ==> events == old(events) + |r.value.events|)
      ensures r.Some? && Crossed(r.value.items) ==> active && |r.value.events| <= w.limits.maxHistoryEvents
      decreases w.limits.maxDepth - c.depth, 2
    {
      hide VerifyStream, ReplayAll, CompleteScan, Migrate, Assemble, NoMigrations;
      if !log.LogRef? || log !in w.sources { return None; }
      var source := w.sources[log];
      bytes := bytes + source.bytes;
      if Exceeded() { return None; }
      if source.integrationTime.None? || !CompleteScan(source) { return None; }
      if NoMigrations(source.entries) {
        NoMigrationSelected(source, cutoff);
      }
      var items := StreamRun(log, domain, entity, c, Selected(source, cutoff), source.integrationTime.value);
      if items.None? { return None; }
      events := events + |items.value|;
      if Exceeded() { return None; }
      if NoMigrations(source.entries) && items.value != [] {
        NotCrossed(w, log, domain, entity, c, cutoff, items.value);
      }
      r := Assemble(log, domain, items.value,
                    if items.value == [] then None else Migrate(w, log, entity, c, items.value[0].event));
      if r.Some? {
        ghost var migration := if items.value == [] then None else Migrate(w, log, entity, c, items.value[0].event);
        AssembledItems(log, domain, items.value, migration);
        AssembledEvents(log, domain, items.value, migration);
      }
    }

    /** `verifyStreamLifecycle` with this reader's migration verifier. */
    method StreamRun(log: Ref, domain: string, entity: Jwk, c: Context, entries: seq<LogEntry>, time: int)
      returns (r: Option<seq<Item>>)
      requires Within(w, c)
      modifies this
      ensures events >= old(events) && bytes >= old(bytes) && (old(active) ==> active)
      ensures
        var o := OptionsFor(w, log, entity, time, (e: Event) => Migrate(w, log, entity, c, e));
        || r == VerifyStream(entries, domain, o)
        || (r.None? && active && (events > w.limits.maxHistoryEvents || bytes > w.limits.maxResponseBytes))
      ensures NoMigrations(entries) ==> events == old(events) && bytes == old(bytes) && active == old(active)
      ensures r.Some? && Crossed(r.value) ==>
                && active && Migrate(w, log, entity, c, r.value[0].event).Some?
                && events >= old(events) + |Migrate(w, log, entity, c, r.value[0].event).value.priorHistory|
      decreases w.limits.maxDepth - c.depth, 1
    {
      hide ReplayAll, Migrate, Decodes, Round, SortByIndex, Consults, TotalSize;
      var o := OptionsFor(w, log, entity, time, (e: Event) => Migrate(w, log, entity, c, e));
      if !WithinLimits(entries) { return None; }
      var sorted := SortByIndex(entries);
      var s := START;
      var i := 0;
      while i < |sorted|
        invariant 0 <= i <= |sorted|
        invariant ScanAll(sorted[..i], domain, o) == Some(s)
        invariant events >= old(events) && bytes >= old(bytes) && (old(active) ==> active)
        invariant NoMigrations(entries) ==> events == old(events) && bytes == old(bytes) && active == old(active)
        invariant Crossed(s.selected) ==>
                    && active && Migrate(w, log, entity, c, s.selected[0].event).Some?
                    && events >= old(events) + |Migrate(w, log, entity, c, s.selected[0].event).value.priorHistory|
      {
        var entry := sorted[i];
        ScanPrefix(sorted, i, domain, o);
        ScanConsistent(sorted[..i], domain, o);
        if s.selected == [] && Addressed(entry.bytes, domain, o) && Consults(entry.bytes.content.event, o) {
          ConsultsMigration(entry.bytes.content.event, o);
          if NoMigrations(entries) {
            NoMigrationSorted(entries, i);
          }
          var answer := MigrateRun(log, entity, c, entry.bytes.content.event);
          if answer.None? {
            if !Exceeded() {
              ConsultedFails(s, entry, domain, o);
            }
            return None;
          }
        }
        var next := Round(s, entry, domain, o);
        if next.None? { return None; }
        RoundConsistent(s, entry, domain, o);
        if s.selected == [] {
          SelectedWasConsulted(s, entry, domain, o);
        }
        s := next.value;
        i := i + 1;
      }
      assert sorted[..|sorted|] == sorted;
      if ReplayAll(Events(s.selected), o).Err? { return None; }
      return Some(s.selected);
    }

    /** The closure of `migrationVerifier`. */
    method MigrateRun(log: Ref, entity: Jwk, c: Context, e: Event) returns (r: Option<MigrationResult>)
      requires Within(w, c)
      modifies this
      ensures events >= old(events) && bytes >= old(bytes) && active
      ensures r == if active && (events > w.limits.maxHistoryEvents || bytes > w.limits.maxResponseBytes) then None
                   else Migrate(w, log, entity, c, e)
      ensures r.Some? ==> events >= old(events) + |r.value.priorHistory|
      ensures r.Some? && w.hook.Some? && w.hook.value(e).Some? ==>
                events == old(events) + |r.value.priorHistory| && bytes == old(bytes) + w.hook.value(e).value.1
      decreases w.limits.maxDepth - c.depth, 0
    {
      hide HookAcceptable, LoadThrough, SnapshotOf;
      active := true;
      if Exceeded() { return None; }
      if !e.payload.body.Migration? { return None; }
      var body := e.payload.body;
      if body.newLog != log || c.depth >= w.limits.maxDepth || body.previousLog in c.seen { return None; }
      if w.hook.Some? {
        var answer := w.hook.value(e);
        if answer.None? || !HookAcceptable(w, c, body.previousLog, answer.value.0) { return None; }
        events, bytes := events + |answer.value.0.priorHistory|, bytes + answer.value.1;
        if Exceeded() { return None; }
        return Some(answer.value.0);
      }
      var prior := LoadThroughRun(body.previousLog, e.payload.domain, body.finalEntryRef, entity,
                                  Context(c.seen + {body.previousLog}, c.depth + 1));
      if prior.None? { return None; }
      r := MigrationResultOf(e.payload.domain, prior.value);
    }

    method LoadThroughRun(log: Ref, domain: string, finalRef: Ref, entity: Jwk, c: Context) returns (r: Option<History>)
      requires Within(w, c)
      modifies this
      ensures events >= old(events) && bytes >= old(bytes) && (old(active) ==> active)
      ensures r == if active && (events > w.limits.maxHistoryEvents || bytes > w.limits.maxResponseBytes) then None
                   else LoadThrough(w, log, domain, finalRef, entity, c)
      ensures r.Some? ==> events >= old(events) + |r.value.events|
      decreases w.limits.maxDepth - c.depth, 3
    {
      hide Load, ReplayAll, Decodes, SortByIndex;
      if !finalRef.EntryRef? || LogRef(finalRef.lr) != log { return None; }
      var h := LoadRun(log, domain, entity, c, Some(finalRef.index));
      if h.None? || !EndsAt(w, log, entity, h.value, finalRef.index) { return None; }
      var refs := h.value.references.value;
      return Some(h.value.(references := Some(refs[..|refs| - 1] + [finalRef])));
    }
  }
}
