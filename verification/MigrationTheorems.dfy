/** Migrated histories across logs: which references really lie in their own log,
    and that stitching rejects nothing the recursion has verified. */
module MigrationTheorems {
  import opened Common
  import opened Lifecycle
  import opened Entries
  import opened LifecycleTheorems
  import opened Stream
  import opened StreamTheorems
  import opened Snapshot
  import opened SnapshotTheorems
  import opened Reader

  // ---- References in their own log ----

  /** The reference spells the log and then an entry of it. */
  predicate InLog(reference: Ref, log: Ref) {
    match reference
    case LogRef(_) => false
    case EntryRef(lr, _) => log == LogRef(lr)
    case OtherRef(text) => log.OtherRef? && log.text + "@" <= text
  }

  /** Each of the first k references lies in the log fixed by the later MIGRATIONs. */
  ghost predicate OwnLogs(references: seq<Ref>, es: seq<Event>, k: nat, log: Ref)
    requires k <= |es| == |references|
  {
    k > 0 ==>
      && InLog(references[k - 1], log)
      && OwnLogs(references, es, k - 1, if es[k - 1].payload.body.Migration? then es[k - 1].payload.body.previousLog else log)
  }

  /** Some reference is accepted for the log: it is a c2sp-tlog log, or a reference of another method. */
  predicate Usable(log: Ref) {
    log.LogRef? || (log.OtherRef? && IsReference(log) && Method(log) != C2SP)
  }

  lemma BelongsUsable(reference: Ref, log: Ref)
    requires BelongsTo(reference, log)
    ensures Usable(log) && (log.LogRef? ==> InLog(reference, log))
  {
  }

  lemma LogsBackLast(es: seq<Event>, k: nat, log: Ref)
    requires 0 < k <= |es|
    ensures
      var body := es[k - 1].payload.body;
      LogsBack(es[..k], log) == if body.Migration? then [log] + LogsBack(es[..k - 1], body.previousLog) else LogsBack(es[..k - 1], log)
  {
    var e, before := es[k - 1], es[..k - 1];
    assert es[..k] == before + [e];
    hide MigrationsBack;
    MigrationsLast(before, e);
    if e.payload.body.Migration? {
      assert PreviousLogs([e] + MigrationsBack(before)) == [e.payload.body.previousLog] + PreviousLogs(MigrationsBack(before));
    } else {
      assert [] + MigrationsBack(before) == MigrationsBack(before);
    }
  }

  /** Accepted references: every log on the chain is usable, and if every one is a
      c2sp-tlog log, every reference lies in its own log. */
  lemma {:induction false} LinkedOwnLogs(references: seq<Ref>, es: seq<Event>, k: nat, log: Ref)
    requires 0 < k <= |es| == |references| && LinkedBack(references, es, k, log)
    ensures forall l | l in LogsBack(es[..k], log) :: Usable(l)
    ensures (forall l | l in LogsBack(es[..k], log) :: l.LogRef?) ==> OwnLogs(references, es, k, log)
  {
    hide BelongsTo, LogsBack, Usable, InLog;
    BelongsUsable(references[k - 1], log);
    LogsBackLast(es, k, log);
    var body := es[k - 1].payload.body;
    var before := if body.Migration? then body.previousLog else log;
    assert log in LogsBack(es[..k], log) by {
      assert LogsBack(es[..k], log)[0] == log;
    }
    if k > 1 {
      LinkedOwnLogs(references, es, k - 1, before);
    } else {
      OneEventLog(es, log);
    }
  }

  lemma OneEventLog(es: seq<Event>, log: Ref)
    requires |es| > 0
    ensures LogsBack(es[..0], log) == [log]
  {
    assert MigrationsBack(es[..0]) == [];
  }

  /** Acceptance puts every reference of a prior history into its own log, for
      every history that went through the given logs. */
  ghost predicate OwnLogClaim(logs: seq<Ref>) {
    forall inbound: Body, prior: seq<Event>, references: seq<Ref> |
      && inbound.Migration? && LogsBack(prior, inbound.previousLog) == logs
      && PriorReferencesValid(inbound, prior, references) ::
      OwnLogs(references, prior, |prior|, inbound.previousLog)
  }

  // ---- A history through given logs ----

  /** An accepted reference: for a log of another method, one into a different log. */
  function Stray(log: Ref): Ref {
    match log
    case LogRef(lr) => EntryRef(lr, 0)
    case EntryRef(lr, _) => EntryRef(lr, 0)
    case OtherRef(text) => OtherRef(text + "x@1")
  }

  lemma StrayBelongs(log: Ref)
    requires Usable(log)
    ensures BelongsTo(Stray(log), log)
    ensures InLog(Stray(log), log) <==> log.LogRef?
    ensures log.OtherRef? ==> InLog(Stray(log), OtherRef(log.text + "x"))
  {
    if log.OtherRef? {
      var text := log.text + "x@1";
      ColonStays(log.text, "x@1");
      assert text[..ColonAt(text)] == log.text[..ColonAt(log.text)];
      assert text[|log.text|] == 'x' && (log.text + "@")[|log.text|] == '@';
      assert (log.text + "x") + "@" <= text;
    }
  }

  lemma {:induction false} ColonStays(text: string, more: string)
    requires ColonAt(text) < |text|
    ensures ColonAt(text + more) == ColonAt(text)
  {
    if text[0] != ':' {
      ColonStays(text[1..], more);
      assert (text + more)[1..] == text[1..] + more;
    }
  }

  function EventOf(body: Body): Event {
    Event(Payload(NO_TEXT, "", 0, body, true, Chain(None, None, None, false)), Signatures(Absent, Absent, Absent, Absent, false))
  }

  function ChainEvent(logs: seq<Ref>, k: nat): Event
    requires k < |logs|
  {
    var n := |logs|;
    EventOf(if k == 0 then Retirement else Migration(logs[n - k], logs[n - 1 - k], Stray(logs[n - k])))
  }

  /** One event per log, oldest log first; all but the first are MIGRATIONs. */
  function ChainEvents(logs: seq<Ref>): (es: seq<Event>)
    ensures |es| == |logs| && forall k :: 0 <= k < |logs| ==> es[k] == ChainEvent(logs, k)
  {
    seq(|logs|, k requires 0 <= k < |logs| => ChainEvent(logs, k))
  }

  function ChainRef(logs: seq<Ref>, k: nat): Ref
    requires k < |logs|
  {
    Stray(logs[|logs| - 1 - k])
  }

  function ChainRefs(logs: seq<Ref>): (refs: seq<Ref>)
    ensures |refs| == |logs| && forall k :: 0 <= k < |logs| ==> refs[k] == ChainRef(logs, k)
  {
    seq(|logs|, k requires 0 <= k < |logs| => ChainRef(logs, k))
  }

  /** Event and reference number k - 1 of the chain belong to log number n - k. */
  lemma ChainAt(logs: seq<Ref>, k: nat)
    requires 0 < k <= |logs|
    ensures
      var n, body := |logs|, ChainEvents(logs)[k - 1].payload.body;
      && ChainRefs(logs)[k - 1] == Stray(logs[n - k])
      && body == if k == 1 then Retirement else Migration(logs[n - k + 1], logs[n - k], Stray(logs[n - k + 1]))
  {
    hide Stray;
  }

  lemma {:induction false} ChainLinked(logs: seq<Ref>, k: nat)
    requires 0 < k <= |logs| && forall i :: 0 <= i < |logs| ==> Usable(logs[i])
    ensures LinkedBack(ChainRefs(logs), ChainEvents(logs), k, logs[|logs| - k])
  {
    hide BelongsTo, Usable, Stray, ChainEvent, ChainRef;
    var n := |logs|;
    ChainAt(logs, k);
    StrayBelongs(logs[n - k]);
    if k > 1 {
      ChainAt(logs, k - 1);
      StrayBelongs(logs[n - k + 1]);
      ChainLinked(logs, k - 1);
    }
  }

  lemma {:induction false} ChainLogs(logs: seq<Ref>, k: nat)
    requires 0 < k <= |logs|
    ensures LogsBack(ChainEvents(logs)[..k], logs[|logs| - k]) == logs[|logs| - k..]
  {
    hide LogsBack, Stray, ChainEvent;
    var n, es := |logs|, ChainEvents(logs);
    ChainAt(logs, k);
    LogsBackLast(es, k, logs[n - k]);
    FirstAndRest(logs, n - k);
    if k == 1 {
      OneEventLog(es, logs[n - 1]);
    } else {
      ChainLogs(logs, k - 1);
    }
  }

  lemma FirstAndRest<T>(s: seq<T>, i: nat)
    requires i < |s|
    ensures s[i..] == [s[i]] + s[i + 1..]
  {
  }

  lemma {:induction false} ChainStrays(logs: seq<Ref>, k: nat)
    requires 0 < k <= |logs| && forall i :: 0 <= i < |logs| ==> Usable(logs[i])
    requires OwnLogs(ChainRefs(logs), ChainEvents(logs), k, logs[|logs| - k])
    ensures forall i :: |logs| - k <= i < |logs| ==> logs[i].LogRef?
  {
    hide InLog, Usable, Stray, ChainEvent, ChainRef;
    var n := |logs|;
    ChainAt(logs, k);
    StrayBelongs(logs[n - k]);
    if k > 1 {
      ChainStrays(logs, k - 1);
    }
  }

  /** The condition a caller can look up in the signed MIGRATIONs: all logs are
      c2sp-tlog logs, or one is not usable, so that nothing is accepted at all. */
  ghost predicate Confined(logs: seq<Ref>) {
    (forall l | l in logs :: l.LogRef?) || (exists l | l in logs :: !Usable(l))
  }

  lemma AcceptedOwnLogs(inbound: Body, prior: seq<Event>, references: seq<Ref>)
    requires inbound.Migration? && PriorReferencesValid(inbound, prior, references)
    requires Confined(LogsBack(prior, inbound.previousLog))
    ensures OwnLogs(references, prior, |prior|, inbound.previousLog)
  {
    hide LinkedBack, LogsBack, Usable, OwnLogs;
    assert prior[..|prior|] == prior;
    LinkedOwnLogs(references, prior, |prior|, inbound.previousLog);
  }

  /** The claim holds for a chain of logs exactly under that condition. */
  lemma OwnLogExact(logs: seq<Ref>)
    requires logs != []
    ensures OwnLogClaim(logs) <==> Confined(logs)
  {
    hide LinkedBack, LogsBack, OwnLogs, Usable;
    if Confined(logs) {
      hide Confined;
      forall inbound: Body, prior: seq<Event>, references: seq<Ref> |
        && inbound.Migration? && LogsBack(prior, inbound.previousLog) == logs
        && PriorReferencesValid(inbound, prior, references)
        ensures OwnLogs(references, prior, |prior|, inbound.previousLog)
      {
        AcceptedOwnLogs(inbound, prior, references);
      }
    } else if OwnLogClaim(logs) {
      StrayChain(logs);
    }
  }

  lemma StrayChain(logs: seq<Ref>)
    requires logs != [] && OwnLogClaim(logs) && forall i :: 0 <= i < |logs| ==> Usable(logs[i])
    ensures forall i :: 0 <= i < |logs| ==> logs[i].LogRef?
  {
    hide LinkedBack, LogsBack, Usable, OwnLogs, ChainEvent, ChainRef, Stray, OwnLogClaim;
    var n := |logs|;
    var es, refs := ChainEvents(logs), ChainRefs(logs);
    ChainLinked(logs, n);
    ChainLogs(logs, n);
    assert es[..n] == es && logs[0..] == logs;
    ClaimAt(logs, Migration(logs[0], NO_TEXT, refs[n - 1]), es, refs);
    ChainStrays(logs, n);
  }

  lemma ClaimAt(logs: seq<Ref>, inbound: Body, prior: seq<Event>, references: seq<Ref>)
    requires OwnLogClaim(logs) && inbound.Migration? && LogsBack(prior, inbound.previousLog) == logs
    requires PriorReferencesValid(inbound, prior, references)
    ensures OwnLogs(references, prior, |prior|, inbound.previousLog)
  {
  }

  const REKOR := "rekor"
  const REKOR_A := OtherRef(REKOR + ":A")
  const REKOR_B_1 := OtherRef(REKOR + ":B@1")

  lemma MethodOf(name: string, rest: string)
    requires name != "" && (forall j :: 0 <= j < |name| ==> 'a' <= name[j] <= 'z')
    requires |rest| > 1 && rest[0] == ':' && !LineEnd(rest[1])
    ensures IsReference(OtherRef(name + rest)) && Method(OtherRef(name + rest)) == name
  {
    ColonAfter(name, rest);
    assert (name + rest)[..|name|] == name;
  }

  lemma SameMethod()
    ensures BelongsTo(REKOR_B_1, REKOR_A)
    ensures InLog(REKOR_B_1, OtherRef(REKOR + ":B")) && !InLog(REKOR_B_1, REKOR_A)
  {
    hide IsReference, Method;
    MethodOf(REKOR, ":A");
    MethodOf(REKOR, ":B@1");
    assert REKOR[0] != C2SP[0];
    assert REKOR_B_1.text[|REKOR| + 1] != (REKOR_A.text + "@")[|REKOR| + 1];
    assert REKOR_B_1.text == (REKOR + ":B") + "@" + "1";
  }

  /** Outside c2sp-tlog only the method is compared: a one-event history of log
      rekor:A is accepted with a reference into log rekor:B. */
  lemma OwnLogFails(newLog: Ref)
    ensures
      var inbound, prior := Migration(REKOR_A, newLog, REKOR_B_1), [EventOf(Retirement)];
      && PriorReferencesValid(inbound, prior, [REKOR_B_1])
      && InLog(REKOR_B_1, OtherRef(REKOR + ":B")) && !OwnLogs([REKOR_B_1], prior, 1, REKOR_A)
      && !OwnLogClaim(LogsBack(prior, REKOR_A))
  {
    SameMethod();
    hide BelongsTo, InLog, LogsBack, REKOR, REKOR_A, REKOR_B_1;
    var inbound, prior := Migration(REKOR_A, newLog, REKOR_B_1), [EventOf(Retirement)];
    var references := [REKOR_B_1];
    assert LinkedBack(references, prior, 0, REKOR_A);
    assert LinkedBack(references, prior, 1, REKOR_A);
    assert PriorReferencesValid(inbound, prior, references);
    assert !OwnLogs(references, prior, |prior|, inbound.previousLog);
  }

  lemma {:induction false} ColonAfter(name: string, rest: string)
    requires ':' !in name && rest != "" && rest[0] == ':'
    ensures ColonAt(name + rest) == |name|
  {
    if name == "" {
      assert name + rest == rest;
    } else {
      ColonAfter(name[1..], rest);
      assert (name + rest)[1..] == name[1..] + rest;
    }
  }

  // ---- What a reader loads ----

  function Inner(c: Context, e: Event): Context
    requires e.payload.body.Migration?
  {
    Context(c.seen + {e.payload.body.previousLog}, c.depth + 1)
  }

  /** Without a hook, a verified prior history is what a reader of the previous log
      loads up to the signed entry. */
  lemma PriorIsLoaded(w: World, log: Ref, entity: Jwk, c: Context, e: Event)
    requires Within(w, c) && w.hook.None? && Migrate(w, log, entity, c, e).Some?
    ensures
      && e.payload.body.Migration? && e.payload.body.newLog == log && c.depth < w.limits.maxDepth
      && var body, inner, m := e.payload.body, Inner(c, e), Migrate(w, log, entity, c, e).value;
         var through := LoadThrough(w, body.previousLog, e.payload.domain, body.finalEntryRef, entity, inner);
         && through.Some? && MigrationResultOf(e.payload.domain, through.value) == Some(m)
         && body.finalEntryRef.EntryRef?
         && var loaded := Load(w, body.previousLog, e.payload.domain, entity, inner, Some(body.finalEntryRef.index));
            loaded.Some? && loaded.value.events == m.priorHistory
  {
    hide Load, EndsAt, SnapshotOf, FirstIssuance;
  }

  /** The stream a reader verifies. */
  function Items(w: World, log: Ref, domain: string, entity: Jwk, c: Context, cutoff: Option<int>): Option<seq<Item>>
    requires Within(w, c) && log in w.sources && w.sources[log].integrationTime.Some?
  {
    var entries := w.sources[log].entries;
    var read := if cutoff.None? then entries else Keep(entries, (e: LogEntry) => e.index <= cutoff.value);
    VerifyStream(read, domain, ReaderOptions(w, log, entity, c))
  }

  function ReaderOptions(w: World, log: Ref, entity: Jwk, c: Context): Options
    requires Within(w, c) && log in w.sources && w.sources[log].integrationTime.Some?
  {
    OptionsFor(w, log, entity, w.sources[log].integrationTime.value, (e: Event) => Migrate(w, log, entity, c, e))
  }

  predicate Readable(w: World, log: Ref) {
    log.LogRef? && log in w.sources && w.sources[log].integrationTime.Some? && CompleteScan(w.sources[log])
  }

  lemma LoadUnfolds(w: World, log: Ref, domain: string, entity: Jwk, c: Context, cutoff: Option<int>)
    requires Within(w, c)
    ensures
      Load(w, log, domain, entity, c, cutoff) ==
      if !Readable(w, log) || Items(w, log, domain, entity, c, cutoff).None? then None
      else
        var items := Items(w, log, domain, entity, c, cutoff).value;
        Assemble(log, domain, items, if items == [] then None else Migrate(w, log, entity, c, items[0].event))
  {
    hide VerifyStream, CompleteScan, Assemble, Migrate;
    if log in w.sources {
      SelectedExact(w.sources[log], cutoff);
    }
  }

  lemma SelectedExact(s: Source, cutoff: Option<int>)
    ensures Selected(s, cutoff) ==
            if cutoff.None? then s.entries else Keep(s.entries, (e: LogEntry) => e.index <= cutoff.value)
  {
    if cutoff.Some? {
      KeepSelected(s.entries, cutoff.value, (e: LogEntry) => e.index <= cutoff.value);
    }
  }

  lemma KeepSelected(entries: seq<LogEntry>, cutoff: int, p: LogEntry -> bool)
    requires forall e | e in entries :: p(e) <==> e.index <= cutoff
    ensures forall s: Source | s.entries == entries :: Selected(s, Some(cutoff)) == Keep(entries, p)
  {
    forall s: Source | s.entries == entries ensures Selected(s, Some(cutoff)) == Keep(entries, p) {
      KeepSame(entries, (e: LogEntry) => e.index <= Some(cutoff).value, p);
    }
  }

  /** What the stream of a reader looks like, and where its genesis comes from. */
  lemma ItemsShape(w: World, log: Ref, domain: string, entity: Jwk, c: Context, cutoff: Option<int>)
    requires Within(w, c) && Readable(w, log) && Items(w, log, domain, entity, c, cutoff).Some?
    ensures
      var es, o := Events(Items(w, log, domain, entity, c, cutoff).value), ReaderOptions(w, log, entity, c);
      && |es| > 0 && ReplayAll(es, o).Ok?
      && (forall k :: 0 < k < |es| ==> !es[k].payload.body.Migration?)
      && (forall e | e in es :: e.payload.domain == domain)
      && (es[0].payload.body.Migration? ==> Migrate(w, log, entity, c, es[0]).Some?)
  {
    var o := ReaderOptions(w, log, entity, c);
    var es := Events(Items(w, log, domain, entity, c, cutoff).value);
    SelectedExact(w.sources[log], cutoff);
    hide VerifyStream, ReplayFrom, CompleteScan, Migrate, Selected;
    LoadedShape(Selected(w.sources[log], cutoff), domain, o);
    StepAt(es, 0, o);
  }

  /** Without a hook every log of a loaded history is a c2sp-tlog log. */
  lemma {:induction false} ReadLogs(w: World, log: Ref, domain: string, entity: Jwk, c: Context, cutoff: Option<int>)
    requires Within(w, c) && w.hook.None? && Load(w, log, domain, entity, c, cutoff).Some?
    ensures forall l | l in LogsBack(Load(w, log, domain, entity, c, cutoff).value.events, log) :: l.LogRef?
    decreases w.limits.maxDepth - c.depth
  {
    hide Load, Migrate, LogsBack, ReplayAll, Items, ReaderOptions, Assemble;
    LoadUnfolds(w, log, domain, entity, c, cutoff);
    ItemsShape(w, log, domain, entity, c, cutoff);
    var h := Load(w, log, domain, entity, c, cutoff).value;
    var items := Items(w, log, domain, entity, c, cutoff).value;
    var es := Events(items);
    AssembledEvents(log, domain, items, Migrate(w, log, entity, c, items[0].event));
    if es[0].payload.body.Migration? {
      var e, body := es[0], es[0].payload.body;
      var m := Migrate(w, log, entity, c, e).value;
      PriorIsLoaded(w, log, entity, c, e);
      ReadLogs(w, body.previousLog, e.payload.domain, entity, Inner(c, e), Some(body.finalEntryRef.index));
      StitchedLogs(m.priorHistory, es, log);
      assert h.events == m.priorHistory + es;
    } else {
      assert forall k :: 0 <= k < |es| ==> !es[k].payload.body.Migration?;
      OneLog(es, log);
    }
  }

  /** The references of a loaded history lie in their own logs whenever its logs are
      c2sp-tlog logs, and without a hook they always are. */
  lemma LoadOwnLogs(w: World, log: Ref, domain: string, entity: Jwk, c: Context, cutoff: Option<int>)
    requires Within(w, c) && Load(w, log, domain, entity, c, cutoff).Some?
    ensures
      var h := Load(w, log, domain, entity, c, cutoff).value;
      && (w.hook.None? ==> Confined(LogsBack(h.events, log)))
      && (h.references.Some? && Confined(LogsBack(h.events, log)) ==>
            |h.references.value| == |h.events| && OwnLogs(h.references.value, h.events, |h.events|, log))
  {
    hide Load, LinkedBack, LogsBack, OwnLogs, Usable;
    var h := Load(w, log, domain, entity, c, cutoff).value;
    if w.hook.None? {
      ReadLogs(w, log, domain, entity, c, cutoff);
    }
    if h.references.Some? && Confined(LogsBack(h.events, log)) {
      LoadReferenced(w, log, domain, entity, c, cutoff);
      assert h.events[..|h.events|] == h.events;
      LinkedOwnLogs(h.references.value, h.events, |h.events|, log);
    }
  }

  // ---- Stitching rejects nothing that was verified ----

  /** Every MIGRATION of a linked history leads into one of its logs. */
  lemma {:induction false} NewLogsBack(references: seq<Ref>, es: seq<Event>, k: nat, log: Ref, i: nat)
    requires i < k <= |es| == |references| && LinkedBack(references, es, k, log) && es[i].payload.body.Migration?
    ensures es[i].payload.body.newLog in LogsBack(es[..k], log)
  {
    hide BelongsTo, LogsBack;
    LogsBackLast(es, k, log);
    var body := es[k - 1].payload.body;
    assert LogsBack(es[..k], log)[0] == log;
    if i < k - 1 {
      NewLogsBack(references, es, k - 1, if body.Migration? then body.previousLog else log, i);
    }
  }

  /** What a nested reader hands over is exactly what stitching asks for. */
  lemma PriorIsEstablished(w: World, log: Ref, domain: string, entity: Jwk, c: Context, es: seq<Event>)
    requires Within(w, c) && w.hook.None? && log in c.seen
    requires es != [] && es[0].payload.domain == domain && Migrate(w, log, entity, c, es[0]).Some?
    ensures
      var m := Migrate(w, log, entity, c, es[0]).value;
      && PriorEstablishes(domain, es, m)
      && m.references.Some? && PriorReferencesValid(es[0].payload.body, m.priorHistory, m.references.value)
  {
    hide Migrate, Load, LoadThrough, LinkedBack, LogsBack, WalkAll, LastThumb, SameMigration;
    var m := Migrate(w, log, entity, c, es[0]).value;
    PriorIsLoaded(w, log, entity, c, es[0]);
    var body, prior := es[0].payload.body, m.priorHistory;
    ThroughReferenced(w, body.previousLog, domain, body.finalEntryRef, entity, Inner(c, es[0]), body);
    SnapshotThumb(prior, domain, Latest(prior));
    MigratedIsFresh(w, log, entity, c, es[0]);
    NotAgain(m.references.value, prior, body, c.seen);
  }

  /** A MIGRATION into a log that the prior history did not go through is not in it. */
  lemma NotAgain(references: seq<Ref>, prior: seq<Event>, body: Body, seen: set<Ref>)
    requires body.Migration? && body.newLog in seen && PriorReferencesValid(body, prior, references)
    requires forall l | l in LogsBack(prior, body.previousLog) :: l !in seen
    ensures forall e | e in prior :: !SameMigration(e.payload.body, body)
  {
    hide LinkedBack, LogsBack;
    assert prior[..|prior|] == prior;
    forall e | e in prior && e.payload.body.Migration? ensures !SameMigration(e.payload.body, body) {
      var i :| 0 <= i < |prior| && prior[i] == e;
      NewLogsBack(references, prior, |prior|, body.previousLog, i);
    }
  }

  /** Without a hook a history is loaded exactly when the scan is complete and the
      stream is accepted: once a MIGRATION has been verified against its previous
      log, neither stitching its events nor stitching its references can fail. */
  lemma LoadExact(w: World, log: Ref, domain: string, entity: Jwk, c: Context, cutoff: Option<int>)
    requires Within(w, c) && w.hook.None? && log in c.seen
    ensures Readable(w, log) <==>
            log.LogRef? && log in w.sources && w.sources[log].integrationTime.Some? && HoldsEveryIndex(w.sources[log])
    ensures Load(w, log, domain, entity, c, cutoff).Some? <==>
            Readable(w, log) && Items(w, log, domain, entity, c, cutoff).Some?
  {
    ReadableExact(w, log);
    hide HoldsEveryIndex, CompleteScan, Readable;
    hide Load, Migrate, ReplayAll, Items, ReaderOptions, PriorEstablishes, SnapshotOf, LinkedBack;
    LoadUnfolds(w, log, domain, entity, c, cutoff);
    if Readable(w, log) && Items(w, log, domain, entity, c, cutoff).Some? {
      ItemsShape(w, log, domain, entity, c, cutoff);
      var items := Items(w, log, domain, entity, c, cutoff).value;
      var es := Events(items);
      if es[0].payload.body.Migration? {
        PriorIsEstablished(w, log, domain, entity, c, es);
        PriorIsLoaded(w, log, entity, c, es[0]);
        VerifiesBy(w, log, entity, c, es[0]);
        StitchedAccounts(es, domain, Migrate(w, log, entity, c, es[0]).value, ReaderOptions(w, log, entity, c));
        OwnEntries(log, items);
      }
    }
  }

  lemma ReadableExact(w: World, log: Ref)
    ensures Readable(w, log) <==>
            log.LogRef? && log in w.sources && w.sources[log].integrationTime.Some? && HoldsEveryIndex(w.sources[log])
  {
    hide HoldsEveryIndex, CompleteScan;
    if log in w.sources {
      CompleteScanExact(w.sources[log]);
    }
  }

  lemma VerifiesBy(w: World, log: Ref, entity: Jwk, c: Context, e: Event)
    requires Within(w, c) && log in w.sources && w.sources[log].integrationTime.Some?
    ensures
      var o := ReaderOptions(w, log, entity, c);
      o.verifyMigration.Some? && o.verifyMigration.value(e) == Migrate(w, log, entity, c, e)
  {
    hide Migrate;
  }

  lemma OwnEntries(log: Ref, items: seq<Item>)
    requires log.LogRef?
    ensures forall r | r in EntryRefs(log, items) :: BelongsTo(r, log)
  {
  }

  // ---- A complete scan ----

  ghost predicate HasIndex(entries: seq<LogEntry>, i: int) {
    exists e :: e in entries && e.index == i
  }

  /** As many entries as the checkpoint says, and every index among them. */
  ghost predicate HoldsEveryIndex(s: Source) {
    |s.entries| == s.treeSize && forall i :: 0 <= i < s.treeSize ==> HasIndex(s.entries, i)
  }

  lemma {:induction false} NotBefore(sorted: seq<LogEntry>, i: nat, p: nat)
    requires Sorted(sorted) && i < |sorted| && p < |sorted| && sorted[p].index == i
    requires forall k :: 0 <= k < |sorted| ==> HasIndex(sorted, k)
    ensures i <= p
  {
    if i > 0 {
      assert HasIndex(sorted, i - 1);
      var e :| e in sorted && e.index == i - 1;
      var q :| 0 <= q < |sorted| && sorted[q] == e;
      NotBefore(sorted, i - 1, q);
      if p < q {
        SortedPair(sorted, p, q);
      }
    }
  }

  lemma {:induction false} NotAfter(sorted: seq<LogEntry>, i: nat, p: nat)
    requires Sorted(sorted) && i < |sorted| && p < |sorted| && sorted[p].index == i
    requires forall k :: 0 <= k < |sorted| ==> HasIndex(sorted, k)
    ensures p <= i
    decreases |sorted| - i
  {
    if i + 1 < |sorted| {
      assert HasIndex(sorted, i + 1);
      var e :| e in sorted && e.index == i + 1;
      var q :| 0 <= q < |sorted| && sorted[q] == e;
      NotAfter(sorted, i + 1, q);
      if q < p {
        SortedPair(sorted, q, p);
      }
    }
  }

  /** The reader's check of a scan: every index exactly once. */
  lemma CompleteScanExact(s: Source)
    ensures CompleteScan(s) <==> HoldsEveryIndex(s)
  {
    hide SortByIndex;
    var sorted := SortByIndex(s.entries);
    SortKeeps(s.entries);
    assert |multiset(sorted)| == |sorted| && |multiset(s.entries)| == |s.entries|;
    assert forall e :: e in sorted <==> e in multiset(sorted);
    assert forall e :: e in s.entries <==> e in multiset(s.entries);
    if CompleteScan(s) {
      forall i | 0 <= i < s.treeSize ensures HasIndex(s.entries, i) {
        assert sorted[i] in s.entries && sorted[i].index == i;
      }
    }
    if HoldsEveryIndex(s) {
      forall k | 0 <= k < |sorted| ensures HasIndex(sorted, k) {
        assert HasIndex(s.entries, k);
        var e :| e in s.entries && e.index == k;
      }
      forall i | 0 <= i < |sorted| ensures sorted[i].index == i {
        assert HasIndex(sorted, i);
        var e :| e in sorted && e.index == i;
        var p :| 0 <= p < |sorted| && sorted[p] == e;
        NotBefore(sorted, i, p);
        NotAfter(sorted, i, p);
      }
    }
  }

  /** In a complete scan, position and index are the same thing. */
  lemma EntryAt(s: Source, index: int, e: LogEntry)
    requires CompleteScan(s)
    ensures e in s.entries && e.index == index <==> 0 <= index < |s.entries| == s.treeSize && SortByIndex(s.entries)[index] == e
  {
    hide SortByIndex;
    var sorted := SortByIndex(s.entries);
    SortKeeps(s.entries);
    assert |multiset(sorted)| == |sorted| && |multiset(s.entries)| == |s.entries|;
    assert e in sorted <==> e in multiset(sorted);
    assert e in s.entries <==> e in multiset(s.entries);
  }

  // ---- The entry a MIGRATION signs ----

  /** The log holds, at the index, an occurrence of the last applied payload whose own
      signatures make it lawful after the events before it. */
  ghost predicate Occurs(s: Source, h: History, index: int, o: Options) {
    && h.items != []
    && exists e: LogEntry ::
         && e in s.entries && e.index == index && e.bytes.content.Envelope?
         && var event, n := e.bytes.content.event, |h.items|;
            && event.payload == h.items[n - 1].event.payload
            && Decodes(event, o) && Lawful(Events(h.items[..n - 1]) + [event], o)
  }

  function ThroughOptions(w: World, log: Ref, entity: Jwk, h: History): Options
    requires log in w.sources && w.sources[log].integrationTime.Some?
  {
    OptionsFor(w, log, entity, w.sources[log].integrationTime.value, _ => h.migration)
  }

  /** What was loaded up to an index: events that end with those of the stream, none beyond the index. */
  lemma LoadedItems(w: World, log: Ref, domain: string, entity: Jwk, c: Context, index: int)
    requires Within(w, c) && Load(w, log, domain, entity, c, Some(index)).Some?
    ensures Readable(w, log)
    ensures
      var h := Load(w, log, domain, entity, c, Some(index)).value;
      && h.items != [] && h.events != []
      && h.events[|h.events| - 1] == h.items[|h.items| - 1].event
      && h.items[|h.items| - 1].index <= index && h.events[|h.events| - 1].payload.domain == domain
  {
    hide Load, Migrate, ReplayAll, ReaderOptions, Assemble, CompleteScan;
    LoadUnfolds(w, log, domain, entity, c, Some(index));
    ItemsShape(w, log, domain, entity, c, Some(index));
    var h := Load(w, log, domain, entity, c, Some(index)).value;
    var items := Items(w, log, domain, entity, c, Some(index)).value;
    AssembledEvents(log, domain, items, Migrate(w, log, entity, c, items[0].event));
    AssembledItems(log, domain, items, Migrate(w, log, entity, c, items[0].event));
    var last := items[|items| - 1];
    assert last.event in Events(items) by {
      assert Events(items)[|items| - 1] == last.event;
    }
    var entries := Keep(w.sources[log].entries, (e: LogEntry) => e.index <= Some(index).value);
    hide VerifyStream;
    StreamSound(entries, domain, ReaderOptions(w, log, entity, c));
    assert last in items;
    FromUpTo(last, w.sources[log].entries, index, domain, ReaderOptions(w, log, entity, c));
  }

  lemma FromUpTo(item: Item, entries: seq<LogEntry>, index: int, domain: string, o: Options)
    requires FromInput(item, Keep(entries, (e: LogEntry) => e.index <= index), domain, o)
    ensures item.index <= index
  {
    hide Addressed, Decodes;
    var p := (e: LogEntry) => e.index <= index;
    var kept := Keep(entries, p);
    var i :| 0 <= i < |kept| && kept[i].index == item.index;
    KeepMember(entries, p, kept[i]);
  }

  lemma EndsAtExact(w: World, log: Ref, entity: Jwk, h: History, index: int)
    requires Readable(w, log) && h.items != [] && h.items[|h.items| - 1].index <= index
    requires h.references.Some? && |h.references.value| > 0
    ensures EndsAt(w, log, entity, h, index) <==> Occurs(w.sources[log], h, index, ThroughOptions(w, log, entity, h))
  {
    hide Decodes, ReplayAll, Lawful, CompleteScan, SortByIndex;
    var s, o, n := w.sources[log], ThroughOptions(w, log, entity, h), |h.items|;
    if 0 <= index < |s.entries| == s.treeSize {
      var e := SortByIndex(s.entries)[index];
      EntryAt(s, index, e);
      if e.bytes.content.Envelope? {
        LifecycleExact(Events(h.items[..n - 1]) + [e.bytes.content.event], o);
      }
    }
    forall e | e in s.entries && e.index == index ensures 0 <= index < |s.entries| == s.treeSize && SortByIndex(s.entries)[index] == e {
      EntryAt(s, index, e);
    }
  }

  /** Whatever was loaded for a MIGRATION ends with the payload of the very entry it
      signed: that entry lies in the previous log, at the signed index, and is of the domain. */
  lemma ThroughEnds(w: World, log: Ref, domain: string, finalRef: Ref, entity: Jwk, c: Context)
    requires Within(w, c) && LoadThrough(w, log, domain, finalRef, entity, c).Some?
    ensures finalRef.EntryRef? && log == LogRef(finalRef.lr) && log in w.sources
    ensures
      var h := LoadThrough(w, log, domain, finalRef, entity, c).value;
      && h.events != []
      && exists e :: && e in w.sources[log].entries && e.index == finalRef.index && e.bytes.content.Envelope?
                     && e.bytes.content.event.payload == h.events[|h.events| - 1].payload
                     && e.bytes.content.event.payload.domain == domain
  {
    hide Load, Decodes, ReplayAll, CompleteScan, SortByIndex;
    LoadedItems(w, log, domain, entity, c, finalRef.index);
    var s := w.sources[log];
    EntryAt(s, finalRef.index, SortByIndex(s.entries)[finalRef.index]);
  }

  /** Without a hook, a history is loaded for a MIGRATION exactly when the reference
      names an entry of that log, the log loads up to it, and the entry is a valid
      occurrence of the last applied payload. */
  lemma ThroughExact(w: World, log: Ref, domain: string, finalRef: Ref, entity: Jwk, c: Context)
    requires Within(w, c) && w.hook.None?
    ensures
      LoadThrough(w, log, domain, finalRef, entity, c).Some? <==>
      && finalRef.EntryRef? && log == LogRef(finalRef.lr)
      && var h := Load(w, log, domain, entity, c, Some(finalRef.index));
         h.Some? && Readable(w, log) &&
         Occurs(w.sources[log], h.value, finalRef.index, ThroughOptions(w, log, entity, h.value))
  {
    hide Load, EndsAt, Occurs, CompleteScan;
    if finalRef.EntryRef? && log == LogRef(finalRef.lr) && Load(w, log, domain, entity, c, Some(finalRef.index)).Some? {
      var h := Load(w, log, domain, entity, c, Some(finalRef.index)).value;
      LoadedItems(w, log, domain, entity, c, finalRef.index);
      LoadReferenced(w, log, domain, entity, c, Some(finalRef.index));
      LoadHasReferences(w, log, domain, entity, c, Some(finalRef.index));
      EndsAtExact(w, log, entity, h, finalRef.index);
    }
  }

  lemma LoadHasReferences(w: World, log: Ref, domain: string, entity: Jwk, c: Context, cutoff: Option<int>)
    requires Within(w, c) && w.hook.None? && Load(w, log, domain, entity, c, cutoff).Some?
    ensures Load(w, log, domain, entity, c, cutoff).value.references.Some?
  {
    hide Load, Migrate, ReplayAll, Items, ReaderOptions, PriorEstablishes, SnapshotOf, LoadThrough, LinkedBack, CompleteScan;
    LoadUnfolds(w, log, domain, entity, c, cutoff);
    ItemsShape(w, log, domain, entity, c, cutoff);
    var items := Items(w, log, domain, entity, c, cutoff).value;
    var e := items[0].event;
    assert Events(items)[0] == e;
    if e.payload.body.Migration? {
      var body := e.payload.body;
      PriorIsLoaded(w, log, entity, c, e);
      ThroughReferenced(w, body.previousLog, e.payload.domain, body.finalEntryRef, entity, Inner(c, e), body);
    }
  }

  // ---- What a verified migration imports ----

  /** Every loaded history has a snapshot. */
  lemma LoadedSnapshot(w: World, log: Ref, domain: string, entity: Jwk, c: Context, cutoff: Option<int>)
    requires Within(w, c) && Load(w, log, domain, entity, c, cutoff).Some?
    ensures
      var es := Load(w, log, domain, entity, c, cutoff).value.events;
      SnapshotOf(es, domain, Latest(es)).Some?
  {
    hide Load, Migrate, ReplayAll, Items, ReaderOptions, PriorEstablishes, SnapshotOf, StitchReferences, LastThumb, CompleteScan;
    LoadUnfolds(w, log, domain, entity, c, cutoff);
    ItemsShape(w, log, domain, entity, c, cutoff);
    var es := Events(Items(w, log, domain, entity, c, cutoff).value);
    if !es[0].payload.body.Migration? {
      GenesisIsStart(es, ReaderOptions(w, log, entity, c));
      ThreeAccounts(es, domain, Latest(es), ReaderOptions(w, log, entity, c));
    }
  }

  lemma GenesisIsStart(es: seq<Event>, o: Options)
    requires |es| > 0 && ReplayAll(es, o).Ok?
    ensures es[0].payload.body.Issuance? || es[0].payload.body.Migration?
  {
    hide ReplayAll;
    AcceptedShape(es, 0, o);
  }

  lemma {:induction false} CutAtLatest(es: seq<Event>, at: int)
    requires forall e :: e in es ==> e.payload.timestamp <= at
    ensures CutAt(es, at) == |es|
  {
    assert forall i :: 0 <= i < |es| ==> es[i] in es;
  }

  /** What the snapshot of a whole history shows, when there is one. */
  lemma WholeSnapshot(es: seq<Event>, domain: string)
    requires SnapshotOf(es, domain, Latest(es)).Some?
    ensures |es| > 0 && es[0].payload.body.Issuance? && FirstIssuance(es) == Some(es[0])
    ensures SnapshotOf(es, domain, Latest(es)) == Some(Shown(es, |es|))
  {
    hide SnapshotOf, Shown;
    CutAtLatest(es, Latest(es));
    SnapshotExact(es, domain, Latest(es));
    hide Fitting;
  }

  /** Without a hook, a MIGRATION is verified exactly when it leads into this log,
      depth is left, its previous log is new, the history loads up to the signed
      entry, and that history does not end the identity. It imports the entity key
      of the ISSUANCE and the operational key last bound. */
  lemma MigrateExact(w: World, log: Ref, entity: Jwk, c: Context, e: Event)
    requires Within(w, c) && w.hook.None? && e.payload.body.Migration?
    ensures
      var body, m := e.payload.body, Migrate(w, log, entity, c, e);
      if body.newLog != log || c.depth >= w.limits.maxDepth || body.previousLog in c.seen then m.None?
      else
        var h := LoadThrough(w, body.previousLog, e.payload.domain, body.finalEntryRef, entity, Inner(c, e));
        if h.None? then m.None?
        else
          var es := h.value.events;
          && |es| > 0 && es[0].payload.body.Issuance?
          && m == if StatusOf(es[|es| - 1].payload.body) != ACTIVE then None
                  else Some(MigrationResult(es[0].payload.body.entity, OperationalAt(es, |es|, es[0].payload.body.operational),
                                            es, h.value.references))
  {
    hide LoadThrough, SnapshotOf, FirstIssuance, Migrate, Shown, OperationalAt;
    MigrateUnfolds(w, log, entity, c, e);
    var body := e.payload.body;
    if body.newLog == log && c.depth < w.limits.maxDepth && body.previousLog !in c.seen {
      var h := LoadThrough(w, body.previousLog, e.payload.domain, body.finalEntryRef, entity, Inner(c, e));
      if h.Some? {
        ThroughSnapshot(w, body.previousLog, e.payload.domain, body.finalEntryRef, entity, Inner(c, e));
        WholeSnapshot(h.value.events, e.payload.domain);
        ShownKeys(h.value.events);
      }
    }
  }

  lemma MigrateUnfolds(w: World, log: Ref, entity: Jwk, c: Context, e: Event)
    requires Within(w, c) && w.hook.None? && e.payload.body.Migration?
    ensures
      var body, m := e.payload.body, Migrate(w, log, entity, c, e);
      if body.newLog != log || c.depth >= w.limits.maxDepth || body.previousLog in c.seen then m.None?
      else
        var h := LoadThrough(w, body.previousLog, e.payload.domain, body.finalEntryRef, entity, Inner(c, e));
        m == if h.None? then None else MigrationResultOf(e.payload.domain, h.value)
  {
    hide LoadThrough, MigrationResultOf;
  }

  lemma ShownKeys(es: seq<Event>)
    requires |es| > 0 && es[0].payload.body.Issuance?
    ensures Shown(es, |es|).status == StatusOf(es[|es| - 1].payload.body)
    ensures Shown(es, |es|).activeKey == OperationalAt(es, |es|, es[0].payload.body.operational)
  {
  }

  lemma ThroughSnapshot(w: World, log: Ref, domain: string, finalRef: Ref, entity: Jwk, c: Context)
    requires Within(w, c) && LoadThrough(w, log, domain, finalRef, entity, c).Some?
    ensures
      var es := LoadThrough(w, log, domain, finalRef, entity, c).value.events;
      SnapshotOf(es, domain, Latest(es)).Some?
  {
    hide Load, EndsAt, SnapshotOf;
    LoadedSnapshot(w, log, domain, entity, c, Some(finalRef.index));
  }

  // ---- What a hook may answer ----

  /** Pairwise different logs, none of them seen. */
  ghost predicate NewLogs(logs: seq<Ref>, seen: set<Ref>) {
    Distinct(logs) && forall i :: 0 <= i < |logs| ==> logs[i] !in seen
  }

  /** Each MIGRATION, last first, leads into the log in its place. */
  ghost predicate LeadInto(ms: seq<Event>, logs: seq<Ref>)
    requires |ms| <= |logs| && forall m | m in ms :: m.payload.body.Migration?
  {
    forall i :: 0 <= i < |ms| ==> ms[i].payload.body.newLog == logs[i]
  }

  lemma NewLogsCons(current: Ref, rest: seq<Ref>, seen: set<Ref>)
    ensures NewLogs([current] + rest, seen) <==> current !in seen && NewLogs(rest, seen + {current})
  {
    var logs := [current] + rest;
    assert logs[0] == current && forall i :: 0 <= i < |rest| ==> logs[i + 1] == rest[i];
    assert forall i :: 1 <= i < |logs| ==> logs[i] == rest[i - 1];
  }

  lemma LeadIntoCons(ms: seq<Event>, current: Ref, rest: seq<Ref>)
    requires ms != [] && |ms| <= |rest| + 1 && forall m | m in ms :: m.payload.body.Migration?
    ensures LeadInto(ms, [current] + rest) <==> ms[0].payload.body.newLog == current && LeadInto(ms[1..], rest)
  {
    var logs := [current] + rest;
    assert forall i :: 0 <= i < |ms[1..]| ==> ms[1..][i] == ms[i + 1] && logs[i + 1] == rest[i];
    assert forall i :: 1 <= i < |ms| ==> ms[i] == ms[1..][i - 1] && logs[i] == rest[i - 1];
  }

  /** The loop over a hook's MIGRATIONs accepts exactly those that continue each
      other through pairwise different logs that are new to the context. */
  lemma {:induction false} UnseenExact(ms: seq<Event>, seen: set<Ref>, current: Ref)
    requires forall m | m in ms :: m.payload.body.Migration?
    ensures
      var logs := [current] + PreviousLogs(ms);
      UnseenChain(ms, seen, current) <==> NewLogs(logs, seen) && LeadInto(ms, logs)
  {
    hide NewLogs, LeadInto;
    if ms == [] {
      assert PreviousLogs(ms) == [];
      LastLog(current, seen, ms);
    } else {
      var next := ms[0].payload.body.previousLog;
      var rest := [next] + PreviousLogs(ms[1..]);
      assert PreviousLogs(ms) == rest;
      UnseenExact(ms[1..], seen + {current}, next);
      NewLogsCons(current, rest, seen);
      LeadIntoCons(ms, current, rest);
    }
  }

  lemma LastLog(current: Ref, seen: set<Ref>, ms: seq<Event>)
    requires ms == []
    ensures NewLogs([current] + [], seen) <==> current !in seen
    ensures LeadInto(ms, [current] + [])
  {
    assert ([current] + [])[0] == current;
  }

  /** With a hook, a MIGRATION is verified exactly when it leads into this log and the
      hook's history goes through new logs, one after the other, within the depth limit. */
  lemma HookExact(w: World, log: Ref, entity: Jwk, c: Context, e: Event, m: MigrationResult)
    requires Within(w, c) && w.hook.Some? && e.payload.body.Migration?
    ensures
      var body, ms := e.payload.body, MigrationsBack(m.priorHistory);
      var logs := [body.previousLog] + PreviousLogs(ms);
      Migrate(w, log, entity, c, e) == Some(m) <==>
      && body.newLog == log && w.hook.value(e).Some? && w.hook.value(e).value.0 == m
      && NewLogs(logs, c.seen) && LeadInto(ms, logs) && c.depth + |logs| <= w.limits.maxDepth
  {
    hide NewLogs, LeadInto, MigrationsBack, UnseenChain, PreviousLogs;
    var ms := MigrationsBack(m.priorHistory);
    UnseenExact(ms, c.seen, e.payload.body.previousLog);
    FirstNew(e.payload.body.previousLog, PreviousLogs(ms), c.seen);
  }

  lemma FirstNew(current: Ref, rest: seq<Ref>, seen: set<Ref>)
    ensures NewLogs([current] + rest, seen) ==> current !in seen
  {
    NewLogsCons(current, rest, seen);
  }

  // ---- What stitching and the reference check accept ----

  /** The log that the MIGRATIONs from position i + 1 to k - 1 fix for the event at position i. */
  function LogAt(es: seq<Event>, k: nat, log: Ref, i: nat): Ref
    requires i < k <= |es|
    decreases k
  {
    if i == k - 1 then log
    else LogAt(es, k - 1, if es[k - 1].payload.body.Migration? then es[k - 1].payload.body.previousLog else log, i)
  }

  /** A reference passes in its place: as one of its log, and before a MIGRATION as the entry that it signed. */
  predicate PassesAt(references: seq<Ref>, es: seq<Event>, k: nat, log: Ref, i: nat)
    requires i < k <= |es| == |references|
  {
    && BelongsTo(references[i], LogAt(es, k, log, i))
    && match es[i].payload.body
       case Migration(previousLog, newLog, finalEntryRef) =>
         newLog == LogAt(es, k, log, i) && i > 0 && references[i - 1] == finalEntryRef && BelongsTo(finalEntryRef, previousLog)
       case _ => true
  }

  /** The backwards walk accepts exactly the references that pass in their places. */
  lemma {:induction false} LinkedExact(references: seq<Ref>, es: seq<Event>, k: nat, log: Ref)
    requires k <= |es| == |references|
    ensures LinkedBack(references, es, k, log) <==> forall i :: 0 <= i < k ==> PassesAt(references, es, k, log, i)
  {
    hide BelongsTo;
    if k > 0 {
      var j, body := k - 1, es[k - 1].payload.body;
      var before := if body.Migration? then body.previousLog else log;
      LinkedExact(references, es, j, before);
      assert LinkedBack(references, es, k, log) <==> PassesAt(references, es, k, log, j) && LinkedBack(references, es, j, before);
      forall i | 0 <= i < j ensures PassesAt(references, es, k, log, i) <==> PassesAt(references, es, j, before, i) {
      }
      if forall i :: 0 <= i < k ==> PassesAt(references, es, k, log, i) {
        forall i | 0 <= i < j ensures PassesAt(references, es, j, before, i) {
          assert PassesAt(references, es, k, log, i);
        }
      }
    }
  }

  /** Stitching succeeds exactly when the prior history is an active identity history
      that ends with the imported keys, does not hold the MIGRATION already, passes
      with its references if it has any, and goes on as one identity history. */
  lemma StitchExact(domain: string, current: seq<Event>, m: MigrationResult)
    ensures
      var prior, all := m.priorHistory, m.priorHistory + current;
      Stitch(domain, current, m) == Some(all) <==>
      && |current| > 0 && current[0].payload.body.Migration? && |prior| > 0
      && (forall e | e in prior && e.payload.body.Migration? :: e.payload.body != current[0].payload.body)
      && (m.references.Some? ==> PriorReferencesValid(current[0].payload.body, prior, m.references.value))
      && IdentityHistory(prior, |prior|, domain) && StatusOf(prior[|prior| - 1].payload.body) == ACTIVE
      && OperationalAt(prior, |prior|, prior[0].payload.body.operational).material == m.operationalKey.material
      && prior[0].payload.body.entity.material == m.entityKey.material
      && IdentityHistory(all, |all|, domain)
    ensures Stitch(domain, current, m).Some? ==> Stitch(domain, current, m).value == m.priorHistory + current
  {
    var prior, all := m.priorHistory, m.priorHistory + current;
    LastSnapshot(prior, domain);
    LastSnapshot(all, domain);
    if |prior| > 0 && prior[0].payload.body.Issuance? {
      ShownKeys(prior);
      assert FirstIssuance(prior) == Some(prior[0]);
      assert Shown(prior, |prior|).activeThumb == ThumbOf(Shown(prior, |prior|).activeKey.material);
    }
    HistoryStarts(prior, |prior|, domain);
    hide SnapshotOf, IdentityHistory, Shown, OperationalAt, PriorReferencesValid;
  }

  lemma LastSnapshot(es: seq<Event>, domain: string)
    ensures SnapshotOf(es, domain, Latest(es)).Some? <==> |es| > 0 && IdentityHistory(es, |es|, domain)
    ensures |es| > 0 && IdentityHistory(es, |es|, domain) ==>
              es[0].payload.body.Issuance? && SnapshotOf(es, domain, Latest(es)) == Some(Shown(es, |es|))
  {
    hide SnapshotOf, Shown, Fitting;
    CutAtLatest(es, Latest(es));
    SnapshotExact(es, domain, Latest(es));
    NothingBeyond(es, domain, Latest(es));
  }
}
