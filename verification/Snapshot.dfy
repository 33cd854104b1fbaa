/** The other two accounts of a lifecycle: `DomainLog.snapshotAt` and the stream
    bundle's summary, and the stitching of histories across logs. */
module Snapshot {
  import opened Common
  import opened Lifecycle

  // ---- snapshotAt ----

  datatype DomainSnapshot = DomainSnapshot(
    status: Status, activeKey: Jwk, activeThumb: Thumb, keyBoundAt: int, governanceId: string, events: seq<Event>)

  /** The variables of the loop: no identity before the ISSUANCE; `past` once an event lies after the snapshot time. */
  datatype Walk = Walk(identity: Option<DomainSnapshot>, past: bool)

  /** One event of the history; None when the loop throws. */
  function SnapStep(w: Walk, e: Event, domain: string, at: int): Option<Walk> {
    var p := e.payload;
    if p.domain != domain then None
    else if p.timestamp > at then Some(w.(past := true))
    else if w.past then None
    else if w.identity.None? then
      if p.body.Issuance? && Thumbprint(p.body.entity) != Thumbprint(p.body.operational)
      then Some(Walk(Some(DomainSnapshot(ACTIVE, p.body.operational, Thumbprint(p.body.operational),
                                         p.timestamp, p.body.governanceId, [e])), false))
      else None
    else if w.identity.value.status != ACTIVE then None
    else
      var s := w.identity.value.(events := w.identity.value.events + [e]);
      match p.body
      case Issuance(_, _, _) => None
      case KeyRotation(previousThumb, newKey, newThumb) =>
        if && previousThumb == s.activeThumb && newThumb == Thumbprint(newKey)
           && newThumb != s.activeThumb && Thumbprint(s.activeKey) != Thumbprint(newKey)
        then Some(w.(identity := Some(s.(activeKey := newKey, activeThumb := newThumb, keyBoundAt := p.timestamp))))
        else None
      case Revocation(reason) =>
        if reason.OtherReason? then None else Some(w.(identity := Some(s.(status := REVOKED))))
      case Retirement => Some(w.(identity := Some(s.(status := RETIRED))))
      case Migration(_, _, _) => if MigrationShape(p.body) then Some(w.(identity := Some(s))) else None
      case Delegation(_, _, _) => Some(w.(identity := Some(s)))
  }

  function WalkAll(es: seq<Event>, domain: string, at: int): Option<Walk> {
    if es == [] then Some(Walk(None, false))
    else
      var last := |es| - 1;
      var w := WalkAll(es[..last], domain, at);
      if w.None? then None else SnapStep(w.value, es[last], domain, at)
  }

  /** The outcome of `snapshotAt`; None when it throws. */
  function SnapshotOf(es: seq<Event>, domain: string, at: int): Option<DomainSnapshot> {
    var w := WalkAll(es, domain, at);
    if w.None? then None else w.value.identity
  }

  method SnapshotAt(es: seq<Event>, domain: string, at: int) returns (r: Option<DomainSnapshot>)
    ensures r == SnapshotOf(es, domain, at)
  {
    hide SnapStep;
    var w := Walk(None, false);
    for i := 0 to |es|
      invariant WalkAll(es[..i], domain, at) == Some(w)
    {
      assert es[..i + 1][..i] == es[..i];
      var next := SnapStep(w, es[i], domain, at);
      if next.None? {
        WalkStuck(es, i + 1, domain, at);
        return None;
      }
      w := next.value;
    }
    assert es[..|es|] == es;
    return w.identity;
  }

  lemma {:induction false} WalkStuck(es: seq<Event>, k: nat, domain: string, at: int)
    requires k <= |es| && WalkAll(es[..k], domain, at).None?
    ensures WalkAll(es, domain, at).None?
    decreases |es|
  {
    hide SnapStep;
    if k == |es| {
      assert es[..k] == es;
    } else {
      var last := |es| - 1;
      assert es[..last][..k] == es[..k];
      WalkStuck(es[..last], k, domain, at);
    }
  }

  /** `events.reduce((latest, event) => Math.max(latest, timestamp), 0)`. */
  function Latest(es: seq<Event>): (t: int)
    ensures t >= 0 && forall e :: e in es ==> e.payload.timestamp <= t
  {
    if es == [] then 0
    else
      var last := |es| - 1;
      var before := Latest(es[..last]);
      assert es == es[..last] + [es[last]];
      if es[last].payload.timestamp > before then es[last].payload.timestamp else before
  }

  /** From the latest timestamp on, the snapshot time no longer matters. */
  lemma {:induction false} WalkAfterAll(es: seq<Event>, domain: string, at: int, at': int)
    requires forall e :: e in es ==> e.payload.timestamp <= at && e.payload.timestamp <= at'
    ensures WalkAll(es, domain, at) == WalkAll(es, domain, at')
    ensures WalkAll(es, domain, at).Some? ==> !WalkAll(es, domain, at).value.past
  {
    if es != [] {
      var last := |es| - 1;
      WalkAfterAll(es[..last], domain, at, at');
    }
  }

  // ---- The bundle's account ----

  function KindOf(b: Body): string {
    match b
    case Issuance(_, _, _) => "ISSUANCE"
    case KeyRotation(_, _, _) => "KEY_ROTATION"
    case Revocation(_) => "REVOCATION"
    case Retirement => "RETIREMENT"
    case Migration(_, _, _) => "MIGRATION"
    case Delegation(_, _, _) => "DELEGATION"
  }

  datatype Summary = Summary(eventCount: nat, lastEventType: string, loggedState: Option<Status>)

  function StatusAfter(last: Event): Status {
    if last.payload.body.Revocation? then REVOKED else if last.payload.body.Retirement? then RETIRED else ACTIVE
  }

  /** `lifecycleSummary`; an absent status is UNKNOWN. */
  function LifecycleSummary(es: seq<Event>): Summary {
    if es == [] then Summary(0, "", None)
    else Summary(|es|, KindOf(es[|es| - 1].payload.body), Some(StatusAfter(es[|es| - 1])))
  }

  /** The operational thumbprint of the last event that introduced one. */
  function LastThumb(es: seq<Event>): Option<Thumb> {
    if es == [] then None
    else
      var last := |es| - 1;
      match es[last].payload.body
      case Issuance(_, _, operational) => Some(Thumbprint(operational))
      case KeyRotation(_, _, newThumb) => Some(newThumb)
      case _ => LastThumb(es[..last])
  }

  method ActiveOperationalThumbprint(es: seq<Event>) returns (r: Option<Thumb>)
    ensures r == LastThumb(es)
  {
    r := None;
    for i := 0 to |es|
      invariant r == LastThumb(es[..i])
    {
      assert es[..i + 1][..i] == es[..i];
      if es[i].payload.body.Issuance? {
        r := Some(Thumbprint(es[i].payload.body.operational));
      }
      if es[i].payload.body.KeyRotation? {
        r := Some(es[i].payload.body.newThumb);
      }
    }
    assert es[..|es|] == es;
  }

  // ---- The accounts agree ----

  /** The snapshot's thumbprint is the last one introduced, and its events are the history. */
  ghost predicate Faithful(w: Walk, es: seq<Event>) {
    && !w.past && (w.identity.None? <==> es == [])
    && (w.identity.Some? ==> Some(w.identity.value.activeThumb) == LastThumb(es) && w.identity.value.events == es
                             && Thumbprint(w.identity.value.activeKey) == w.identity.value.activeThumb)
  }

  lemma FaithfulStep(w: Walk, es: seq<Event>, e: Event, domain: string, at: int)
    requires Faithful(w, es) && e.payload.timestamp <= at && SnapStep(w, e, domain, at).Some?
    ensures Faithful(SnapStep(w, e, domain, at).value, es + [e])
  {
    assert (es + [e])[..|es|] == es;
  }

  lemma {:induction false} SnapshotThumb(es: seq<Event>, domain: string, at: int)
    requires forall e :: e in es ==> e.payload.timestamp <= at
    requires WalkAll(es, domain, at).Some?
    ensures Faithful(WalkAll(es, domain, at).value, es)
  {
    if es != [] {
      hide SnapStep, Faithful;
      var last := |es| - 1;
      SnapshotThumb(es[..last], domain, at);
      FaithfulStep(WalkAll(es[..last], domain, at).value, es[..last], es[last], domain, at);
      assert es == es[..last] + [es[last]];
    }
  }

  /** The snapshot and the replay describe the same identity. */
  predicate Agree(w: Walk, r: Replay, domain: string, last: Event) {
    && !w.past && w.identity.Some?
    && r.state == LoggedState(domain, w.identity.value.status, Thumbprint(r.entityKey), Thumbprint(r.operationalKey))
    && Thumbprint(w.identity.value.activeKey) == Thumbprint(r.operationalKey) == w.identity.value.activeThumb
    && w.identity.value.status == StatusAfter(last)
  }

  /** One accepted event keeps the accounts together. */
  lemma AgreeStep(w: Walk, r: Replay, domain: string, previous: Event, e: Event, at: int, o: Options)
    requires Agree(w, r, domain, previous) && Continue(previous, r, e, o).Ok?
    requires e.payload.domain == domain && e.payload.timestamp <= at
    ensures SnapStep(w, e, domain, at).Some?
    ensures Agree(SnapStep(w, e, domain, at).value, Continue(previous, r, e, o).value, domain, e)
  {
  }

  lemma {:induction false} AgreeFrom(prior: seq<Event>, es: seq<Event>, k: nat, domain: string, at: int, o: Options)
    requires 0 < k <= |es| && ReplayAll(es, o).Ok?
    requires forall e :: e in es ==> e.payload.domain == domain && e.payload.timestamp <= at
    requires WalkAll(prior + es[..1], domain, at).Some? && ReplayAll(es[..1], o).Ok?
    requires Agree(WalkAll(prior + es[..1], domain, at).value, ReplayAll(es[..1], o).value, domain, es[0])
    ensures WalkAll(prior + es[..k], domain, at).Some?
    ensures ReplayAll(es[..k], o).Ok?
    ensures Agree(WalkAll(prior + es[..k], domain, at).value, ReplayAll(es[..k], o).value, domain, es[k - 1])
    decreases k
  {
    hide Agree, SnapStep, Continue, ReplayAll;
    StepAt(es, k - 1, o);
    if k > 1 {
      var last := k - 1;
      AgreeFrom(prior, es, last, domain, at, o);
      assert (prior + es[..k])[..|prior| + last] == prior + es[..last];
      assert (prior + es[..k])[|prior| + last] == es[last];
      AgreeStep(WalkAll(prior + es[..last], domain, at).value, ReplayAll(es[..last], o).value, domain, es[last - 1], es[last], at, o);
    }
  }

  lemma Account(w: Walk, r: Replay, domain: string, history: seq<Event>, es: seq<Event>)
    requires es != [] && Agree(w, r, domain, es[|es| - 1]) && Faithful(w, history)
    ensures w.identity.Some? && w.identity.value.events == history
    ensures Thumbprint(w.identity.value.activeKey) == Thumbprint(r.operationalKey)
    ensures r.state == LoggedState(domain, w.identity.value.status, Thumbprint(r.entityKey), w.identity.value.activeThumb)
    ensures LifecycleSummary(es).loggedState == Some(w.identity.value.status)
    ensures LastThumb(history) == Some(w.identity.value.activeThumb)
  {
  }

  lemma WalkOne(e: Event, domain: string, at: int)
    ensures WalkAll([e], domain, at) == SnapStep(Walk(None, false), e, domain, at)
  {
    assert [e][..0] == [];
  }

  lemma AgreeIssuance(e: Event, domain: string, at: int, o: Options)
    requires e.payload.body.Issuance? && Genesis(e, o).Ok? && e.payload.domain == domain && e.payload.timestamp <= at
    ensures SnapStep(Walk(None, false), e, domain, at).Some?
    ensures Agree(SnapStep(Walk(None, false), e, domain, at).value, Genesis(e, o).value, domain, e)
  {
  }

  lemma AgreeIssued(es: seq<Event>, domain: string, at: int, o: Options)
    requires ReplayAll(es, o).Ok? && |es| > 0 && es[0].payload.body.Issuance?
    requires forall e :: e in es ==> e.payload.domain == domain && e.payload.timestamp <= at
    ensures WalkAll(es, domain, at).Some?
    ensures Agree(WalkAll(es, domain, at).value, ReplayAll(es, o).value, domain, es[|es| - 1])
  {
    hide SnapStep, Continue, ReplayAll, Genesis, WalkAll, Agree;
    StepAt(es, 0, o);
    assert es[..1] == [es[0]] && [] + es[..1] == [es[0]];
    WalkOne(es[0], domain, at);
    AgreeIssuance(es[0], domain, at, o);
    AgreeFrom([], es, |es|, domain, at, o);
    assert [] + es[..|es|] == es && es[..|es|] == es;
  }

  /** For an accepted lifecycle of one domain that starts with its ISSUANCE, the
      snapshot at any time from its last timestamp on succeeds, and the replayed
      state, the snapshot, the bundle's summary and the bundle's thumbprint agree. */
  lemma ThreeAccounts(es: seq<Event>, domain: string, at: int, o: Options)
    requires ReplayAll(es, o).Ok? && es[0].payload.body.Issuance?
    requires forall e :: e in es ==> e.payload.domain == domain && e.payload.timestamp <= at
    ensures
      var r, snap := ReplayAll(es, o).value, SnapshotOf(es, domain, at);
      && snap.Some? && snap.value.events == es
      && Thumbprint(snap.value.activeKey) == Thumbprint(r.operationalKey)
      && r.state == LoggedState(domain, snap.value.status, Thumbprint(r.entityKey), snap.value.activeThumb)
      && LifecycleSummary(es).eventCount == |snap.value.events|
      && LifecycleSummary(es).loggedState == Some(snap.value.status)
      && LastThumb(es) == Some(snap.value.activeThumb)
  {
    AgreeIssued(es, domain, at, o);
    SnapshotThumb(es, domain, at);
    hide Agree, Faithful, WalkAll, LastThumb, ReplayAll;
    Account(WalkAll(es, domain, at).value, ReplayAll(es, o).value, domain, es, es);
  }

  // ---- Stitching histories across logs ----

  /** The position of the first colon, or the length. */
  function ColonAt(text: string): (i: nat)
    ensures i <= |text| && (i < |text| ==> text[i] == ':')
    ensures forall j :: 0 <= j < i ==> text[j] != ':'
  {
    if text == "" || text[0] == ':' then 0 else 1 + ColonAt(text[1..])
  }

  predicate LineEnd(c: char) {
    c == '\n' || c == '\r' || c == '\U{2028}' || c == '\U{2029}'
  }

  /** `assertLogReference`: a method, a colon and something after it. */
  predicate IsReference(r: Ref) {
    r.OtherRef? ==>
      var i := ColonAt(r.text);
      && 0 < i && i + 1 < |r.text| && !LineEnd(r.text[i + 1])
      && 'a' <= r.text[0] <= 'z'
      && forall j :: 0 < j < i ==> 'a' <= r.text[j] <= 'z' || '0' <= r.text[j] <= '9' || r.text[j] == '-'
  }

  const C2SP := "c2sp-tlog"

  /** The text before the first colon. */
  function Method(r: Ref): string {
    if r.OtherRef? then r.text[..ColonAt(r.text)] else C2SP
  }

  /** `assertReferenceBelongsToLog`: the methods agree, and a c2sp-tlog reference
      names an entry of the very log. Nothing more is asked of other methods. */
  predicate BelongsTo(reference: Ref, log: Ref) {
    && IsReference(reference) && IsReference(log)
    && Method(reference) == Method(log)
    && (Method(reference) == C2SP ==> reference.EntryRef? && log == LogRef(reference.lr))
  }

  /** The references of the first k events, walked backwards: each passes for the
      log fixed by the later MIGRATIONs, and each MIGRATION follows the entry it
      signed as the last one of the previous log. */
  predicate LinkedBack(references: seq<Ref>, es: seq<Event>, k: nat, log: Ref)
    requires k <= |es| == |references|
  {
    k == 0 ||
    (&& BelongsTo(references[k - 1], log)
     && match es[k - 1].payload.body
        case Migration(previousLog, newLog, finalEntryRef) =>
          && newLog == log && k > 1 && references[k - 2] == finalEntryRef
          && BelongsTo(finalEntryRef, previousLog)
          && LinkedBack(references, es, k - 1, previousLog)
        case _ => LinkedBack(references, es, k - 1, log))
  }

  /** `validatePriorHistoryReferences` returns. */
  predicate PriorReferencesValid(inbound: Body, prior: seq<Event>, references: seq<Ref>)
    requires inbound.Migration?
  {
    && |references| == |prior| > 0
    && references[|references| - 1] == inbound.finalEntryRef
    && LinkedBack(references, prior, |prior|, inbound.previousLog)
  }

  method ValidatePriorHistoryReferences(inbound: Body, prior: seq<Event>, references: seq<Ref>) returns (ok: bool)
    requires inbound.Migration?
    ensures ok <==> PriorReferencesValid(inbound, prior, references)
  {
    hide BelongsTo;
    if |references| != |prior| || |references| == 0 { return false; }
    if references[|references| - 1] != inbound.finalEntryRef { return false; }
    var expectedLog := inbound.previousLog;
    var index := |references|;
    while index > 0
      invariant 0 <= index <= |references|
      invariant LinkedBack(references, prior, |prior|, inbound.previousLog) <==> LinkedBack(references, prior, index, expectedLog)
    {
      index := index - 1;
      if !BelongsTo(references[index], expectedLog) { return false; }
      var body := prior[index].payload.body;
      if body.Migration? {
        if body.newLog != expectedLog || index == 0 || references[index - 1] != body.finalEntryRef { return false; }
        if !BelongsTo(body.finalEntryRef, body.previousLog) { return false; }
        expectedLog := body.previousLog;
      }
    }
    return true;
  }

  predicate SameMigration(a: Body, b: Body) {
    a.Migration? && b.Migration? && a.previousLog == b.previousLog && a.newLog == b.newLog && a.finalEntryRef == b.finalEntryRef
  }

  /** The first ISSUANCE of a history. */
  function FirstIssuance(es: seq<Event>): (r: Option<Event>)
    ensures r.Some? ==> r.value.payload.body.Issuance?
  {
    if es == [] then None
    else if es[0].payload.body.Issuance? then Some(es[0])
    else FirstIssuance(es[1..])
  }

  /** What a prior history must establish before current events are appended to it. */
  predicate PriorEstablishes(domain: string, current: seq<Event>, m: MigrationResult) {
    && current != [] && current[0].payload.body.Migration? && m.priorHistory != []
    && (forall e | e in m.priorHistory :: !SameMigration(e.payload.body, current[0].payload.body))
    && (m.references.Some? ==> PriorReferencesValid(current[0].payload.body, m.priorHistory, m.references.value))
    && (var snap := SnapshotOf(m.priorHistory, domain, Latest(m.priorHistory));
        snap.Some? && snap.value.status == ACTIVE && snap.value.activeThumb == Thumbprint(m.operationalKey))
    && (var issuance := FirstIssuance(m.priorHistory);
        issuance.Some? && Thumbprint(issuance.value.payload.body.entity) == Thumbprint(m.entityKey))
  }

  /** `stitchVerifiedMigrationHistory`; None when it throws. */
  function Stitch(domain: string, current: seq<Event>, m: MigrationResult): Option<seq<Event>> {
    if !PriorEstablishes(domain, current, m) then None
    else
      var stitched := m.priorHistory + current;
      if SnapshotOf(stitched, domain, Latest(stitched)).None? then None else Some(stitched)
  }

  /** `stitchVerifiedMigrationReferences`; None when it throws. */
  function StitchReferences(current: seq<Event>, references: seq<Ref>, m: MigrationResult): Option<seq<Ref>> {
    if && current != [] && current[0].payload.body.Migration? && |current| == |references|
       && m.references.Some? && PriorReferencesValid(current[0].payload.body, m.priorHistory, m.references.value)
       && (forall reference | reference in references :: BelongsTo(reference, current[0].payload.body.newLog))
    then Some(m.references.value + references)
    else None
  }

  lemma AgreeMigration(w: Walk, e: Event, domain: string, at: int, m: MigrationResult, o: Options)
    requires !w.past && w.identity.Some? && w.identity.value.status == ACTIVE
    requires Thumbprint(w.identity.value.activeKey) == w.identity.value.activeThumb == Thumbprint(m.operationalKey)
    requires e.payload.body.Migration? && Genesis(e, o).Ok? && o.verifyMigration.Some? && o.verifyMigration.value(e) == Some(m)
    requires e.payload.domain == domain && e.payload.timestamp <= at
    ensures SnapStep(w, e, domain, at).Some?
    ensures Agree(SnapStep(w, e, domain, at).value, Genesis(e, o).value, domain, e)
  {
  }

  lemma AgreeStitched(prior: seq<Event>, current: seq<Event>, domain: string, at: int, m: MigrationResult, o: Options)
    requires ReplayAll(current, o).Ok? && |current| > 0 && current[0].payload.body.Migration?
    requires o.verifyMigration.Some? && o.verifyMigration.value(current[0]) == Some(m)
    requires forall e :: e in current ==> e.payload.domain == domain && e.payload.timestamp <= at
    requires WalkAll(prior, domain, at).Some?
    requires
      var w := WalkAll(prior, domain, at).value;
      && !w.past && w.identity.Some? && w.identity.value.status == ACTIVE
      && Thumbprint(w.identity.value.activeKey) == w.identity.value.activeThumb == Thumbprint(m.operationalKey)
    ensures WalkAll(prior + current, domain, at).Some?
    ensures Agree(WalkAll(prior + current, domain, at).value, ReplayAll(current, o).value, domain, current[|current| - 1])
  {
    hide SnapStep, Continue, ReplayAll, Genesis, Agree;
    StepAt(current, 0, o);
    var first := prior + current[..1];
    assert current[..1] == [current[0]];
    assert first[..|prior|] == prior && first[|prior|] == current[0];
    AgreeMigration(WalkAll(prior, domain, at).value, current[0], domain, at, m, o);
    AgreeFrom(prior, current, |current|, domain, at, o);
    assert current[..|current|] == current;
  }

  /** For a migrated lifecycle: once the prior history establishes the imported
      keys, stitching cannot fail, and the snapshot of the stitched history agrees
      with the replay of the current log's events alone and with both summaries. */
  lemma StitchedAccounts(current: seq<Event>, domain: string, m: MigrationResult, o: Options)
    requires ReplayAll(current, o).Ok? && PriorEstablishes(domain, current, m)
    requires o.verifyMigration.Some? && o.verifyMigration.value(current[0]) == Some(m)
    requires forall e :: e in current ==> e.payload.domain == domain
    ensures Stitch(domain, current, m) == Some(m.priorHistory + current)
    ensures
      var stitched := m.priorHistory + current;
      var r, snap := ReplayAll(current, o).value, SnapshotOf(stitched, domain, Latest(stitched));
      && snap.Some? && snap.value.events == stitched
      && r.state == LoggedState(domain, snap.value.status, Thumbprint(r.entityKey), snap.value.activeThumb)
      && LifecycleSummary(current).loggedState == Some(snap.value.status)
      && LastThumb(stitched) == Some(snap.value.activeThumb)
  {
    hide ReplayAll, LinkedBack, WalkAll, LastThumb, Agree;
    var prior := m.priorHistory;
    var stitched := prior + current;
    var at := Latest(stitched);
    assert forall e :: e in prior ==> e in stitched;
    assert forall e :: e in current ==> e in stitched;
    WalkAfterAll(prior, domain, Latest(prior), at);
    SnapshotThumb(prior, domain, at);
    AgreeStitched(prior, current, domain, at, m, o);
    SnapshotThumb(stitched, domain, at);
    Account(WalkAll(stitched, domain, at).value, ReplayAll(current, o).value, domain, stitched, current);
  }

  /** Stitched references stay valid for the next hop: a further MIGRATION that
      names their last entry in the current log accepts them. */
  lemma StitchedReferencesValid(current: seq<Event>, references: seq<Ref>, m: MigrationResult, next: Body)
    requires StitchReferences(current, references, m).Some?
    requires forall k :: 0 < k < |current| ==> !current[k].payload.body.Migration?
    requires next.Migration? && next.previousLog == current[0].payload.body.newLog
    requires next.finalEntryRef == references[|references| - 1]
    ensures PriorReferencesValid(next, m.priorHistory + current, StitchReferences(current, references, m).value)
  {
    hide BelongsTo;
    var all := m.references.value + references;
    var stitched := m.priorHistory + current;
    LinkedPrefix(m.references.value, references, m.priorHistory, current, |m.priorHistory|, current[0].payload.body.previousLog);
    LinkedCurrent(current, references, m, |current|);
    assert all[|all| - 1] == references[|references| - 1];
  }

  lemma {:induction false} LinkedPrefix(refs: seq<Ref>, more: seq<Ref>, prior: seq<Event>, current: seq<Event>, k: nat, log: Ref)
    requires k <= |prior| == |refs| && |current| == |more| && LinkedBack(refs, prior, k, log)
    ensures LinkedBack(refs + more, prior + current, k, log)
  {
    hide BelongsTo;
    if k > 0 {
      var body := prior[k - 1].payload.body;
      LinkedPrefix(refs, more, prior, current, k - 1, if body.Migration? then body.previousLog else log);
    }
  }

  lemma {:induction false} LinkedCurrent(current: seq<Event>, references: seq<Ref>, m: MigrationResult, k: nat)
    requires 0 < k <= |current| && StitchReferences(current, references, m).Some?
    requires forall k :: 0 < k < |current| ==> !current[k].payload.body.Migration?
    requires LinkedBack(m.references.value + references, m.priorHistory + current, |m.priorHistory|, current[0].payload.body.previousLog)
    ensures LinkedBack(m.references.value + references, m.priorHistory + current, |m.priorHistory| + k, current[0].payload.body.newLog)
  {
    hide BelongsTo;
    var refs, n := m.references.value, |m.priorHistory|;
    assert (refs + references)[n + k - 1] == references[k - 1] && references[k - 1] in references;
    assert (m.priorHistory + current)[n + k - 1] == current[k - 1];
    if k > 1 {
      LinkedCurrent(current, references, m, k - 1);
    } else {
      assert (refs + references)[n - 1] == refs[n - 1];
    }
  }
}
