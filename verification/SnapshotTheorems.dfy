/** The snapshot of a history at any time, said of the list of events alone. */
module SnapshotTheorems {
  import opened Common
  import opened Lifecycle
  import opened LifecycleTheorems
  import opened Snapshot

  // ---- What a history must be, and what it shows ----

  /** The event at position k can stand in a history whose first operational key is given. */
  predicate Fitting(es: seq<Event>, k: nat, domain: string, genesis: Jwk)
    requires k < |es|
  {
    && es[k].payload.domain == domain
    && (k > 0 ==> StatusOf(es[k - 1].payload.body) == ACTIVE)
    && match es[k].payload.body
       case Issuance(_, entity, operational) => k == 0 && Different(entity, operational)
       case KeyRotation(previousThumb, newKey, newThumb) =>
         && k > 0 && previousThumb == ThumbOf(OperationalAt(es, k, genesis).material)
         && newThumb == ThumbOf(newKey.material) && Different(newKey, OperationalAt(es, k, genesis))
       case Revocation(reason) => k > 0 && !reason.OtherReason?
       case Migration(previousLog, newLog, finalEntryRef) =>
         && k > 0 && previousLog != OtherRef("") && newLog != OtherRef("") && finalEntryRef != OtherRef("")
         && previousLog != newLog
       case _ => k > 0
  }

  /** The first k events are an identity history of the domain. */
  predicate IdentityHistory(es: seq<Event>, k: nat, domain: string)
    requires k <= |es|
  {
    k > 0 ==> es[0].payload.body.Issuance? && forall i :: 0 <= i < k ==> Fitting(es, i, domain, es[0].payload.body.operational)
  }

  /** When the operational key in force after the first k events was bound. */
  function BoundAt(es: seq<Event>, k: nat): int
    requires 0 < k <= |es|
  {
    var p := es[k - 1].payload;
    if k == 1 || p.body.KeyRotation? then p.timestamp else BoundAt(es, k - 1)
  }

  /** What the first k events show. */
  function Shown(es: seq<Event>, k: nat): DomainSnapshot
    requires 0 < k <= |es| && es[0].payload.body.Issuance?
  {
    var key := OperationalAt(es, k, es[0].payload.body.operational);
    DomainSnapshot(StatusOf(es[k - 1].payload.body), key, ThumbOf(key.material), BoundAt(es, k), es[0].payload.body.governanceId, es[..k])
  }

  /** The number of leading events that are not after the time. */
  function CutAt(es: seq<Event>, at: int): (k: nat)
    ensures k <= |es| && (forall i :: 0 <= i < k ==> es[i].payload.timestamp <= at)
    ensures k < |es| ==> es[k].payload.timestamp > at
  {
    if es == [] || es[0].payload.timestamp > at then 0 else 1 + CutAt(es[1..], at)
  }

  // ---- The walk over the events up to the time ----

  lemma FirstStep(es: seq<Event>, domain: string, at: int)
    requires |es| > 0 && es[0].payload.timestamp <= at
    ensures SnapStep(Walk(None, false), es[0], domain, at) ==
            if IdentityHistory(es, 1, domain) then Some(Walk(Some(Shown(es, 1)), false)) else None
  {
    assert es[..1] == [es[0]];
    if es[0].payload.body.Issuance? {
      var genesis := es[0].payload.body.operational;
      assert OperationalAt(es, 1, genesis) == OperationalAt(es, 0, genesis) == genesis;
      assert IdentityHistory(es, 1, domain) <==> Fitting(es, 0, domain, genesis);
    }
  }

  lemma LaterStep(es: seq<Event>, k: nat, domain: string, at: int)
    requires 0 < k < |es| && es[k].payload.timestamp <= at && es[0].payload.body.Issuance?
    ensures SnapStep(Walk(Some(Shown(es, k)), false), es[k], domain, at) ==
            if Fitting(es, k, domain, es[0].payload.body.operational) then Some(Walk(Some(Shown(es, k + 1)), false)) else None
  {
    assert es[..k + 1] == es[..k] + [es[k]];
  }

  lemma {:induction false} WalkUpTo(es: seq<Event>, k: nat, domain: string, at: int)
    requires k <= |es| && forall i :: 0 <= i < k ==> es[i].payload.timestamp <= at
    ensures WalkAll(es[..k], domain, at) ==
            if !IdentityHistory(es, k, domain) then None
            else if k == 0 then Some(Walk(None, false)) else Some(Walk(Some(Shown(es, k)), false))
  {
    hide SnapStep, Fitting, Shown;
    if k > 0 {
      WalkUpTo(es, k - 1, domain, at);
      assert es[..k][..k - 1] == es[..k - 1];
      if k == 1 {
        FirstStep(es, domain, at);
      } else if es[0].payload.body.Issuance? {
        LaterStep(es, k - 1, domain, at);
      }
    }
  }

  // ---- The walk beyond the time ----

  /** From position k on, events are after the time and of the domain. */
  predicate Beyond(es: seq<Event>, k: nat, domain: string, at: int) {
    forall i :: k <= i < |es| ==> es[i].payload.timestamp > at && es[i].payload.domain == domain
  }

  lemma {:induction false} WalkBeyond(es: seq<Event>, k: nat, domain: string, at: int)
    requires k < |es| && es[k].payload.timestamp > at
    ensures
      var before := WalkAll(es[..k], domain, at);
      WalkAll(es, domain, at) == if before.Some? && Beyond(es, k, domain, at) then Some(before.value.(past := true)) else None
    decreases |es|
  {
    hide IdentityHistory;
    var last := |es| - 1;
    if k == last {
      assert es[..last] == es[..k];
    } else {
      WalkBeyond(es[..last], k, domain, at);
      assert es[..last][..k] == es[..k];
      BeyondLast(es, k, domain, at);
    }
  }

  lemma BeyondLast(es: seq<Event>, k: nat, domain: string, at: int)
    requires k < |es|
    ensures
      var last := |es| - 1;
      Beyond(es, k, domain, at) <==>
      Beyond(es[..last], k, domain, at) && es[last].payload.timestamp > at && es[last].payload.domain == domain
  {
    var last := |es| - 1;
    if Beyond(es[..last], k, domain, at) {
      assert forall i :: k <= i < last ==> es[..last][i] == es[i];
    }
  }

  // ---- The snapshot at any time ----

  /** A snapshot succeeds exactly when the events not after the time form a leading
      part of the history, that part is an identity history of the domain, and all
      later events are of the domain; it then shows that part, with the key last
      bound, the time it was bound, and the governance id of the issuance. */
  lemma SnapshotExact(es: seq<Event>, domain: string, at: int)
    ensures
      var k := CutAt(es, at);
      SnapshotOf(es, domain, at) ==
      if k > 0 && IdentityHistory(es, k, domain) && Beyond(es, k, domain, at) then Some(Shown(es, k)) else None
  {
    hide WalkAll, IdentityHistory, Shown, Beyond;
    var k := CutAt(es, at);
    WalkUpTo(es, k, domain, at);
    if k == |es| {
      assert es[..k] == es;
      NothingBeyond(es, domain, at);
    } else {
      WalkBeyond(es, k, domain, at);
    }
    HistoryStarts(es, k, domain);
  }

  lemma NothingBeyond(es: seq<Event>, domain: string, at: int)
    ensures Beyond(es, |es|, domain, at)
  {
  }

  lemma HistoryStarts(es: seq<Event>, k: nat, domain: string)
    requires k <= |es|
    ensures k > 0 && IdentityHistory(es, k, domain) ==> es[0].payload.body.Issuance?
  {
  }

  /** The snapshot at a time is the last snapshot of the events up to it. */
  lemma SnapshotIsPrefix(es: seq<Event>, domain: string, at: int)
    requires Beyond(es, CutAt(es, at), domain, at)
    ensures
      var before := es[..CutAt(es, at)];
      SnapshotOf(es, domain, at) == SnapshotOf(before, domain, Latest(before))
  {
    var k := CutAt(es, at);
    var before := es[..k];
    if k < |es| {
      hide SnapStep;
      WalkBeyond(es, k, domain, at);
    } else {
      assert before == es;
    }
    forall e | e in before ensures e.payload.timestamp <= at && e.payload.timestamp <= Latest(before) {
      var i :| 0 <= i < k && before[i] == e;
    }
    WalkAfterAll(before, domain, at, Latest(before));
  }

  /** A time that leaves out an event but not a later one has no snapshot. */
  lemma SnapshotNeedsPrefix(es: seq<Event>, domain: string, at: int, i: nat, j: nat)
    requires i < j < |es| && es[j].payload.timestamp <= at < es[i].payload.timestamp
    ensures SnapshotOf(es, domain, at).None?
  {
    SnapshotExact(es, domain, at);
  }
}
