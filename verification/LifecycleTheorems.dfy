/** What an accepted lifecycle is, said of the list of events alone: who signed
    what, which keys and which state are in force where, and how events chain.

    Nothing here uses the steps of the replay. The keys are read off the bodies of
    the events before a position, the state off the last event that changed it. */
module LifecycleTheorems {
  import opened Common
  import opened Lifecycle

  // ---- Keys and state by position ----

  predicate Starts(body: Body) {
    body.Issuance? || body.Migration?
  }

  /** The keys a MIGRATION imports, if its prior history was verified. */
  function Imported(e: Event, o: Options): Option<MigrationResult> {
    if o.verifyMigration.Some? then o.verifyMigration.value(e) else None
  }

  /** The keys that the first event establishes: entity key and operational key. */
  function GenesisKeys(e: Event, o: Options): Option<(Jwk, Jwk)> {
    match e.payload.body
    case Issuance(_, entity, operational) => Some((entity, operational))
    case Migration(_, _, _) =>
      var m := Imported(e, o);
      if m.Some? then Some((m.value.entityKey, m.value.operationalKey)) else None
    case _ => None
  }

  /** The operational key after the first k events: the last one rotated to, or that of genesis. */
  function OperationalAt(es: seq<Event>, k: nat, genesis: Jwk): Jwk
    requires k <= |es|
  {
    if k == 0 then genesis
    else if es[k - 1].payload.body.KeyRotation? then es[k - 1].payload.body.newKey
    else OperationalAt(es, k - 1, genesis)
  }

  /** The last of the first k events that is not a DELEGATION, or the first event. */
  function LastChange(es: seq<Event>, k: nat): (j: nat)
    requires 0 < k <= |es|
    ensures j < k
  {
    if k == 1 || !es[k - 1].payload.body.Delegation? then k - 1 else LastChange(es, k - 1)
  }

  function StatusOf(body: Body): Status {
    match body
    case Revocation(_) => REVOKED
    case Retirement => RETIRED
    case _ => ACTIVE
  }

  /** The logged state after the first k events. */
  function StateAt(es: seq<Event>, k: nat, keys: (Jwk, Jwk)): LoggedState
    requires 0 < k <= |es|
  {
    var p := es[LastChange(es, k)].payload;
    LoggedState(p.domain, StatusOf(p.body), ThumbOf(keys.0.material), ThumbOf(OperationalAt(es, k, keys.1).material))
  }

  // ---- What is asked of each event ----

  /** A non-empty signature over the payload that verifies under the key. */
  predicate SignedBy(slot: Slot, key: Jwk, p: Payload, o: Options) {
    match slot
    case Signed(_, sig) => sig != "" && o.valid(key, p, sig)
    case _ => false
  }

  predicate NamesKey(slot: Slot, key: Jwk) {
    slot.Signed? && slot.kid == key.kid
  }

  predicate Different(a: Jwk, b: Jwk) {
    a.material != b.material
  }

  predicate InTime(p: Payload, o: Options) {
    o.integrationTime.Some? && p.timestamp <= o.integrationTime.value
  }

  /** Sequence number, predecessor and state of the event at position k. */
  predicate Chained(es: seq<Event>, k: nat, keys: (Jwk, Jwk))
    requires k < |es|
  {
    var c := es[k].payload.chain;
    && !c.prohibited && c.seqNo == Some(k)
    && (if k == 0 then c.prevEventId == None && c.prevStateHash == None
        else c.prevEventId == Some(IdOf(es[k - 1].payload)) && c.prevStateHash == Some(HashOf(StateAt(es, k, keys))))
  }

  /** The keys of genesis are usable, distinct, and those of the expected signer. */
  predicate TrustedKeys(keys: (Jwk, Jwk), o: Options) {
    && keys.0.supported && keys.1.supported && Different(keys.0, keys.1)
    && (o.signerKey.Some? ==> o.signerKey.value.material == keys.0.material)
  }

  /** The first event: an ISSUANCE signed by both keys it names, or a MIGRATION into
      this log signed by the imported entity key. */
  predicate GenesisSigned(e: Event, keys: (Jwk, Jwk), o: Options) {
    && TrustedKeys(keys, o) && SignedBy(e.sigs.ae, keys.0, e.payload, o)
    && match e.payload.body
       case Issuance(_, _, _) => SignedBy(e.sigs.op, keys.1, e.payload, o)
       case Migration(previousLog, newLog, finalEntryRef) =>
         && previousLog != OtherRef("") && newLog != OtherRef("") && finalEntryRef != OtherRef("") && previousLog != newLog
         && (o.lr.Some? ==> newLog == o.lr.value)
         && NamesKey(e.sigs.ae, keys.0)
       case _ => false
  }

  /** A later event: a rotation signed by the key in force and by the new key, or
      an event signed by the entity key. */
  predicate LaterSigned(e: Event, entity: Jwk, operational: Jwk, o: Options) {
    match e.payload.body
    case Issuance(_, _, _) => false
    case Migration(_, _, _) => false
    case KeyRotation(previousThumb, newKey, newThumb) =>
      && previousThumb == ThumbOf(operational.material) && newThumb == ThumbOf(newKey.material)
      && newKey.supported && Different(newKey, operational) && Different(newKey, entity)
      && NamesKey(e.sigs.prevOp, operational)
      && SignedBy(e.sigs.prevOp, operational, e.payload, o) && SignedBy(e.sigs.newOp, newKey, e.payload, o)
    case Revocation(reason) => !reason.OtherReason? && NamesKey(e.sigs.ae, entity) && SignedBy(e.sigs.ae, entity, e.payload, o)
    case _ => NamesKey(e.sigs.ae, entity) && SignedBy(e.sigs.ae, entity, e.payload, o)
  }

  /** Everything an accepted lifecycle has at position k. */
  predicate Rightful(es: seq<Event>, k: nat, keys: (Jwk, Jwk), o: Options)
    requires k < |es|
  {
    && InTime(es[k].payload, o) && Chained(es, k, keys)
    && (if k == 0 then GenesisSigned(es[0], keys, o) else LaterSigned(es[k], keys.0, OperationalAt(es, k, keys.1), o))
    && (k > 0 ==> StatusOf(es[k - 1].payload.body) == ACTIVE)
  }

  /** An accepted lifecycle. */
  predicate Lawful(es: seq<Event>, o: Options) {
    && 0 < |es| <= 10_000
    && var keys := GenesisKeys(es[0], o);
       keys.Some? && forall k :: 0 <= k < |es| ==> Rightful(es, k, keys.value, o)
  }

  // ---- The replay decides exactly this ----

  /** The replay after the first k events. */
  function ReplayAt(es: seq<Event>, k: nat, keys: (Jwk, Jwk)): Replay
    requires 0 < k <= |es|
  {
    Replay(StateAt(es, k, keys), keys.0, OperationalAt(es, k, keys.1))
  }

  lemma GenesisExact(es: seq<Event>, o: Options)
    requires |es| > 0
    ensures
      var keys := GenesisKeys(es[0], o);
      && (Genesis(es[0], o).Ok? <==> keys.Some? && Rightful(es, 0, keys.value, o))
      && (Genesis(es[0], o).Ok? ==> Genesis(es[0], o).value == ReplayAt(es, 1, keys.value))
  {
    var keys := GenesisKeys(es[0], o);
    if keys.Some? {
      assert OperationalAt(es, 1, keys.value.1) == keys.value.1 == OperationalAt(es, 0, keys.value.1);
    }
  }

  lemma ContinueExact(es: seq<Event>, k: nat, keys: (Jwk, Jwk), o: Options)
    requires 0 < k < |es| && k < 10_000 && es[k - 1].payload.chain.seqNo == Some(k - 1)
    ensures
      var r := Continue(es[k - 1], ReplayAt(es, k, keys), es[k], o);
      && (r.Ok? <==> Rightful(es, k, keys, o))
      && (r.Ok? ==> r.value == ReplayAt(es, k + 1, keys))
  {
    hide StateAt;
    StateNext(es, k, keys);
  }

  lemma StateNext(es: seq<Event>, k: nat, keys: (Jwk, Jwk))
    requires 0 < k < |es|
    ensures
      var p := es[k].payload;
      StateAt(es, k + 1, keys) ==
      if p.body.Delegation? then StateAt(es, k, keys)
      else LoggedState(p.domain, StatusOf(p.body), ThumbOf(keys.0.material), ThumbOf(OperationalAt(es, k + 1, keys.1).material))
  {
  }

  lemma {:induction false} ReplayFromExact(es: seq<Event>, k: nat, o: Options)
    requires 0 < k <= |es| && k <= 10_000
    ensures
      var keys, r := GenesisKeys(es[0], o), ReplayFrom(es[..k], o);
      && (r.Ok? <==> keys.Some? && forall i :: 0 <= i < k ==> Rightful(es, i, keys.value, o))
      && (r.Ok? ==> r.value == ReplayAt(es, k, keys.value))
  {
    hide Genesis, Continue, ReplayAt, Rightful;
    if k == 1 {
      GenesisExact(es, o);
    } else {
      ReplayFromExact(es, k - 1, o);
      assert es[..k][..k - 1] == es[..k - 1];
      var keys := GenesisKeys(es[0], o);
      if ReplayFrom(es[..k - 1], o).Ok? {
        RightfulSeq(es, k - 2, keys.value, o);
        ContinueExact(es, k - 1, keys.value, o);
      }
    }
  }

  lemma RightfulSeq(es: seq<Event>, k: nat, keys: (Jwk, Jwk), o: Options)
    requires k < |es| && Rightful(es, k, keys, o)
    ensures es[k].payload.chain.seqNo == Some(k)
  {
  }

  /** Acceptance is an if-and-only-if: the replay accepts exactly the lawful
      lifecycles, and ends with the keys and the state that the list itself shows. */
  lemma LifecycleExact(es: seq<Event>, o: Options)
    ensures ReplayAll(es, o).Ok? <==> Lawful(es, o)
    ensures Lawful(es, o) ==> ReplayAll(es, o).value == ReplayAt(es, |es|, GenesisKeys(es[0], o).value)
  {
    hide ReplayFrom, Rightful, ReplayAt;
    if 0 < |es| <= 10_000 {
      ReplayFromExact(es, |es|, o);
      assert es[..|es|] == es;
    }
  }

  /** The migration verifier is to blame exactly when it refuses a MIGRATION that
      is otherwise in order up to the point where it is asked. */
  lemma MigrationFailedExact(e: Event, o: Options)
    ensures ReplayAll([e], o) == Err(MigrationFailed) <==>
            && e.payload.body.Migration? && o.verifyMigration.Some? && o.verifyMigration.value(e).None?
            && InTime(e.payload, o) && !e.payload.chain.prohibited
            && e.payload.chain.seqNo == Some(0) && e.payload.chain.prevEventId.None? && e.payload.chain.prevStateHash.None?
            && e.sigs.ae.Signed?
            && e.payload.body.previousLog != OtherRef("") && e.payload.body.newLog != OtherRef("")
            && e.payload.body.finalEntryRef != OtherRef("") && e.payload.body.previousLog != e.payload.body.newLog
            && (o.lr.Some? ==> e.payload.body.newLog == o.lr.value)
  {
    assert ReplayAll([e], o) == Genesis(e, o);
  }

  // ---- Roles ----

  datatype Role = EntityRole | OperationalRole | PreviousRole | NewRole

  function SlotOf(sigs: Signatures, role: Role): Slot {
    match role
    case EntityRole => sigs.ae
    case OperationalRole => sigs.op
    case PreviousRole => sigs.prevOp
    case NewRole => sigs.newOp
  }

  /** The roles an event type demands; it allows no others. */
  function Demanded(body: Body): set<Role> {
    if body.Issuance? then {EntityRole, OperationalRole}
    else if body.KeyRotation? then {PreviousRole, NewRole}
    else {EntityRole}
  }

  /** The key that answers for a role: one in force, or one the event introduces. */
  function KeyOf(role: Role, body: Body, entity: Jwk, operational: Jwk): Option<Jwk> {
    match role
    case EntityRole => Some(entity)
    case PreviousRole => Some(operational)
    case OperationalRole => if body.Issuance? then Some(body.operational) else None
    case NewRole => if body.KeyRotation? then Some(body.newKey) else None
  }

  /** Authenticated, role by role: every demanded role is signed under the key id of
      a usable key and verifies under that key, and there is no other signature. */
  lemma RolesExact(e: Event, entity: Jwk, operational: Jwk, o: Options)
    ensures AllRolesVerify(e, entity, operational, o) <==>
            && !e.sigs.extra
            && forall role ::
                 var slot, key := SlotOf(e.sigs, role), KeyOf(role, e.payload.body, entity, operational);
                 if role in Demanded(e.payload.body)
                 then key.Some? && slot.Signed? && slot.kid == key.value.kid && key.value.supported && o.valid(key.value, e.payload, slot.sig)
                 else slot == Absent
  {
    var sigs := e.sigs;
    assert SlotOf(sigs, EntityRole) == sigs.ae && SlotOf(sigs, OperationalRole) == sigs.op;
    assert SlotOf(sigs, PreviousRole) == sigs.prevOp && SlotOf(sigs, NewRole) == sigs.newOp;
  }

  /** What the codec accepts, role by role: the bound log, members in order, exactly
      the demanded signatures, and for the keys an event introduces, usable and
      different keys under the key ids of their signatures. */
  lemma DecodesExact(e: Event, o: Options)
    ensures Decodes(e, o) <==>
            && (o.lr.Some? ==> e.payload.lr == o.lr.value) && e.payload.intact && !e.sigs.extra
            && (forall role :: if role in Demanded(e.payload.body) then SlotOf(e.sigs, role).Signed? else SlotOf(e.sigs, role) == Absent)
            && match e.payload.body
               case Issuance(_, entity, operational) =>
                 && entity.supported && operational.supported && Different(entity, operational)
                 && NamesKey(e.sigs.ae, entity) && NamesKey(e.sigs.op, operational)
               case KeyRotation(_, newKey, _) => newKey.supported && NamesKey(e.sigs.newOp, newKey)
               case Revocation(reason) => !reason.OtherReason?
               case _ => true
  {
    var sigs := e.sigs;
    assert SlotOf(sigs, EntityRole) == sigs.ae && SlotOf(sigs, OperationalRole) == sigs.op;
    assert SlotOf(sigs, PreviousRole) == sigs.prevOp && SlotOf(sigs, NewRole) == sigs.newOp;
  }
}
