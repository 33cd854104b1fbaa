/** Lifecycle events and the replay of `verifyLifecycle`.

    Event ids, state hashes and key thumbprints are ideal: they remember what
    was hashed. Signature verification is an arbitrary predicate of the options. */
module Lifecycle {
  import opened Common

  // ---- Events ----

  datatype Thumb = ThumbOf(material: string) | OtherThumb(text: string)

  /** A public key; `supported` says it is an Ed25519 or P-256 signing key without private material. */
  datatype Jwk = Jwk(kid: string, material: string, supported: bool)

  function Thumbprint(key: Jwk): Thumb { ThumbOf(key.material) }

  /** A log reference by its text: a c2sp-tlog log, an entry of such a log, or any
      other text, which may name a log of another method or nothing at all. */
  datatype Ref = LogRef(lr: string) | EntryRef(lr: string, index: int) | OtherRef(text: string)

  const NO_TEXT := OtherRef("")

  datatype Reason = KeyCompromise | PolicyViolation | Superseded | CessationOfOperation | OtherReason(text: string)

  datatype Body =
    | Issuance(governanceId: string, entity: Jwk, operational: Jwk)
    | KeyRotation(previousThumb: Thumb, newKey: Jwk, newThumb: Thumb)
    | Revocation(reason: Reason)
    | Retirement
    | Migration(previousLog: Ref, newLog: Ref, finalEntryRef: Ref)
    | Delegation(delegatee: string, scope: string, expiry: int)

  datatype Status = ACTIVE | REVOKED | RETIRED

  datatype LoggedState = LoggedState(fqdn: string, status: Status, entityThumb: Thumb, operationalThumb: Thumb)

  datatype StateHash = HashOf(state: LoggedState) | OtherHash(text: string)

  /** The logical id of a signed payload; signatures and indexes do not enter it. */
  datatype EventId = IdOf(payload: Payload) | OtherId(text: string)

  /** The signed chain members; `prohibited` marks a member no event may carry. */
  datatype Chain = Chain(seqNo: Option<int>, prevEventId: Option<EventId>, prevStateHash: Option<StateHash>, prohibited: bool)

  /** The signed content of an entry: everything but its signatures. `lr` is the
      log reference it is bound to; `intact` says its members have the types and
      ranges the codec demands. */
  datatype Payload = Payload(lr: Ref, domain: string, timestamp: int, body: Body, intact: bool, chain: Chain)

  datatype Slot = Absent | Malformed | Signed(kid: string, sig: string)

  /** One slot per signer role; `extra` marks a role no event type has. */
  datatype Signatures = Signatures(ae: Slot, op: Slot, prevOp: Slot, newOp: Slot, extra: bool)

  datatype Event = Event(payload: Payload, sigs: Signatures)

  datatype MigrationResult = MigrationResult(
    entityKey: Jwk, operationalKey: Jwk, priorHistory: seq<Event>, references: Option<seq<Ref>>)

  datatype Options = Options(
    lr: Option<Ref>,
    signerKey: Option<Jwk>,
    integrationTime: Option<int>,
    verifyMigration: Option<Event -> Option<MigrationResult>>,
    valid: (Jwk, Payload, string) -> bool)

  // ---- Decoding ----

  predicate LrMatches(p: Payload, o: Options) {
    o.lr.None? || p.lr == o.lr.value
  }

  /** The role whose signature authorizes an event of this type. */
  function AuthorizingSlot(e: Event): Slot {
    if e.payload.body.KeyRotation? then e.sigs.prevOp else e.sigs.ae
  }

  /** `parseC2spAuthorization` succeeds. */
  predicate Authorizes(e: Event, o: Options) {
    LrMatches(e.payload, o) && AuthorizingSlot(e).Signed?
  }

  /** Exactly the roles the event type demands are signed. */
  predicate RolesComplete(e: Event) {
    var s := e.sigs;
    !s.extra &&
    match e.payload.body
    case Issuance(_, _, _) => s.ae.Signed? && s.op.Signed? && s.prevOp.Absent? && s.newOp.Absent?
    case KeyRotation(_, _, _) => s.prevOp.Signed? && s.newOp.Signed? && s.ae.Absent? && s.op.Absent?
    case _ => s.ae.Signed? && s.op.Absent? && s.prevOp.Absent? && s.newOp.Absent?
  }

  /** `parseC2spEventEntry` succeeds. */
  predicate Decodes(e: Event, o: Options) {
    LrMatches(e.payload, o) && e.payload.intact && RolesComplete(e) &&
    match e.payload.body
    case Issuance(_, entity, operational) =>
      && entity.supported && operational.supported
      && Thumbprint(entity) != Thumbprint(operational)
      && e.sigs.ae.kid == entity.kid && e.sigs.op.kid == operational.kid
    case KeyRotation(_, newKey, _) => newKey.supported && e.sigs.newOp.kid == newKey.kid
    case Revocation(reason) => !reason.OtherReason?
    case _ => true
  }

  predicate RoleVerifies(slot: Slot, key: Jwk, p: Payload, o: Options) {
    slot.Signed? && key.supported && slot.kid == key.kid && o.valid(key, p, slot.sig)
  }

  /** `hasAllRoleSignatures`: every role verifies under the given authority or the key it introduces. */
  predicate AllRolesVerify(e: Event, entityKey: Jwk, operationalKey: Jwk, o: Options) {
    RolesComplete(e) &&
    match e.payload.body
    case Issuance(_, _, operational) =>
      RoleVerifies(e.sigs.ae, entityKey, e.payload, o) && RoleVerifies(e.sigs.op, operational, e.payload, o)
    case KeyRotation(_, newKey, _) =>
      RoleVerifies(e.sigs.prevOp, operationalKey, e.payload, o) && RoleVerifies(e.sigs.newOp, newKey, e.payload, o)
    case _ => RoleVerifies(e.sigs.ae, entityKey, e.payload, o)
  }

  // ---- Replay ----

  datatype Failure = Rejected | MigrationFailed

  /** What the loop carries from one event to the next. */
  datatype Replay = Replay(state: LoggedState, entityKey: Jwk, operationalKey: Jwk)

  predicate Terminal(e: Event) {
    e.payload.body.Revocation? || e.payload.body.Retirement?
  }

  predicate SigOk(key: Jwk, p: Payload, slot: Slot, o: Options) {
    slot.Signed? && slot.sig != "" && o.valid(key, p, slot.sig)
  }

  /** Checks every event passes before its type is looked at. */
  predicate Timely(p: Payload, o: Options) {
    o.integrationTime.Some? && p.timestamp <= o.integrationTime.value && !p.chain.prohibited
  }

  predicate FirstChainFields(c: Chain) {
    c.seqNo == Some(0) && c.prevEventId.None? && c.prevStateHash.None?
  }

  predicate ChainFields(c: Chain, previous: Payload, state: LoggedState) {
    && previous.chain.seqNo.Some? && Safe(previous.chain.seqNo.value)
    && c.seqNo == Some(previous.chain.seqNo.value + 1)
    && c.prevEventId == Some(IdOf(previous))
    && c.prevStateHash == Some(HashOf(state))
  }

  predicate SignerMatches(key: Jwk, o: Options) {
    o.signerKey.None? || Thumbprint(o.signerKey.value) == Thumbprint(key)
  }

  function ActiveState(domain: string, entityKey: Jwk, operationalKey: Jwk): LoggedState {
    LoggedState(domain, ACTIVE, Thumbprint(entityKey), Thumbprint(operationalKey))
  }

  /** The first event: an ISSUANCE, or a MIGRATION verified against the prior log. */
  function Genesis(e: Event, o: Options): Result<Replay, Failure> {
    var p := e.payload;
    if !(p.body.Issuance? || p.body.Migration?) then Err(Rejected)
    else if p.body.Migration? && !MigrationShape(p.body) then Err(Rejected)
    else if !Timely(p, o) || !FirstChainFields(p.chain) || !AuthorizingSlot(e).Signed? then Err(Rejected)
    else if p.body.Issuance? then GenesisIssuance(e, o)
    else GenesisMigration(e, o)
  }

  predicate MigrationShape(b: Body)
    requires b.Migration?
  {
    b.previousLog != NO_TEXT && b.newLog != NO_TEXT && b.previousLog != b.newLog && b.finalEntryRef != NO_TEXT
  }

  function GenesisIssuance(e: Event, o: Options): Result<Replay, Failure>
    requires e.payload.body.Issuance?
  {
    var p, entity, operational := e.payload, e.payload.body.entity, e.payload.body.operational;
    if entity.supported && operational.supported && Thumbprint(entity) != Thumbprint(operational)
       && SignerMatches(entity, o) && SigOk(entity, p, e.sigs.ae, o) && SigOk(operational, p, e.sigs.op, o)
    then Ok(Replay(ActiveState(p.domain, entity, operational), entity, operational))
    else Err(Rejected)
  }

  function GenesisMigration(e: Event, o: Options): Result<Replay, Failure>
    requires e.payload.body.Migration?
  {
    var p := e.payload;
    if o.verifyMigration.None? || (o.lr.Some? && p.body.newLog != o.lr.value) then Err(Rejected)
    else
      var migrated := o.verifyMigration.value(e);
      if migrated.None? then Err(MigrationFailed)
      else
        var entity, operational := migrated.value.entityKey, migrated.value.operationalKey;
        if entity.supported && operational.supported && Thumbprint(entity) != Thumbprint(operational)
           && SignerMatches(entity, o) && e.sigs.ae.Signed? && e.sigs.ae.kid == entity.kid
           && SigOk(entity, p, e.sigs.ae, o)
        then Ok(Replay(ActiveState(p.domain, entity, operational), entity, operational))
        else Err(Rejected)
  }

  /** A later event, after `previous` and in the state `r`. */
  function Continue(previous: Event, r: Replay, e: Event, o: Options): Result<Replay, Failure> {
    var p := e.payload;
    if Terminal(previous) || p.body.Issuance? || p.body.Migration? then Err(Rejected)
    else if !Timely(p, o) || !ChainFields(p.chain, previous.payload, r.state) || !AuthorizingSlot(e).Signed? then Err(Rejected)
    else if p.body.KeyRotation? then Rotate(r, e, o)
    else if e.sigs.ae.kid != r.entityKey.kid || !SigOk(r.entityKey, p, e.sigs.ae, o) then Err(Rejected)
    else if p.body.Revocation? && p.body.reason.OtherReason? then Err(Rejected)
    else Ok(r.(state := NextState(r, e)))
  }

  function Rotate(r: Replay, e: Event, o: Options): Result<Replay, Failure>
    requires e.payload.body.KeyRotation? && e.sigs.prevOp.Signed?
  {
    var p, body := e.payload, e.payload.body;
    if && body.previousThumb == Thumbprint(r.operationalKey) && e.sigs.prevOp.kid == r.operationalKey.kid
       && body.newKey.supported && body.newThumb == Thumbprint(body.newKey)
       && body.newThumb != Thumbprint(r.operationalKey)
       && Thumbprint(r.entityKey) != Thumbprint(body.newKey)
       && SigOk(r.operationalKey, p, e.sigs.prevOp, o) && SigOk(body.newKey, p, e.sigs.newOp, o)
    then
      Ok(Replay(ActiveState(p.domain, r.entityKey, body.newKey), r.entityKey, body.newKey))
    else Err(Rejected)
  }

  /** `nextState` for the types signed by the entity key. */
  function NextState(r: Replay, e: Event): LoggedState {
    var active := ActiveState(e.payload.domain, r.entityKey, r.operationalKey);
    match e.payload.body
    case Delegation(_, _, _) => r.state
    case Revocation(_) => active.(status := REVOKED)
    case Retirement => active.(status := RETIRED)
    case _ => active
  }

  const MAX_LIFECYCLE_EVENTS: nat := 10_000

  function ReplayFrom(es: seq<Event>, o: Options): Result<Replay, Failure>
    requires |es| > 0
  {
    var last := |es| - 1;
    if last == 0 then Genesis(es[0], o)
    else
      var before := ReplayFrom(es[..last], o);
      if before.Err? then before else Continue(es[last - 1], before.value, es[last], o)
  }

  /** The outcome of `verifyLifecycle`. */
  function ReplayAll(es: seq<Event>, o: Options): Result<Replay, Failure> {
    if |es| == 0 || |es| > MAX_LIFECYCLE_EVENTS then Err(Rejected) else ReplayFrom(es, o)
  }

  /** The loop of `verifyLifecycle`, which carries its keys and state as variables. */
  method VerifyLifecycle(es: seq<Event>, o: Options) returns (r: Result<Replay, Failure>)
    ensures r == ReplayAll(es, o)
  {
    hide Genesis, Continue;
    if |es| > MAX_LIFECYCLE_EVENTS || |es| == 0 {
      return Err(Rejected);
    }
    r := Genesis(es[0], o);
    var pos := 1;
    assert es[..1] == [es[0]];
    while pos < |es| && r.Ok?
      invariant 1 <= pos <= |es|
      invariant r == ReplayFrom(es[..pos], o)
    {
      assert es[..pos + 1][..pos] == es[..pos];
      r := Continue(es[pos - 1], r.value, es[pos], o);
      pos := pos + 1;
    }
    if r.Err? {
      ReplayPrefix(es, pos, o);
    }
    assert es[..|es|] == es;
  }

  /** A failure of a prefix is the failure of the whole. */
  lemma {:induction false} ReplayPrefix(es: seq<Event>, k: nat, o: Options)
    requires 0 < k <= |es|
    ensures ReplayFrom(es[..k], o).Err? ==> ReplayFrom(es, o) == ReplayFrom(es[..k], o)
    decreases |es|
  {
    hide Genesis, Continue;
    if k == |es| {
      assert es[..k] == es;
    } else {
      var last := |es| - 1;
      ReplayPrefix(es[..last], k, o);
      assert es[..last][..k] == es[..k];
    }
  }

  /** Accepted lifecycles are closed under non-empty prefixes. */
  lemma PrefixClosed(es: seq<Event>, k: nat, o: Options)
    requires 0 < k <= |es| && ReplayAll(es, o).Ok?
    ensures ReplayAll(es[..k], o).Ok?
  {
    ReplayPrefix(es, k, o);
  }

  // ---- Chain determinism ----

  /** Each event of an accepted lifecycle, seen in place. */
  lemma {:induction false} StepAt(es: seq<Event>, k: nat, o: Options)
    requires k < |es| && ReplayAll(es, o).Ok?
    ensures ReplayAll(es[..k + 1], o).Ok?
    ensures k == 0 ==> ReplayAll(es[..k + 1], o) == Genesis(es[0], o)
    ensures k > 0 ==> ReplayAll(es[..k], o).Ok? &&
                      ReplayAll(es[..k + 1], o) == Continue(es[k - 1], ReplayAll(es[..k], o).value, es[k], o)
  {
    hide Genesis, Continue;
    PrefixClosed(es, k + 1, o);
    if k > 0 {
      PrefixClosed(es, k, o);
      assert es[..k + 1][..k] == es[..k];
    }
  }

  /** The sequence number of an event is its position, only the last may be
      terminal, and only the first may be an ISSUANCE or a MIGRATION. */
  lemma {:induction false} AcceptedShape(es: seq<Event>, k: nat, o: Options)
    requires k < |es| && ReplayAll(es, o).Ok?
    ensures es[k].payload.chain.seqNo == Some(k)
    ensures Terminal(es[k]) ==> k == |es| - 1
    ensures (es[k].payload.body.Issuance? || es[k].payload.body.Migration?) <==> k == 0
    ensures k > 0 ==> es[k].payload.chain.prevEventId == Some(IdOf(es[k - 1].payload))
    decreases k
  {
    hide ReplayAll, GenesisIssuance, GenesisMigration, Rotate;
    StepAt(es, k, o);
    if k > 0 {
      AcceptedShape(es, k - 1, o);
    }
    if k + 1 < |es| {
      StepAt(es, k + 1, o);
    }
  }

  /** Two accepted lifecycles, under any options, that end in the same event id
      have the same length and the same signed payload at every position. */
  lemma {:induction false} ChainDeterminism(a: seq<Event>, b: seq<Event>, oa: Options, ob: Options)
    requires ReplayAll(a, oa).Ok? && ReplayAll(b, ob).Ok?
    requires IdOf(a[|a| - 1].payload) == IdOf(b[|b| - 1].payload)
    ensures |a| == |b| && forall k :: 0 <= k < |a| ==> a[k].payload == b[k].payload
    decreases |a|
  {
    hide ReplayFrom;
    var la, lb := |a| - 1, |b| - 1;
    AcceptedShape(a, la, oa);
    AcceptedShape(b, lb, ob);
    if la > 0 {
      PrefixClosed(a, la, oa);
      PrefixClosed(b, lb, ob);
      ChainDeterminism(a[..la], b[..lb], oa, ob);
      forall k | 0 <= k < |a| ensures a[k].payload == b[k].payload {
        assert k < la ==> a[..la][k] == a[k] && b[..lb][k] == b[k];
      }
    }
  }
}
