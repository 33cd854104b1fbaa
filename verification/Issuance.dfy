/** Managed issuance: one durable operation, any number of attempts to finish it,
    and a crash possible between any two awaits. */
module Issuance {
  import opened Common

  type Bytes = seq<nat>

  /** An ideal SHA-256 of entry bytes. */
  datatype Digest = DigestOf(bytes: Bytes) | OtherDigest(text: string)

  /** A final log reference: a bound log and the index of an entry in it. */
  datatype FinalRef = FinalRef(log: string, index: int) | OtherFinalRef(text: string)

  datatype SubmissionState = Pending | Accepted | Rejected | Indeterminate

  datatype Submission = Submission(state: SubmissionState, entryHash: Digest, index: Option<int>, logRef: Option<FinalRef>)

  /** What identifies the operation; fixed when the intent is created. */
  datatype Intent = Intent(domain: string, governanceId: string, idempotencyKey: string, entityKey: string, operationalKey: string)

  /** The exact completed entry, with the log it is bound to and its digest. */
  datatype Completed = Completed(logReference: string, entryBytes: Bytes, entryHash: Digest)

  datatype Operation = Operation(
    intent: Intent,
    completed: Option<Completed>,
    submission: Option<Submission>,
    terminalFailure: bool,
    activated: bool)

  function Fresh(intent: Intent): Operation {
    Operation(intent, None, None, false, false)
  }

  /** `verifyPersistedCompletedIssuance` as far as the record itself goes. */
  predicate IntactCompletion(op: Operation) {
    op.completed.Some? && op.completed.value.entryHash == DigestOf(op.completed.value.entryBytes)
  }

  /** `assertAcceptedBinding`. */
  predicate BindingOk(op: Operation, s: Submission)
    requires op.completed.Some?
  {
    && (op.submission.Some? ==> s.entryHash == op.submission.value.entryHash)
    && (s.state == Accepted ==>
          && s.entryHash == DigestOf(op.completed.value.entryBytes)
          && s.index.Some? && Safe(s.index.value) && s.index.value >= 0
          && s.logRef == Some(FinalRef(op.completed.value.logReference, s.index.value)))
  }

  /** Accepted, and bound to the exact bytes by hash, index and log reference. */
  predicate AcceptedAndBound(op: Operation) {
    op.completed.Some? && op.submission.Some? && op.submission.value.state == Accepted && BindingOk(op, op.submission.value)
  }

  /** Rejected, terminally failed or activated: nothing may happen any more. */
  predicate Finished(op: Operation) {
    op.activated || op.terminalFailure || (op.submission.Some? && op.submission.value.state == Rejected)
  }

  // ---- The workflow as steps ----

  /** Where the one running attempt waits; each case is the await that comes next. */
  datatype Attempt =
    | NoAttempt
    | Preparing(op: Operation)
    | PersistingTerminal(op: Operation)
    | PersistingCompleted(op: Operation)
    | Submitting(op: Operation)
    | AwaitingReply(op: Operation)
    | PersistingReply(op: Operation)
    | Activating(op: Operation)
    | PersistingActivated(op: Operation)

  datatype Effect =
    | Submitted(domain: string, entryBytes: Bytes, idempotencyKey: string)
    | Activated(op: Operation)

  /** The durable record, the running attempt, and everything the outside world has seen. */
  datatype State = State(durable: Option<Operation>, attempt: Attempt, effects: seq<Effect>)

  /** What `submitPreparedEvent` can end in. */
  datatype Reply =
    | Result(submission: Submission)
    | ErrorSameBytes
    | ErrorTerminal

  datatype Step =
    | Create(intent: Intent)
    | Resume
    | PrepareDone(logReference: string, entryBytes: Bytes)
    | PrepareRefused
    | Persist
    | Submit
    | ReplyArrives(reply: Reply)
    | Activate
    | Crash

  /** `resumeManagedIssuanceState`: where a loaded operation continues. */
  function ResumeAt(op: Operation): Attempt {
    if op.activated || op.terminalFailure || (op.submission.Some? && op.submission.value.state == Rejected) then NoAttempt
    else if op.submission.Some? && op.submission.value.state == Accepted then
      if IntactCompletion(op) && BindingOk(op, op.submission.value) then Activating(op) else NoAttempt
    else if op.completed.None? then Preparing(op)
    else Submitting(op)
  }

  /** The record `submit` persists for a reply, or None when the binding check throws. */
  function Reconciled(op: Operation, reply: Reply): Option<Operation>
    requires op.completed.Some?
  {
    match reply
    case Result(s) => if s.state != Indeterminate && BindingOk(op, s) then Some(op.(submission := Some(s))) else None
    case ErrorSameBytes =>
      Some(op.(submission := Some(Submission(Indeterminate, op.completed.value.entryHash, None, None))))
    case ErrorTerminal =>
      Some(op.(submission := Some(Submission(Rejected, op.completed.value.entryHash, None, None)), terminalFailure := true))
  }

  /** The attempt after a record has been made durable. */
  function AfterPersist(a: Attempt): Attempt {
    match a
    case PersistingCompleted(op) => Submitting(op)
    case PersistingReply(op) =>
      if op.submission.Some? && op.submission.value.state == Accepted && !op.terminalFailure then Activating(op) else NoAttempt
    case _ => NoAttempt
  }

  predicate Persisting(a: Attempt) {
    a.PersistingTerminal? || a.PersistingCompleted? || a.PersistingReply? || a.PersistingActivated?
  }

  ghost predicate Next(s: State, s': State, step: Step) {
    match step
    case Create(intent) =>
      s.attempt.NoAttempt? && s.durable.None? && s' == State(Some(Fresh(intent)), Preparing(Fresh(intent)), s.effects)
    case Resume =>
      s.attempt.NoAttempt? && s.durable.Some? && s' == s.(attempt := ResumeAt(s.durable.value))
    case PrepareDone(logReference, entryBytes) =>
      && s.attempt.Preparing?
      && var completed := Completed(logReference, entryBytes, DigestOf(entryBytes));
         s' == s.(attempt := PersistingCompleted(s.attempt.op.(completed := Some(completed))))
    case PrepareRefused =>
      s.attempt.Preparing? && s' == s.(attempt := PersistingTerminal(s.attempt.op.(terminalFailure := true)))
    case Persist =>
      Persisting(s.attempt) && s' == State(Some(s.attempt.op), AfterPersist(s.attempt), s.effects)
    case Submit =>
      && s.attempt.Submitting? && IntactCompletion(s.attempt.op)
      && var op := s.attempt.op;
         s' == State(s.durable, AwaitingReply(op),
                     s.effects + [Submitted(op.intent.domain, op.completed.value.entryBytes, op.intent.idempotencyKey)])
    case ReplyArrives(reply) =>
      && s.attempt.AwaitingReply? && s.attempt.op.completed.Some?
      && var reconciled := Reconciled(s.attempt.op, reply);
         s' == s.(attempt := if reconciled.Some? then PersistingReply(reconciled.value) else NoAttempt)
    case Activate =>
      && s.attempt.Activating?
      && s' == State(s.durable, PersistingActivated(s.attempt.op.(activated := true)), s.effects + [Activated(s.attempt.op)])
    case Crash =>
      // A crash, an abandoned attempt or any thrown error: only the durable record survives.
      s' == s.(attempt := NoAttempt)
  }

  ghost predicate Run(states: seq<State>, steps: seq<Step>) {
    && |states| == |steps| + 1
    && states[0] == State(None, NoAttempt, [])
    && forall i :: 0 <= i < |steps| ==> Next(states[i], states[i + 1], steps[i])
  }

  // ---- The invariant ----

  /** A record that the workflow can have written. */
  ghost predicate WellFormed(op: Operation) {
    && (op.completed.Some? ==> IntactCompletion(op))
    && (op.submission.Some? ==> op.completed.Some?)
    && (op.submission.Some? && op.submission.value.state == Accepted ==> AcceptedAndBound(op) && !op.terminalFailure)
    && (op.activated ==> AcceptedAndBound(op))
  }

  /** The attempt works on the durable record or on the record it is about to write. */
  ghost predicate AttemptOk(s: State) {
    match s.attempt
    case NoAttempt => true
    case Preparing(op) => s.durable == Some(op) && op.completed.None? && !Finished(op)
    case PersistingTerminal(op) =>
      s.durable.Some? && s.durable.value.completed.None? && !Finished(s.durable.value)
      && op == s.durable.value.(terminalFailure := true)
    case PersistingCompleted(op) =>
      s.durable.Some? && s.durable.value.completed.None? && !Finished(s.durable.value)
      && op.completed.Some? && op == s.durable.value.(completed := op.completed)
    case Submitting(op) => s.durable == Some(op) && op.completed.Some? && !Finished(op) && !AcceptedAndBound(op)
    case AwaitingReply(op) => s.durable == Some(op) && op.completed.Some? && !Finished(op) && !AcceptedAndBound(op)
    case PersistingReply(op) =>
      s.durable.Some? && s.durable.value.completed.Some? && !Finished(s.durable.value) && !AcceptedAndBound(s.durable.value)
      && op.submission.Some? && op == s.durable.value.(submission := op.submission, terminalFailure := op.terminalFailure)
      && (op.terminalFailure ==> op.submission.value.state == Rejected)
    case Activating(op) => s.durable == Some(op) && AcceptedAndBound(op) && !Finished(op)
    case PersistingActivated(op) =>
      s.durable.Some? && AcceptedAndBound(s.durable.value) && !Finished(s.durable.value)
      && op == s.durable.value.(activated := true)
  }

  /** Every submission so far carried the domain, the bytes and the key of the durable record. */
  ghost predicate EffectOk(s: State, e: Effect) {
    s.durable.Some? &&
    match e
    case Submitted(domain, entryBytes, key) =>
      && s.durable.value.completed.Some? && s.durable.value.completed.value.entryBytes == entryBytes
      && s.durable.value.intent.domain == domain && s.durable.value.intent.idempotencyKey == key
    case Activated(op) =>
      && AcceptedAndBound(op) && op.intent == s.durable.value.intent && op.completed == s.durable.value.completed
      && op.submission == s.durable.value.submission
  }

  ghost predicate Inv(s: State) {
    && (s.durable.Some? ==> WellFormed(s.durable.value))
    && (Persisting(s.attempt) ==> WellFormed(s.attempt.op))
    && AttemptOk(s)
    && forall e | e in s.effects :: EffectOk(s, e)
  }

  lemma InvStep(s: State, s': State, step: Step)
    requires Inv(s) && Next(s, s', step)
    ensures Inv(s')
  {
    hide EffectOk;
    RecordsStep(s, s', step);
    forall e | e in s'.effects ensures EffectOk(s', e) {
      EffectsStep(s, s', step, e);
    }
  }

  lemma RecordsStep(s: State, s': State, step: Step)
    requires Inv(s) && Next(s, s', step)
    ensures s'.durable.Some? ==> WellFormed(s'.durable.value)
    ensures Persisting(s'.attempt) ==> WellFormed(s'.attempt.op)
    ensures AttemptOk(s')
  {
    hide EffectOk;
    if step.ReplyArrives? {
      ReplyStep(s, s', step.reply);
      hide Next, WellFormed, AttemptOk;
    }
  }

  lemma ReplyStep(s: State, s': State, reply: Reply)
    requires Inv(s) && Next(s, s', ReplyArrives(reply))
    ensures s'.durable.Some? ==> WellFormed(s'.durable.value)
    ensures Persisting(s'.attempt) ==> WellFormed(s'.attempt.op)
    ensures AttemptOk(s')
  {
    hide EffectOk;
  }

  lemma EffectsStep(s: State, s': State, step: Step, e: Effect)
    requires Inv(s) && Next(s, s', step) && e in s'.effects
    ensures EffectOk(s', e)
  {
    hide BindingOk, IntactCompletion, Reconciled;
    DurableStep(s, s', step);
    if e in s.effects {
      assert EffectOk(s, e);
    }
  }

  /** One step never changes the intent, the completed bytes or an accepted
      submission, and leaves a finished operation alone. */
  lemma DurableStep(s: State, s': State, step: Step)
    requires Inv(s) && Next(s, s', step)
    ensures s.effects <= s'.effects
    ensures s.durable.Some? ==>
              && s'.durable.Some? && s'.durable.value.intent == s.durable.value.intent
              && (s.durable.value.completed.Some? ==> s'.durable.value.completed == s.durable.value.completed)
              && (AcceptedAndBound(s.durable.value) ==> s'.durable.value.submission == s.durable.value.submission)
    ensures s.durable.Some? && Finished(s.durable.value) ==> s'.durable == s.durable && s'.effects == s.effects
  {
    hide EffectOk, BindingOk, IntactCompletion;
  }

  lemma {:induction false} InvReached(states: seq<State>, steps: seq<Step>, i: nat)
    requires Run(states, steps) && i < |states|
    ensures Inv(states[i])
    decreases i
  {
    hide Inv, Next;
    if i == 0 {
      InitInv(states[0]);
    } else {
      InvReached(states, steps, i - 1);
      InvStep(states[i - 1], states[i], steps[i - 1]);
    }
  }

  lemma InitInv(s: State)
    requires s == State(None, NoAttempt, [])
    ensures Inv(s)
  {
  }

  // ---- Results ----

  /** However often the workflow crashes and resumes, every submission carries the
      same bytes for the same domain under the same idempotency key. */
  lemma SubmissionsAreIdentical(states: seq<State>, steps: seq<Step>, i: nat, e: Effect, f: Effect)
    requires Run(states, steps) && i < |states|
    requires e in states[i].effects && f in states[i].effects && e.Submitted? && f.Submitted?
    ensures e == f
  {
    InvReached(states, steps, i);
    assert EffectOk(states[i], e) && EffectOk(states[i], f);
  }

  /** The record is accepted under the hash of its own bytes, at a valid index, in its own log. */
  predicate BoundExactly(op: Operation) {
    && op.completed.Some? && op.submission.Some?
    && var s := op.submission.value;
       && s.state == Accepted && s.entryHash == DigestOf(op.completed.value.entryBytes)
       && s.index.Some? && Safe(s.index.value) && s.index.value >= 0
       && s.logRef == Some(FinalRef(op.completed.value.logReference, s.index.value))
  }

  /** Activation happens only when the durable record is already accepted and its
      hash, index and log reference bind the exact bytes, and those bytes are the
      ones every submission carried. */
  lemma ActivationIsBound(states: seq<State>, steps: seq<Step>, i: nat)
    requires Run(states, steps) && i < |steps| && steps[i].Activate?
    ensures
      var durable := states[i].durable;
      && durable.Some? && !Finished(durable.value) && BoundExactly(durable.value)
      && states[i + 1].effects == states[i].effects + [Activated(durable.value)]
      && forall e | e in states[i].effects && e.Submitted? :: e.entryBytes == durable.value.completed.value.entryBytes
  {
    InvReached(states, steps, i);
    assert Next(states[i], states[i + 1], steps[i]);
    assert AttemptOk(states[i]);
    forall e | e in states[i].effects && e.Submitted?
      ensures e.entryBytes == states[i].durable.value.completed.value.entryBytes
    {
      assert EffectOk(states[i], e);
    }
  }

  /** Rejected, terminally failed and activated operations are absorbing: the
      record stays as it is and nothing is submitted or activated again. Before
      that, the intent, the completed bytes and an acceptance never change. */
  lemma {:induction false} FinishedIsAbsorbing(states: seq<State>, steps: seq<Step>, i: nat, j: nat)
    requires Run(states, steps) && i <= j < |states| && states[i].durable.Some?
    ensures states[j].durable.Some?
    ensures states[j].durable.value.intent == states[i].durable.value.intent
    ensures states[i].durable.value.completed.Some? ==> states[j].durable.value.completed == states[i].durable.value.completed
    ensures AcceptedAndBound(states[i].durable.value) ==>
              states[j].durable.value.submission == states[i].durable.value.submission && AcceptedAndBound(states[j].durable.value)
    ensures Finished(states[i].durable.value) ==>
              states[j].durable == states[i].durable && states[j].effects == states[i].effects
    decreases j
  {
    if i < j {
      FinishedIsAbsorbing(states, steps, i, j - 1);
      InvReached(states, steps, j - 1);
      hide Inv, Next;
      DurableStep(states[j - 1], states[j], steps[j - 1]);
    }
  }

  // ---- Errors and progress ----

  /** After an error that asks for the same bytes, the record stays unfinished, and
      the next resumption submits those very bytes again. */
  lemma RetriesSameBytes(s: State) returns (replied: State, kept: State, resumed: State, again: State)
    requires Inv(s) && s.attempt.AwaitingReply?
    ensures Next(s, replied, ReplyArrives(ErrorSameBytes)) && Next(replied, kept, Persist)
    ensures Next(kept, resumed, Resume) && Next(resumed, again, Submit)
    ensures
      var op := s.attempt.op;
      && kept.durable.Some? && !kept.durable.value.activated && !kept.durable.value.terminalFailure
      && kept.durable.value.submission.Some? && kept.durable.value.submission.value.state == Indeterminate
      && again.effects == s.effects + [Submitted(op.intent.domain, op.completed.value.entryBytes, op.intent.idempotencyKey)]
  {
    var op := s.attempt.op;
    var next := op.(submission := Some(Submission(Indeterminate, op.completed.value.entryHash, None, None)));
    replied := s.(attempt := PersistingReply(next));
    kept := State(Some(next), NoAttempt, s.effects);
    resumed := kept.(attempt := Submitting(next));
    again := State(Some(next), AwaitingReply(next),
                   s.effects + [Submitted(op.intent.domain, op.completed.value.entryBytes, op.intent.idempotencyKey)]);
  }

  /** After any other error the record is terminally failed and rejected, and a
      resumption does nothing. */
  lemma StopsAfterTerminal(s: State, replied: State, kept: State, resumed: State)
    requires Inv(s) && s.attempt.AwaitingReply?
    requires Next(s, replied, ReplyArrives(ErrorTerminal)) && Next(replied, kept, Persist) && Next(kept, resumed, Resume)
    ensures
      && kept.durable.Some? && kept.durable.value.terminalFailure
      && kept.durable.value.submission.Some? && kept.durable.value.submission.value.state == Rejected
      && resumed == kept && resumed.effects == s.effects
  {
  }

  /** A resumption continues where the record stands: activation of what was accepted,
      submission of what was completed, preparation of a bare intent, nothing otherwise. */
  lemma ResumeExact(s: State, s': State)
    requires Inv(s) && Next(s, s', Resume)
    ensures
      var op := s.durable.value;
      var over := op.activated || op.terminalFailure || (op.submission.Some? && op.submission.value.state == Rejected);
      var accepted := op.submission.Some? && op.submission.value.state == Accepted;
      && s'.durable == s.durable && s'.effects == s.effects
      && s'.attempt == if over then NoAttempt else if accepted then Activating(op)
                       else if op.completed.Some? then Submitting(op) else Preparing(op)
  {
  }

  // The records of an operation that succeeds, in order.

  function CompletedOf(intent: Intent, logReference: string, entryBytes: Bytes): Operation {
    Fresh(intent).(completed := Some(Completed(logReference, entryBytes, DigestOf(entryBytes))))
  }

  function AcceptanceOf(logReference: string, entryBytes: Bytes, index: int): Submission {
    Submission(Accepted, DigestOf(entryBytes), Some(index), Some(FinalRef(logReference, index)))
  }

  lemma PreparationSteps(intent: Intent, logReference: string, entryBytes: Bytes)
    ensures
      var op, completed := Fresh(intent), CompletedOf(intent, logReference, entryBytes);
      && Next(State(None, NoAttempt, []), State(Some(op), Preparing(op), []), Create(intent))
      && Next(State(Some(op), Preparing(op), []), State(Some(op), PersistingCompleted(completed), []),
              PrepareDone(logReference, entryBytes))
      && Next(State(Some(op), PersistingCompleted(completed), []), State(Some(completed), Submitting(completed), []), Persist)
  {
  }

  lemma SubmissionSteps(op: Operation, s: Submission, before: seq<Effect>)
    requires IntactCompletion(op) && s.state == Accepted && BindingOk(op, s) && !op.terminalFailure
    ensures
      var sent := before + [Submitted(op.intent.domain, op.completed.value.entryBytes, op.intent.idempotencyKey)];
      var accepted := op.(submission := Some(s));
      && Next(State(Some(op), Submitting(op), before), State(Some(op), AwaitingReply(op), sent), Submit)
      && Next(State(Some(op), AwaitingReply(op), sent), State(Some(op), PersistingReply(accepted), sent), ReplyArrives(Result(s)))
      && Next(State(Some(op), PersistingReply(accepted), sent), State(Some(accepted), Activating(accepted), sent), Persist)
  {
  }

  lemma ActivationSteps(op: Operation, before: seq<Effect>)
    ensures
      var activated, after := op.(activated := true), before + [Activated(op)];
      && Next(State(Some(op), Activating(op), before), State(Some(op), PersistingActivated(activated), after), Activate)
      && Next(State(Some(op), PersistingActivated(activated), after), State(Some(activated), NoAttempt, after), Persist)
  {
  }

  /** The whole workflow succeeds: an operation that is prepared, submitted and
      accepted under its own hash, index and log ends activated, after one submission. */
  lemma Completes(intent: Intent, logReference: string, entryBytes: Bytes, index: int) returns (states: seq<State>, steps: seq<Step>)
    requires Safe(index) && index >= 0
    ensures Run(states, steps)
    ensures
      var last := states[|states| - 1];
      && last.durable.Some? && last.durable.value.activated && last.durable.value.intent == intent
      && AcceptedAndBound(last.durable.value)
      && |last.effects| == 2 && last.effects[0] == Submitted(intent.domain, entryBytes, intent.idempotencyKey) && last.effects[1].Activated?
  {
    var begun, completed := Fresh(intent), CompletedOf(intent, logReference, entryBytes);
    var reply := AcceptanceOf(logReference, entryBytes, index);
    var accepted := completed.(submission := Some(reply));
    var activated := accepted.(activated := true);
    var sent: seq<Effect> := [] + [Submitted(intent.domain, entryBytes, intent.idempotencyKey)];
    assert AcceptedAndBound(activated);
    PreparationSteps(intent, logReference, entryBytes);
    SubmissionSteps(completed, reply, []);
    ActivationSteps(accepted, sent);
    hide Next, BindingOk;
    steps := [Create(intent), PrepareDone(logReference, entryBytes), Persist, Submit, ReplyArrives(Result(reply)), Persist, Activate, Persist];
    states := [
      State(None, NoAttempt, []),
      State(Some(begun), Preparing(begun), []),
      State(Some(begun), PersistingCompleted(completed), []),
      State(Some(completed), Submitting(completed), []),
      State(Some(completed), AwaitingReply(completed), sent),
      State(Some(completed), PersistingReply(accepted), sent),
      State(Some(accepted), Activating(accepted), sent),
      State(Some(accepted), PersistingActivated(activated), sent + [Activated(accepted)]),
      State(Some(activated), NoAttempt, sent + [Activated(accepted)])];
  }

  /** Which replies are reconciled: not one under another hash than a reply before it,
      and an acceptance only if it is bound exactly; any other throws. */
  lemma ReplyExact(s: State, s': State, reply: Submission)
    requires s.attempt.AwaitingReply? && s.attempt.op.completed.Some? && reply.state != Indeterminate
    requires Next(s, s', ReplyArrives(Result(reply)))
    ensures
      var op := s.attempt.op;
      var next := op.(submission := Some(reply));
      var sameHash := op.submission.Some? ==> reply.entryHash == op.submission.value.entryHash;
      s' == s.(attempt := if sameHash && (reply.state == Accepted ==> BoundExactly(next)) then PersistingReply(next) else NoAttempt)
  {
  }
}
