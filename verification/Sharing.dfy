/** Shared verification work: lookups, status checks and refreshes that callers
    join, a cache they write, and evictions at any moment. */
module Sharing {
  import opened Common

  /** Verified evidence: the TTL of the DNS answer it rests on, and whose work acquired it. */
  datatype Evidence = Evidence(dnsTtl: nat, expiresAt: int, acquiredBy: nat)

  // ---- The cache ----

  /** `InMemoryIdentityCache`, with the clock as a parameter. */
  class IdentityCache {
    var store: map<string, Evidence>

    constructor ()
      ensures store == map[] && Valid()
    {
      store := map[];
    }

    /** Evidence that came with a zero TTL is never kept. */
    ghost predicate Valid()
      reads this
    {
      forall domain | domain in store :: store[domain].dnsTtl > 0
    }

    method Get(domain: string, now: int) returns (r: Option<Evidence>)
      requires Valid()
      modifies this
      ensures Valid()
      ensures r.Some? <==> domain in old(store) && now < old(store)[domain].expiresAt
      ensures r.Some? ==> r.value == old(store)[domain] && r.value.dnsTtl > 0
      ensures store == if r.Some? then old(store) else old(store) - {domain}
    {
      if domain !in store {
        return None;
      }
      if now >= store[domain].expiresAt {
        store := store - {domain};
        return None;
      }
      return Some(store[domain]);
    }

    method Put(domain: string, result: Evidence, now: int)
      requires Valid()
      modifies this
      ensures Valid()
      ensures store == if Cacheable(result, now) then old(store)[domain := result] else old(store) - {domain}
    {
      Evict(domain);
      if !Cacheable(result, now) {
        return;
      }
      store := store[domain := result];
    }

    method Evict(domain: string)
      requires Valid()
      modifies this
      ensures Valid() && store == old(store) - {domain}
    {
      if domain in store {
        store := store - {domain};
      }
    }
  }

  predicate Cacheable(result: Evidence, now: int) {
    result.dnsTtl > 0 && now < result.expiresAt
  }

  // ---- Shared work ----

  datatype Kind = Lookup | StatusCheck | Refresh

  datatype Outcome = Good(evidence: Evidence) | Bad(notActive: bool)

  /** One shared operation. A status check starts from the cached result it re-checks; `settled` once its promise callback has run, `finished` after its cleanup. */
  datatype Op = Op(
    kind: Kind, domain: string, starter: nat, base: Option<Evidence>,
    callers: nat, aborted: bool, settled: Option<Outcome>, finished: bool)

  /** A call: waiting on shared work (joined or started), on work of its own, or done. */
  datatype Caller =
    | Waiting(op: nat, existing: bool)
    | Alone(refresh: bool)
    | Done

  datatype Delivery = Delivery(caller: nat, evidence: Evidence)

  /** The three in-flight maps. */
  datatype Slots = Slots(lookups: map<string, nat>, statuses: map<string, nat>, refreshes: map<string, nat>)

  datatype State = State(
    slots: Slots,
    ops: map<nat, Op>,
    callers: map<nat, Caller>,
    cache: map<string, Evidence>,
    delivered: seq<Delivery>)

  /** The operation in flight for a domain, by kind. */
  function InFlight(t: Slots, kind: Kind, domain: string): Option<nat> {
    var m := match kind case Lookup => t.lookups case StatusCheck => t.statuses case Refresh => t.refreshes;
    if domain in m then Some(m[domain]) else None
  }

  function SetInFlight(t: Slots, kind: Kind, domain: string, op: nat): (t': Slots)
    ensures forall k: Kind, d: string {:trigger InFlight(t', k, d)} ::
              InFlight(t', k, d) == if k == kind && d == domain then Some(op) else InFlight(t, k, d)
  {
    match kind
    case Lookup => t.(lookups := t.lookups[domain := op])
    case StatusCheck => t.(statuses := t.statuses[domain := op])
    case Refresh => t.(refreshes := t.refreshes[domain := op])
  }

  function Unset(t: Slots, kind: Kind, domain: string): (t': Slots)
    ensures forall k: Kind, d: string {:trigger InFlight(t', k, d)} ::
              InFlight(t', k, d) == if k == kind && d == domain then None else InFlight(t, k, d)
  {
    match kind
    case Lookup => t.(lookups := t.lookups - {domain})
    case StatusCheck => t.(statuses := t.statuses - {domain})
    case Refresh => t.(refreshes := t.refreshes - {domain})
  }

  /** What a refresh takes out of flight when it starts and when it writes. */
  function WithoutOlder(t: Slots, kind: Kind, domain: string): Slots {
    if kind.Refresh? then Unset(Unset(t, Lookup, domain), StatusCheck, domain) else t
  }

  /** The operation is still the one its map holds. */
  predicate Current(s: State, op: nat)
    requires op in s.ops
  {
    InFlight(s.slots, s.ops[op].kind, s.ops[op].domain) == Some(op)
  }

  datatype Step =
    | CachedHit(caller: nat, domain: string)
    | Join(caller: nat, kind: Kind, domain: string)
    | Start(caller: nat, kind: Kind, domain: string, op: nat)
    | Settle(op: nat, outcome: Outcome, now: int)
    | Finish(op: nat)
    | Wake(caller: nat)
    | Cancel(caller: nat)
    | AloneDone(caller: nat, outcome: Outcome)
    | Evict(domain: string)
    | Expire(domain: string)

  /** A lookup asks the cache first; a status check needs a cached result. */
  predicate KindFits(s: State, kind: Kind, domain: string) {
    match kind
    case Lookup => domain !in s.cache
    case StatusCheck => domain in s.cache
    case Refresh => true
  }

  function Leave(s: State, caller: nat, next: Caller): State
    requires caller in s.callers && s.callers[caller].Waiting? && s.callers[caller].op in s.ops
  {
    var id := s.callers[caller].op;
    var op := s.ops[id];
    var left := if op.callers == 0 then 0 else op.callers - 1;
    var op' := op.(callers := left, aborted := op.aborted || (left == 0 && !op.finished));
    s.(ops := s.ops[id := op'], callers := s.callers[caller := next])
  }

  /** `startShared` up to the point where the work is in its map: a refresh supersedes older work. */
  function Started(s: State, caller: nat, kind: Kind, domain: string, op: nat): State {
    var base := if kind.StatusCheck? && domain in s.cache then Some(s.cache[domain]) else None;
    s.(slots := SetInFlight(WithoutOlder(s.slots, kind, domain), kind, domain, op),
       ops := s.ops[op := Op(kind, domain, caller, base, 1, false, None, false)],
       callers := s.callers[caller := Waiting(op, false)])
  }

  predicate WritesCache(s: State, op: nat, outcome: Outcome)
    requires op in s.ops
  {
    outcome.Good? && !s.ops[op].aborted && Current(s, op)
  }

  /** The cache after the callbacks of an operation. */
  function CacheAfter(s: State, op: nat, outcome: Outcome, now: int): map<string, Evidence>
    requires op in s.ops
  {
    var domain := s.ops[op].domain;
    if WritesCache(s, op, outcome) then
      if Cacheable(outcome.evidence, now) then s.cache[domain := outcome.evidence] else s.cache - {domain}
    else if outcome.Bad? && outcome.notActive && Current(s, op) then s.cache - {domain}
    else s.cache
  }

  /** The `then` and `catch` callbacks of the shared promise. */
  function Settled(s: State, op: nat, outcome: Outcome, now: int): State
    requires op in s.ops
  {
    var o := s.ops[op];
    s.(ops := s.ops[op := o.(settled := Some(outcome))],
       slots := if WritesCache(s, op, outcome) then WithoutOlder(s.slots, o.kind, o.domain) else s.slots,
       cache := CacheAfter(s, op, outcome, now))
  }

  /** Zero-TTL evidence of work that was already running is not for this caller. */
  predicate MustRedo(op: Op, existing: bool) {
    existing && !op.kind.StatusCheck? && op.settled.Some? && op.settled.value.Good? && op.settled.value.evidence.dnsTtl == 0
  }

  /** A status check keeps the DNS evidence it started from; other work acquires its own. */
  predicate Produces(op: Op, evidence: Evidence) {
    if op.kind.StatusCheck? then op.base.Some? && evidence.dnsTtl == op.base.value.dnsTtl
    else evidence.acquiredBy == op.starter
  }

  ghost predicate Next(s: State, s': State, step: Step) {
    match step
    case CachedHit(caller, domain) =>
      && caller !in s.callers && domain in s.cache
      && s' == s.(callers := s.callers[caller := Done], delivered := s.delivered + [Delivery(caller, s.cache[domain])])
    case Join(caller, kind, domain) =>
      && caller !in s.callers && KindFits(s, kind, domain)
      && var id := InFlight(s.slots, kind, domain);
         && id.Some? && id.value in s.ops
         && var op := s.ops[id.value];
            s' == s.(ops := s.ops[id.value := op.(callers := op.callers + 1)],
                     callers := s.callers[caller := Waiting(id.value, true)])
    case Start(caller, kind, domain, op) =>
      && caller !in s.callers && op !in s.ops && KindFits(s, kind, domain) && InFlight(s.slots, kind, domain).None?
      && s' == Started(s, caller, kind, domain, op)
    case Settle(op, outcome, now) =>
      && op in s.ops && s.ops[op].settled.None?
      && (outcome.Good? ==> Produces(s.ops[op], outcome.evidence))
      && s' == Settled(s, op, outcome, now)
    case Finish(op) =>
      && op in s.ops && s.ops[op].settled.Some? && !s.ops[op].finished
      && s' == s.(ops := s.ops[op := s.ops[op].(finished := true)],
                  slots := if Current(s, op) then Unset(s.slots, s.ops[op].kind, s.ops[op].domain) else s.slots)
    case Wake(caller) =>
      && caller in s.callers && s.callers[caller].Waiting? && s.callers[caller].op in s.ops
      && var op := s.ops[s.callers[caller].op];
         && op.finished && op.settled.Some?
         && if MustRedo(op, s.callers[caller].existing) then s' == Leave(s, caller, Alone(op.kind.Refresh?))
            else if op.settled.value.Good? then
              s' == Leave(s, caller, Done).(delivered := s.delivered + [Delivery(caller, op.settled.value.evidence)])
            else s' == Leave(s, caller, Done)
    case Cancel(caller) =>
      && caller in s.callers && s.callers[caller].Waiting? && s.callers[caller].op in s.ops
      && s' == Leave(s, caller, Done)
    case AloneDone(caller, outcome) =>
      && caller in s.callers && s.callers[caller].Alone?
      && (outcome.Good? ==> outcome.evidence.acquiredBy == caller)
      && s' == s.(callers := s.callers[caller := Done],
                  delivered := if outcome.Good? then s.delivered + [Delivery(caller, outcome.evidence)] else s.delivered)
    case Evict(domain) =>
      s' == s.(slots := Unset(Unset(Unset(s.slots, Refresh, domain), Lookup, domain), StatusCheck, domain),
               cache := s.cache - {domain})
    case Expire(domain) =>
      s' == s.(cache := s.cache - {domain})
  }

  const INITIAL := State(Slots(map[], map[], map[]), map[], map[], map[], [])

  ghost predicate Run(states: seq<State>, steps: seq<Step>) {
    && |states| == |steps| + 1
    && states[0] == INITIAL
    && forall i :: 0 <= i < |steps| ==> Next(states[i], states[i + 1], steps[i])
  }

  // ---- Superseded work never writes ----

  /** The operation can no longer write the cache. */
  predicate Barred(s: State, op: nat) {
    op in s.ops && (s.ops[op].settled.Some? || !Current(s, op))
  }

  /** Maps only ever receive new operations, so what left its map stays out. */
  lemma BarredForever(s: State, s': State, step: Step, op: nat)
    requires Next(s, s', step) && Barred(s, op)
    ensures Barred(s', op)
  {
    FixedStep(s, s', step, op);
    if s.ops[op].settled.None? && Current(s', op) {
      FlightStep(s, s', step, op, s.ops[op].kind, s.ops[op].domain);
    }
  }

  /** The same piece of work, possibly further along. */
  predicate SameWork(was: Op, now: Op) {
    && now.kind == was.kind && now.domain == was.domain && now.starter == was.starter && now.base == was.base
    && (was.settled.Some? ==> now.settled == was.settled)
    && (was.finished ==> now.finished)
  }

  lemma LeaveKeeps(s: State, caller: nat, next: Caller, op: nat)
    requires caller in s.callers && s.callers[caller].Waiting? && s.callers[caller].op in s.ops && op in s.ops
    ensures
      var ops := Leave(s, caller, next).ops;
      && ops.Keys == s.ops.Keys && SameWork(s.ops[op], ops[op]) && ops[op].settled == s.ops[op].settled
      && Leave(s, caller, next).callers == s.callers[caller := next]
  {
  }

  lemma StartedKeeps(s: State, caller: nat, kind: Kind, domain: string, op: nat, id: nat)
    requires id in s.ops && id != op
    ensures id in Started(s, caller, kind, domain, op).ops && Started(s, caller, kind, domain, op).ops[id] == s.ops[id]
  {
  }

  lemma SettledKeeps(s: State, op: nat, outcome: Outcome, now: int, id: nat)
    requires op in s.ops && id in s.ops && s.ops[op].settled.None?
    ensures
      var ops := Settled(s, op, outcome, now).ops;
      && id in ops && SameWork(s.ops[id], ops[id])
      && ops[id].settled == if id == op then Some(outcome) else s.ops[id].settled
  {
    hide WithoutOlder, CacheAfter, WritesCache;
  }

  /** What a step can do to an operation that exists. */
  lemma FixedStep(s: State, s': State, step: Step, op: nat)
    requires Next(s, s', step) && op in s.ops
    ensures op in s'.ops && SameWork(s.ops[op], s'.ops[op])
    ensures s'.ops[op].settled == if step.Settle? && step.op == op then Some(step.outcome) else s.ops[op].settled
  {
    hide InFlight, SetInFlight, Unset, WithoutOlder, CacheAfter, Current, MustRedo, KindFits, Started, Leave, Settled;
    match step
    case Start(caller, kind, domain, id) => StartedKeeps(s, caller, kind, domain, id, op);
    case Settle(id, outcome, now) => SettledKeeps(s, id, outcome, now, op);
    case Wake(caller) =>
      LeaveKeeps(s, caller, Done, op);
      LeaveKeeps(s, caller, Alone(s.ops[s.callers[caller].op].kind.Refresh?), op);
    case Cancel(caller) => LeaveKeeps(s, caller, Done, op);
    case _ =>
  }

  /** A map slot changes only to nothing or to an operation that did not exist. */
  lemma FlightStep(s: State, s': State, step: Step, op: nat, kind: Kind, domain: string)
    requires Next(s, s', step) && op in s.ops && InFlight(s'.slots, kind, domain) == Some(op)
    ensures InFlight(s.slots, kind, domain) == Some(op)
  {
    hide InFlight, SetInFlight, Unset, CacheAfter, Current, MustRedo, KindFits;
  }

  lemma {:induction false} BarredThrough(states: seq<State>, steps: seq<Step>, i: nat, j: nat, op: nat)
    requires Run(states, steps) && i <= j < |states| && Barred(states[i], op)
    ensures Barred(states[j], op) && states[j].ops[op].domain == states[i].ops[op].domain
    decreases j
  {
    hide Next, Barred;
    BarredExists(states[i], op);
    if i < j {
      BarredThrough(states, steps, i, j - 1, op);
      BarredExists(states[j - 1], op);
      BarredForever(states[j - 1], states[j], steps[j - 1], op);
      FixedStep(states[j - 1], states[j], steps[j - 1], op);
    }
    BarredExists(states[j], op);
  }

  lemma BarredExists(s: State, op: nat)
    requires Barred(s, op)
    ensures op in s.ops
  {
  }

  /** The step evicts the domain, starts a refresh of it, or is a refresh writing the cache for it. */
  ghost predicate Supersedes(s: State, step: Step, domain: string) {
    || step == Evict(domain)
    || (step.Start? && step.kind.Refresh? && step.domain == domain)
    || (step.Settle? && step.op in s.ops && s.ops[step.op].kind.Refresh? && s.ops[step.op].domain == domain
        && WritesCache(s, step.op, step.outcome))
  }

  lemma SupersededIsBarred(s: State, s': State, step: Step, domain: string, op: nat)
    requires Next(s, s', step) && Supersedes(s, step, domain) && op in s.ops && s.ops[op].domain == domain
    ensures Barred(s', op)
  {
  }

  /** Over every interleaving: an operation that writes the cache of a domain was
      not yet begun at any earlier eviction of the domain, at any earlier start of a
      refresh of it, whether or not that refresh succeeds, or at any earlier cache
      write by a refresh. */
  lemma SupersededNeverWrites(states: seq<State>, steps: seq<Step>, i: nat, j: nat, domain: string)
    requires Run(states, steps) && i < j < |steps| && Supersedes(states[i], steps[i], domain)
    requires steps[j].Settle? && steps[j].op in states[j].ops && states[j].ops[steps[j].op].domain == domain
    requires WritesCache(states[j], steps[j].op, steps[j].outcome)
    ensures steps[j].op !in states[i].ops
  {
    var op := steps[j].op;
    assert Next(states[j], states[j + 1], steps[j]);
    if op in states[i].ops {
      DomainFixed(states, steps, i, j, op);
      assert Next(states[i], states[i + 1], steps[i]);
      SupersededIsBarred(states[i], states[i + 1], steps[i], domain, op);
      BarredThrough(states, steps, i + 1, j, op);
      assert false;
    }
  }

  lemma {:induction false} DomainFixed(states: seq<State>, steps: seq<Step>, i: nat, j: nat, op: nat)
    requires Run(states, steps) && i <= j < |states| && op in states[i].ops
    ensures op in states[j].ops && states[j].ops[op].domain == states[i].ops[op].domain
    decreases j
  {
    if i < j {
      hide Next;
      DomainFixed(states, steps, i, j - 1, op);
      FixedStep(states[j - 1], states[j], steps[j - 1], op);
    }
  }

  // ---- Zero-TTL evidence and caller counts ----

  /** The callers waiting on an operation. */
  function Waiters(callers: map<nat, Caller>, op: nat): set<nat> {
    set c | c in callers && callers[c].Waiting? && callers[c].op == op
  }

  ghost predicate CallerOk(s: State, c: nat)
    requires c in s.callers
  {
    s.callers[c].Waiting? ==>
      s.callers[c].op in s.ops && (!s.callers[c].existing ==> s.ops[s.callers[c].op].starter == c)
  }

  /** Evidence rests on a usable TTL, or belongs to the caller that started the work. */
  ghost predicate OpOk(s: State, id: nat)
    requires id in s.ops
  {
    var op := s.ops[id];
    && op.callers == |Waiters(s.callers, id)|
    && (op.base.Some? ==> op.base.value.dnsTtl > 0)
    && (op.settled.Some? && op.settled.value.Good? ==>
          if op.kind.StatusCheck? then op.settled.value.evidence.dnsTtl > 0 else op.settled.value.evidence.acquiredBy == op.starter)
  }

  ghost predicate Inv(s: State) {
    && (forall d | d in s.cache :: s.cache[d].dnsTtl > 0)
    && (forall c | c in s.callers :: CallerOk(s, c))
    && (forall id | id in s.ops :: OpOk(s, id))
    && (forall d | d in s.delivered :: d.evidence.dnsTtl == 0 ==> d.evidence.acquiredBy == d.caller)
  }

  /** Who waits where changes only for the caller that moves. */
  lemma Moved(callers: map<nat, Caller>, caller: nat, next: Caller, id: nat)
    ensures Waiters(callers[caller := next], id) ==
            Waiters(callers, id) - {caller} + if next.Waiting? && next.op == id then {caller} else {}
    ensures caller in Waiters(callers, id) <==> caller in callers && callers[caller].Waiting? && callers[caller].op == id
  {
  }

  /** A caller that leaves is subtracted from the work it waited for, and only there. */
  lemma LeaveCounts(s: State, caller: nat, next: Caller, id: nat)
    requires caller in s.callers && s.callers[caller].Waiting? && s.callers[caller].op in s.ops && !next.Waiting?
    requires id in s.ops && s.ops[id].callers == |Waiters(s.callers, id)|
    ensures Leave(s, caller, next).ops[id].callers == |Waiters(Leave(s, caller, next).callers, id)|
  {
    hide Waiters;
    Moved(s.callers, caller, next, id);
  }

  lemma JoinCounts(s: State, s': State, caller: nat, kind: Kind, domain: string, id: nat)
    requires Next(s, s', Join(caller, kind, domain)) && id in s.ops && s.ops[id].callers == |Waiters(s.callers, id)|
    ensures s'.ops[id].callers == |Waiters(s'.callers, id)|
  {
    hide InFlight, KindFits, Waiters;
    Moved(s.callers, caller, s'.callers[caller], id);
  }

  lemma StartCounts(s: State, caller: nat, kind: Kind, domain: string, op: nat, id: nat)
    requires caller !in s.callers && op !in s.ops && (forall c | c in s.callers :: CallerOk(s, c))
    requires id in s.ops ==> s.ops[id].callers == |Waiters(s.callers, id)|
    requires id in s.ops || id == op
    ensures
      var s' := Started(s, caller, kind, domain, op);
      s'.ops.Keys == s.ops.Keys + {op} && s'.ops[id].callers == |Waiters(s'.callers, id)|
  {
    hide SetInFlight, WithoutOlder;
    if id == op {
      assert Waiters(s.callers, id) == {};
    }
    hide Waiters;
    Moved(s.callers, caller, Waiting(op, false), id);
  }

  lemma SettledCounts(s: State, op: nat, outcome: Outcome, now: int, id: nat)
    requires op in s.ops
    ensures
      var s' := Settled(s, op, outcome, now);
      s'.ops.Keys == s.ops.Keys && s'.callers == s.callers && (id in s.ops ==> s'.ops[id].callers == s.ops[id].callers)
  {
    hide WithoutOlder, CacheAfter, WritesCache;
  }

  /** A woken or cancelled caller leaves the work it waited for. */
  lemma LeaveStep(s: State, s': State, step: Step)
    requires Next(s, s', step) && (step.Wake? || step.Cancel?)
    ensures
      var caller := step.caller;
      && caller in s.callers && s.callers[caller].Waiting? && s.callers[caller].op in s.ops
      && caller in s'.callers && !s'.callers[caller].Waiting?
      && s'.ops == Leave(s, caller, s'.callers[caller]).ops
      && s'.callers == Leave(s, caller, s'.callers[caller]).callers
      && s'.ops.Keys == s.ops.Keys
  {
    hide InFlight, MustRedo;
  }

  /** The other steps change no count, and no caller that waits. */
  lemma QuietStep(s: State, s': State, step: Step, id: nat)
    requires Next(s, s', step) && !step.Start? && !step.Join? && !step.Wake? && !step.Cancel? && id in s'.ops
    ensures id in s.ops && s'.ops[id].callers == s.ops[id].callers
    ensures Waiters(s'.callers, id) == Waiters(s.callers, id)
  {
    hide InFlight, Unset, WithoutOlder, CacheAfter, Current, Waiters, Settled;
    match step
    case CachedHit(caller, _) => Moved(s.callers, caller, Done, id);
    case Settle(op, outcome, now) => SettledCounts(s, op, outcome, now, id);
    case AloneDone(caller, _) => Moved(s.callers, caller, Done, id);
    case _ =>
  }

  /** The count of every operation is the number of its waiting callers, after every step. */
  lemma WaitersStep(s: State, s': State, step: Step, id: nat)
    requires Inv(s) && Next(s, s', step) && id in s'.ops
    ensures s'.ops[id].callers == |Waiters(s'.callers, id)|
  {
    if id in s.ops {
      assert OpOk(s, id);
    }
    if step.Start? {
      StartOps(s, step.caller, step.kind, step.domain, step.op);
      hide Waiters, Started, KindFits, InFlight;
      StartCounts(s, step.caller, step.kind, step.domain, step.op, id);
    } else {
      hide Next, Waiters, Leave;
      if step.Join? {
        JoinOps(s, s', step.caller, step.kind, step.domain);
        JoinCounts(s, s', step.caller, step.kind, step.domain, id);
      } else if step.Wake? || step.Cancel? {
        LeaveStep(s, s', step);
        LeaveCounts(s, step.caller, s'.callers[step.caller], id);
      } else {
        QuietStep(s, s', step, id);
      }
    }
  }

  lemma JoinOps(s: State, s': State, caller: nat, kind: Kind, domain: string)
    requires Next(s, s', Join(caller, kind, domain))
    ensures s'.ops.Keys == s.ops.Keys
  {
    hide InFlight, KindFits;
  }

  lemma StartOps(s: State, caller: nat, kind: Kind, domain: string, op: nat)
    ensures Started(s, caller, kind, domain, op).ops.Keys == s.ops.Keys + {op}
  {
  }

  lemma CallersStep(s: State, s': State, step: Step, c: nat)
    requires Inv(s) && Next(s, s', step) && c in s'.callers
    ensures CallerOk(s', c)
  {
    hide InFlight, SetInFlight, Unset, WithoutOlder, CacheAfter, Current, MustRedo, KindFits, OpOk;
    if c in s.callers {
      assert CallerOk(s, c);
      if s.callers[c].Waiting? {
        FixedStep(s, s', step, s.callers[c].op);
      }
    }
  }

  lemma EvidenceStep(s: State, s': State, step: Step)
    requires Inv(s) && Next(s, s', step)
    ensures forall d | d in s'.cache :: s'.cache[d].dnsTtl > 0
    ensures forall d | d in s'.delivered :: d.evidence.dnsTtl == 0 ==> d.evidence.acquiredBy == d.caller
  {
    hide InFlight, SetInFlight, Unset, WithoutOlder, Current, KindFits;
    if step.Wake? {
      var caller := step.caller;
      assert CallerOk(s, caller);
      assert OpOk(s, s.callers[caller].op);
    }
  }

  lemma SettledStep(s: State, s': State, step: Step, id: nat)
    requires Inv(s) && Next(s, s', step) && id in s'.ops
    ensures
      var op := s'.ops[id];
      (op.base.Some? ==> op.base.value.dnsTtl > 0) &&
      (op.settled.Some? && op.settled.value.Good? ==>
        if op.kind.StatusCheck? then op.settled.value.evidence.dnsTtl > 0 else op.settled.value.evidence.acquiredBy == op.starter)
  {
    hide InFlight, SetInFlight, Unset, WithoutOlder, CacheAfter, Current, MustRedo, KindFits, Waiters, Leave, Settled;
    if id in s.ops {
      assert OpOk(s, id);
      FixedStep(s, s', step, id);
      hide Started;
    } else {
      OnlyStartAdds(s, s', step, id);
    }
  }

  lemma OnlyStartAdds(s: State, s': State, step: Step, id: nat)
    requires Next(s, s', step) && id in s'.ops && id !in s.ops
    ensures step.Start? && step.op == id
  {
    hide InFlight, SetInFlight, Unset, WithoutOlder, CacheAfter, Current, MustRedo, KindFits;
  }

  lemma InvStep(s: State, s': State, step: Step)
    requires Inv(s) && Next(s, s', step)
    ensures Inv(s')
  {
    hide Next;
    EvidenceStep(s, s', step);
    forall c | c in s'.callers ensures CallerOk(s', c) {
      CallersStep(s, s', step, c);
    }
    forall id | id in s'.ops ensures OpOk(s', id) {
      WaitersStep(s, s', step, id);
      SettledStep(s, s', step, id);
    }
  }

  lemma {:induction false} InvReached(states: seq<State>, steps: seq<Step>, i: nat)
    requires Run(states, steps) && i < |states|
    ensures Inv(states[i])
    decreases i
  {
    if i > 0 {
      hide Inv, Next;
      InvReached(states, steps, i - 1);
      InvStep(states[i - 1], states[i], steps[i - 1]);
    }
  }

  /** Over every interleaving, zero-TTL evidence is delivered only to the caller
      whose own work acquired it. */
  lemma ZeroTtlStaysPrivate(states: seq<State>, steps: seq<Step>, i: nat, d: Delivery)
    requires Run(states, steps) && i < |states| && d in states[i].delivered && d.evidence.dnsTtl == 0
    ensures d.evidence.acquiredBy == d.caller
  {
    InvReached(states, steps, i);
  }

  /** Over every interleaving, work is aborted only at a moment when no caller
      waits for it and it is not finished. */
  lemma AbortOnlyWhenAbandoned(states: seq<State>, steps: seq<Step>, i: nat, op: nat)
    requires Run(states, steps) && i < |steps| && op in states[i].ops && op in states[i + 1].ops
    requires !states[i].ops[op].aborted && states[i + 1].ops[op].aborted
    ensures Waiters(states[i + 1].callers, op) == {} && !states[i + 1].ops[op].finished
  {
    InvReached(states, steps, i + 1);
    assert OpOk(states[i + 1], op);
    AbortStep(states[i], states[i + 1], steps[i], op);
  }

  lemma AbortStep(s: State, s': State, step: Step, op: nat)
    requires Next(s, s', step) && op in s.ops && op in s'.ops && !s.ops[op].aborted && s'.ops[op].aborted
    ensures s'.ops[op].callers == 0 && !s'.ops[op].finished
  {
    hide InFlight, SetInFlight, Unset, WithoutOlder, CacheAfter, Current, MustRedo, KindFits;
  }

  // ---- What settled work leaves in the cache, and what callers get ----

  /** An operation that is still the one in flight puts its evidence into the cache
      unless it was aborted, and drops the domain when the evidence may not be kept
      or the identity is not active; any other operation leaves the cache alone. */
  lemma SettleExact(s: State, s': State, op: nat, outcome: Outcome, now: int)
    requires op in s.ops && Next(s, s', Settle(op, outcome, now))
    ensures
      var work := s.ops[op];
      var slots := match work.kind case Lookup => s.slots.lookups case StatusCheck => s.slots.statuses case Refresh => s.slots.refreshes;
      var current := work.domain in slots && slots[work.domain] == op;
      && (forall d | d != work.domain :: (d in s'.cache <==> d in s.cache) && (d in s.cache ==> s'.cache[d] == s.cache[d]))
      && (current && outcome == Bad(true) ==> work.domain !in s'.cache)
      && (current && outcome.Good? && !work.aborted ==>
            if outcome.evidence.dnsTtl > 0 && now < outcome.evidence.expiresAt
            then work.domain in s'.cache && s'.cache[work.domain] == outcome.evidence
            else work.domain !in s'.cache)
      && (!current || outcome == Bad(false) || (outcome.Good? && work.aborted) ==> s'.cache == s.cache)
  {
    hide SetInFlight, Unset, WithoutOlder;
  }

  /** A caller whose work has finished gets its evidence, unless it joined lookup or
      refresh work that turned out to have a zero TTL: then it does the work itself. */
  lemma WakeExact(s: State, s': State, caller: nat)
    requires Next(s, s', Wake(caller))
    ensures
      var call := s.callers[caller];
      var work := s.ops[call.op];
      var good := work.settled.Some? && work.settled.value.Good?;
      var redo := good && call.existing && work.kind != StatusCheck && work.settled.value.evidence.dnsTtl == 0;
      && caller in s'.callers && (s'.callers[caller].Alone? <==> redo)
      && s'.delivered == s.delivered + if good && !redo then [Delivery(caller, work.settled.value.evidence)] else []
  {
    hide InFlight;
  }

  /** The three in-flight maps after every step: starting work enters it and a
      refresh takes older work out, finishing, eviction and a refresh that writes
      take work out, and nothing else touches them. */
  lemma FlightExact(s: State, s': State, step: Step, kind: Kind, domain: string)
    requires Next(s, s', step)
    ensures
      var was := InFlight(s.slots, kind, domain);
      InFlight(s'.slots, kind, domain) ==
      match step
      case Start(_, k, d, op) =>
        if d != domain then was else if k == kind then Some(op) else if k == Refresh then None else was
      case Settle(op, outcome, _) =>
        var work := s.ops[op];
        if && work.domain == domain && work.kind == Refresh && kind != Refresh
           && outcome.Good? && !work.aborted && InFlight(s.slots, Refresh, domain) == Some(op)
        then None else was
      case Finish(op) => if s.ops[op].domain == domain && s.ops[op].kind == kind && was == Some(op) then None else was
      case Evict(d) => if d == domain then None else was
      case _ => was
  {
    hide InFlight, SetInFlight, Unset, CacheAfter, MustRedo, KindFits;
  }

  /** Outside a settling operation the cache only ever loses the domain that is evicted or expires. */
  lemma CacheExact(s: State, s': State, step: Step)
    requires Next(s, s', step) && !step.Settle?
    ensures s'.cache == match step
                        case Evict(d) => s.cache - {d}
                        case Expire(d) => s.cache - {d}
                        case _ => s.cache
  {
    hide InFlight, SetInFlight, Unset, MustRedo, KindFits;
  }

  /** Abandoned work is aborted: when the last waiting caller leaves unfinished work, and only then. */
  lemma AbandonedIsAborted(s: State, s': State, step: Step, op: nat)
    requires Inv(s) && Next(s, s', step) && op in s.ops
    ensures op in s'.ops
    ensures s'.ops[op].aborted <==>
            || s.ops[op].aborted
            || ((step.Wake? || step.Cancel?) && s.callers[step.caller].op == op
                && Waiters(s'.callers, op) == {} && !s.ops[op].finished)
  {
    FixedStep(s, s', step, op);
    WaitersStep(s, s', step, op);
    if step.Wake? || step.Cancel? {
      LeaveStep(s, s', step);
    }
    hide Waiters, InFlight, SetInFlight, Unset, WithoutOlder, CacheAfter, MustRedo, KindFits, Inv;
  }
}
