/** Witness quorums: nested threshold rules over timestamped cosignatures. */
module Quorum {
  import opened Common

  type Witness = string

  datatype Rule =
    | NoWitness
    | One(key: Witness)
    | Threshold(threshold: int, members: seq<Rule>)

  /** `normalizeQuorumRule` accepts the rule: every threshold lies within its members. */
  predicate Normal(rule: Rule) {
    rule.Threshold? ==> 1 <= rule.threshold <= |rule.members| && forall m | m in rule.members :: Normal(m)
  }

  /** The verified cosignatures of a checkpoint: witness to timestamp in seconds. */
  type Cosignatures = map<Witness, int>

  /** Timestamps with a minimum, where no timestamp at all counts as infinitely late. */
  function Min(ts: seq<int>): (m: int)
    requires ts != []
    ensures m in ts && forall t | t in ts :: m <= t
  {
    if |ts| == 1 then ts[0]
    else
      assert ts == [ts[0]] + ts[1..];
      var rest := Min(ts[1..]);
      if ts[0] <= rest then ts[0] else rest
  }

  /** Every timestamp is at least t. */
  predicate AtLeast(ts: seq<int>, t: int) {
    forall x | x in ts :: x >= t
  }

  /** `Math.min(...b) - Math.min(...a) <= 0`: a sorts before b or beside it. */
  predicate Before(a: seq<int>, b: seq<int>) {
    a == [] || (b != [] && Min(b) <= Min(a))
  }

  /** The stable descending sort by minimum. */
  function SortDescending(vs: seq<seq<int>>): (s: seq<seq<int>>)
    ensures |s| == |vs|
  {
    if vs == [] then [] else InsertDescending(vs[0], SortDescending(vs[1..]))
  }

  function InsertDescending(v: seq<int>, vs: seq<seq<int>>): (s: seq<seq<int>>)
    ensures |s| == |vs| + 1
  {
    if vs == [] || Before(v, vs[0]) then [v] + vs else [vs[0]] + InsertDescending(v, vs[1..])
  }

  function Flatten(vs: seq<seq<int>>): seq<int> {
    if vs == [] then [] else vs[0] + Flatten(vs[1..])
  }

  /** The satisfied members, in order. */
  function Satisfied(vs: seq<Option<seq<int>>>): seq<seq<int>> {
    if vs == [] then []
    else (if vs[0].Some? then [vs[0].value] else []) + Satisfied(vs[1..])
  }

  /** `evaluateQuorum`: the timestamps it picks, or None when the rule is not satisfied. */
  function Evaluate(rule: Rule, cosigned: Cosignatures, nowMs: int, skewMs: int): Option<seq<int>> {
    match rule
    case NoWitness => Some([])
    case One(key) =>
      if key in cosigned && cosigned[key] * 1000 <= nowMs + skewMs then Some([cosigned[key]]) else None
    case Threshold(threshold, members) =>
      var values := seq(|members|, i requires 0 <= i < |members| => Evaluate(members[i], cosigned, nowMs, skewMs));
      var satisfied := SortDescending(Satisfied(values));
      if |satisfied| < threshold || threshold < 0 then None else Some(Flatten(satisfied[..threshold]))
  }

  datatype PolicyResult = PolicyResult(accepted: seq<int>, witnessTimeMs: Option<int>)

  /** The witness part of `enforceCheckpointPolicy`; None when it throws. */
  function EnforceQuorum(rule: Rule, publicScope: bool, cosigned: Cosignatures, nowMs: int, skewMs: int): Option<PolicyResult> {
    if publicScope && rule.NoWitness? then None
    else
      var accepted := Evaluate(rule, cosigned, nowMs, skewMs);
      if accepted.None? then None
      else Some(PolicyResult(accepted.value, if accepted.value == [] then None else Some(Min(accepted.value) * 1000)))
  }

  // ---- What a rule means ----

  function Count(bs: seq<bool>): (n: nat)
    ensures n <= |bs|
  {
    if bs == [] then 0 else (if bs[0] then 1 else 0) + Count(bs[1..])
  }

  /** The rule is satisfied by the given witnesses: at least `threshold` members of every group are. */
  ghost predicate SatisfiedBy(rule: Rule, witnesses: set<Witness>) {
    match rule
    case NoWitness => true
    case One(key) => key in witnesses
    case Threshold(threshold, members) =>
      Count(seq(|members|, i requires 0 <= i < |members| => SatisfiedBy(members[i], witnesses))) >= threshold
  }

  /** The witnesses with a verified, non-future timestamp of at least t. */
  ghost function WitnessesFrom(cosigned: Cosignatures, nowMs: int, skewMs: int, t: int): set<Witness> {
    set key | key in cosigned && cosigned[key] * 1000 <= nowMs + skewMs && cosigned[key] >= t
  }

  // ---- Sorting by minimum ----

  /** How many values have no timestamp before t. */
  function CountAtLeast(vs: seq<seq<int>>, t: int): (n: nat)
    ensures n <= |vs|
  {
    if vs == [] then 0 else (if AtLeast(vs[0], t) then 1 else 0) + CountAtLeast(vs[1..], t)
  }

  ghost predicate Descending(vs: seq<seq<int>>) {
    |vs| > 1 ==> Before(vs[0], vs[1]) && Descending(vs[1..])
  }

  lemma {:induction false} InsertCounts(v: seq<int>, vs: seq<seq<int>>, t: int)
    ensures CountAtLeast(InsertDescending(v, vs), t) == (if AtLeast(v, t) then 1 else 0) + CountAtLeast(vs, t)
  {
    var s := InsertDescending(v, vs);
    if vs == [] || Before(v, vs[0]) {
      assert s[1..] == vs;
    } else {
      InsertCounts(v, vs[1..], t);
      assert s[1..] == InsertDescending(v, vs[1..]);
    }
  }

  lemma {:induction false} InsertSorted(v: seq<int>, vs: seq<seq<int>>)
    requires Descending(vs)
    ensures Descending(InsertDescending(v, vs))
    ensures InsertDescending(v, vs)[0] == v || (vs != [] && InsertDescending(v, vs)[0] == vs[0])
  {
    var s := InsertDescending(v, vs);
    if vs == [] || Before(v, vs[0]) {
      assert s[1..] == vs;
    } else {
      InsertSorted(v, vs[1..]);
      assert s[1..] == InsertDescending(v, vs[1..]);
      assert Before(vs[0], v);
    }
  }

  lemma {:induction false} SortCounts(vs: seq<seq<int>>, t: int)
    ensures CountAtLeast(SortDescending(vs), t) == CountAtLeast(vs, t)
    ensures Descending(SortDescending(vs))
  {
    if vs != [] {
      SortCounts(vs[1..], t);
      InsertCounts(vs[0], SortDescending(vs[1..]), t);
      InsertSorted(vs[0], SortDescending(vs[1..]));
    }
  }

  lemma BeforeAtLeast(a: seq<int>, b: seq<int>, t: int)
    requires Before(a, b) && AtLeast(b, t)
    ensures AtLeast(a, t)
  {
  }

  lemma {:induction false} NoneLeft(vs: seq<seq<int>>, t: int)
    requires Descending(vs) && vs != [] && !AtLeast(vs[0], t)
    ensures CountAtLeast(vs, t) == 0
  {
    if |vs| > 1 {
      if AtLeast(vs[1], t) {
        BeforeAtLeast(vs[0], vs[1], t);
      }
      NoneLeft(vs[1..], t);
    }
  }

  /** The first k of a descending list all reach t exactly when k values of the list do. */
  lemma {:induction false} TopReaches(vs: seq<seq<int>>, k: nat, t: int)
    requires Descending(vs) && k <= |vs|
    ensures AtLeast(Flatten(vs[..k]), t) <==> CountAtLeast(vs, t) >= k
    decreases k
  {
    if k == 0 {
      assert vs[..0] == [];
    } else {
      assert vs[..k][1..] == vs[1..][..k - 1];
      FlattenReaches(vs[0], Flatten(vs[1..][..k - 1]), t);
      if AtLeast(vs[0], t) {
        TopReaches(vs[1..], k - 1, t);
      } else {
        NoneLeft(vs, t);
      }
    }
  }

  lemma FlattenReaches(a: seq<int>, b: seq<int>, t: int)
    ensures AtLeast(a + b, t) <==> AtLeast(a, t) && AtLeast(b, t)
  {
    if AtLeast(a + b, t) {
      forall x | x in a ensures x >= t { assert x in a + b; }
      forall x | x in b ensures x >= t { assert x in a + b; }
    }
  }

  lemma {:induction false} SatisfiedCounts(vs: seq<Option<seq<int>>>, bs: seq<bool>, t: int)
    requires |vs| == |bs|
    requires forall i :: 0 <= i < |vs| ==> (bs[i] <==> vs[i].Some? && AtLeast(vs[i].value, t))
    ensures CountAtLeast(Satisfied(vs), t) == Count(bs)
  {
    if vs != [] {
      SatisfiedCounts(vs[1..], bs[1..], t);
      if vs[0].Some? {
        assert Satisfied(vs)[0] == vs[0].value && Satisfied(vs)[1..] == Satisfied(vs[1..]);
      } else {
        assert Satisfied(vs) == Satisfied(vs[1..]);
      }
    }
  }

  // ---- Optimality ----

  /** For every t: the picked timestamps all reach t exactly when the rule is
      satisfied by the valid, non-future witnesses whose timestamps do. */
  lemma {:induction false} QuorumReaches(rule: Rule, cosigned: Cosignatures, nowMs: int, skewMs: int, t: int)
    requires Normal(rule)
    ensures
      var picked := Evaluate(rule, cosigned, nowMs, skewMs);
      picked.Some? && AtLeast(picked.value, t) <==> SatisfiedBy(rule, WitnessesFrom(cosigned, nowMs, skewMs, t))
    decreases rule
  {
    match rule
    case NoWitness =>
    case One(key) =>
      if key in cosigned {
        assert cosigned[key] in [cosigned[key]];
      }
    case Threshold(threshold, members) =>
      var witnesses := WitnessesFrom(cosigned, nowMs, skewMs, t);
      var values := seq(|members|, i requires 0 <= i < |members| => Evaluate(members[i], cosigned, nowMs, skewMs));
      var bs := seq(|members|, i requires 0 <= i < |members| => SatisfiedBy(members[i], witnesses));
      forall i | 0 <= i < |members| ensures bs[i] <==> values[i].Some? && AtLeast(values[i].value, t) {
        QuorumReaches(members[i], cosigned, nowMs, skewMs, t);
      }
      SatisfiedCounts(values, bs, t);
      var sorted := SortDescending(Satisfied(values));
      SortCounts(Satisfied(values), t);
      if threshold <= |sorted| {
        TopReaches(sorted, threshold, t);
      }
  }

  lemma {:induction false} CountMonotone(a: seq<bool>, b: seq<bool>)
    requires |a| == |b| && forall i :: 0 <= i < |a| && a[i] ==> b[i]
    ensures Count(a) <= Count(b)
  {
    if a != [] {
      CountMonotone(a[1..], b[1..]);
    }
  }

  lemma {:induction false} SatisfiedMonotone(rule: Rule, few: set<Witness>, many: set<Witness>)
    requires few <= many && SatisfiedBy(rule, few)
    ensures SatisfiedBy(rule, many)
    decreases rule
  {
    if rule.Threshold? {
      var n := |rule.members|;
      var a := seq(n, i requires 0 <= i < n => SatisfiedBy(rule.members[i], few));
      var b := seq(n, i requires 0 <= i < n => SatisfiedBy(rule.members[i], many));
      forall i | 0 <= i < n && a[i] ensures b[i] {
        SatisfiedMonotone(rule.members[i], few, many);
      }
      CountMonotone(a, b);
    }
  }

  /** The checkpoint's witness time is the best achievable: whatever satisfying
      set of valid, non-future witnesses one takes, the rule is accepted and no
      timestamp picked is earlier than the earliest of that set. Conversely the
      witnesses not earlier than the witness time do satisfy the rule. */
  lemma WitnessTimeOptimal(rule: Rule, cosigned: Cosignatures, nowMs: int, skewMs: int, witnesses: set<Witness>, earliest: int)
    requires Normal(rule) && SatisfiedBy(rule, witnesses)
    requires forall key | key in witnesses :: key in cosigned && cosigned[key] * 1000 <= nowMs + skewMs && cosigned[key] >= earliest
    ensures
      var result := EnforceQuorum(rule, false, cosigned, nowMs, skewMs);
      && result.Some?
      && (result.value.witnessTimeMs.Some? ==>
            && result.value.witnessTimeMs.value >= earliest * 1000
            && SatisfiedBy(rule, WitnessesFrom(cosigned, nowMs, skewMs, Min(result.value.accepted)))
            && result.value.witnessTimeMs.value == Min(result.value.accepted) * 1000)
  {
    SatisfiedMonotone(rule, witnesses, WitnessesFrom(cosigned, nowMs, skewMs, earliest));
    QuorumReaches(rule, cosigned, nowMs, skewMs, earliest);
    var picked := Evaluate(rule, cosigned, nowMs, skewMs);
    if picked.value != [] {
      QuorumReaches(rule, cosigned, nowMs, skewMs, Min(picked.value));
    }
  }

  /** A checkpoint is accepted without a witness time exactly when the rule asks for no witness at all. */
  lemma WitnessTimeAbsent(rule: Rule, cosigned: Cosignatures, nowMs: int, skewMs: int)
    requires Normal(rule)
    ensures
      var result := EnforceQuorum(rule, false, cosigned, nowMs, skewMs);
      result.Some? && result.value.witnessTimeMs.None? <==> SatisfiedBy(rule, {})
  {
    hide SatisfiedBy, Evaluate;
    var picked := Evaluate(rule, cosigned, nowMs, skewMs);
    var late := if nowMs + skewMs >= 0 then nowMs + skewMs + 1 else 0;
    var t := if picked.Some? && picked.value != [] && picked.value[0] >= late then picked.value[0] + 1 else late;
    QuorumReaches(rule, cosigned, nowMs, skewMs, t);
    assert WitnessesFrom(cosigned, nowMs, skewMs, t) == {};
  }

  /** And an unsatisfied rule is never accepted. */
  lemma QuorumRejects(rule: Rule, cosigned: Cosignatures, nowMs: int, skewMs: int, publicScope: bool)
    requires Normal(rule)
    ensures
      EnforceQuorum(rule, publicScope, cosigned, nowMs, skewMs).Some? <==>
      && !(publicScope && rule.NoWitness?)
      && exists witnesses: set<Witness> ::
           (forall key | key in witnesses :: key in cosigned && cosigned[key] * 1000 <= nowMs + skewMs) && SatisfiedBy(rule, witnesses)
  {
    var picked := Evaluate(rule, cosigned, nowMs, skewMs);
    if picked.Some? {
      var t := if picked.value == [] then 0 else Min(picked.value);
      QuorumReaches(rule, cosigned, nowMs, skewMs, t);
      assert SatisfiedBy(rule, WitnessesFrom(cosigned, nowMs, skewMs, t));
    }
    forall witnesses: set<Witness>
      | (forall key | key in witnesses :: key in cosigned && cosigned[key] * 1000 <= nowMs + skewMs) && SatisfiedBy(rule, witnesses)
      ensures picked.Some?
    {
      var t := LowerBound(witnesses, cosigned);
      SatisfiedMonotone(rule, witnesses, WitnessesFrom(cosigned, nowMs, skewMs, t));
      QuorumReaches(rule, cosigned, nowMs, skewMs, t);
    }
  }

  ghost function LowerBound(witnesses: set<Witness>, cosigned: Cosignatures): (t: int)
    requires forall key | key in witnesses :: key in cosigned
    ensures forall key | key in witnesses :: cosigned[key] >= t
  {
    if witnesses == {} then 0
    else
      var key :| key in witnesses;
      var rest := LowerBound(witnesses - {key}, cosigned);
      if cosigned[key] <= rest then cosigned[key] else rest
  }
}
