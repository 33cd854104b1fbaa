/** What the stream verifier filters, keeps and reports, over every input. */
module StreamTheorems {
  import opened Common
  import opened Entries
  import opened Lifecycle
  import opened Stream
  import opened LifecycleTheorems

  // ---- The invariant of the loop ----

  /** The keys in force after the first k selected events, by replay. */
  function ReplayedAuthority(items: seq<Item>, k: nat, o: Options): Option<Authority>
    requires k <= |items|
  {
    var r := ReplayAll(Events(items[..k]), o);
    if r.Ok? then Some(Authority(r.value.entityKey, r.value.operationalKey)) else None
  }

  /** The incremental variables agree with a replay of what was selected, after every event. */
  ghost predicate Consistent(s: Scan, o: Options) {
    && (s.authority.Some? <==> s.selected != [])
    && (s.selected != [] ==> s.authority == ReplayedAuthority(s.selected, |s.selected|, o))
    && (forall k :: 0 <= k < |s.selected| ==> AppliedAt(s, k, o))
    && (forall id :: id in s.applied ==> exists k :: 0 <= k < |s.selected| && id == IdOf(s.selected[k].event.payload))
  }

  ghost predicate AppliedAt(s: Scan, k: nat, o: Options)
    requires k < |s.selected|
  {
    var p := s.selected[k].event.payload;
    && IdOf(p) in s.applied
    && s.applied[IdOf(p)].payload == p
    && Some(s.applied[IdOf(p)].authority) == ReplayedAuthority(s.selected, k + 1, o)
  }

  lemma PushConsistent(s: Scan, item: Item, authority: Authority, o: Options)
    requires Consistent(s, o) && IdOf(item.event.payload) !in s.applied
    requires ReplayAll(Events(s.selected + [item]), o).Ok?
    requires var r := ReplayAll(Events(s.selected + [item]), o).value;
             authority == Authority(r.entityKey, r.operationalKey)
    ensures Consistent(Push(s, item, authority), o)
  {
    hide ReplayAll;
    var s' := Push(s, item, authority);
    var n := |s.selected|;
    assert s'.selected[..n + 1] == s.selected + [item];
    forall k | 0 <= k < |s'.selected| ensures AppliedAt(s', k, o) {
      if k < n {
        assert AppliedAt(s, k, o);
        assert s'.selected[..k + 1] == s.selected[..k + 1];
      }
    }
    forall id | id in s'.applied
      ensures exists k :: 0 <= k < |s'.selected| && id == IdOf(s'.selected[k].event.payload)
    {
      if id == IdOf(item.event.payload) {
        assert s'.selected[n] == item;
      } else {
        var k :| 0 <= k < n && id == IdOf(s.selected[k].event.payload);
        assert s'.selected[k] == s.selected[k];
      }
    }
  }

  lemma EventsPush(items: seq<Item>, item: Item)
    ensures Events(items + [item]) == Events(items) + [item.event]
  {
  }

  lemma ContinueKeys(previous: Event, r: Replay, e: Event, o: Options)
    requires Continue(previous, r, e, o).Ok?
    ensures
      var r' := Continue(previous, r, e, o).value;
      Authority(r'.entityKey, r'.operationalKey) == AuthorityAfter(Authority(r.entityKey, r.operationalKey), e)
  {
  }

  /** An accepted continuation moves the cached keys as the replay moves its own. */
  lemma ContinueAuthority(s: Scan, item: Item, o: Options)
    requires Consistent(s, o) && s.selected != []
    requires ReplayAll(Events(s.selected + [item]), o).Ok?
    ensures var r := ReplayAll(Events(s.selected + [item]), o).value;
            AuthorityAfter(s.authority.value, item.event) == Authority(r.entityKey, r.operationalKey)
  {
    hide ReplayAll, Continue, AuthorityAfter, Genesis;
    EventsPush(s.selected, item);
    var es := Events(s.selected) + [item.event];
    var n := |s.selected|;
    StepAt(es, n, o);
    assert es[..n] == Events(s.selected) && es[..n + 1] == es;
    assert s.selected[..n] == s.selected;
    ContinueKeys(es[n - 1], ReplayAll(Events(s.selected), o).value, item.event, o);
  }

  /** A round either leaves the scan alone or appends its entry. */
  lemma RoundConsistent(s: Scan, entry: LogEntry, domain: string, o: Options)
    requires Consistent(s, o) && Round(s, entry, domain, o).Some?
    ensures
      var s' := Round(s, entry, domain, o).value;
      && Consistent(s', o)
      && (s' == s || (entry.bytes.content.Envelope? && Addressed(entry.bytes, domain, o) && Decodes(entry.bytes.content.event, o)
                      && s'.selected == s.selected + [Item(entry.index, entry.bytes.content.event)]
                      && s.applied.Keys <= s'.applied.Keys))
  {
    hide ReplayAll, Decodes, AllRolesVerify, Consistent;
    var s' := Round(s, entry, domain, o).value;
    if s' != s {
      assert Addressed(entry.bytes, domain, o);
      var e := entry.bytes.content.event;
      var item := Item(entry.index, e);
      ConsistentStart(s, o);
      if s.selected == [] {
        assert Events(s.selected + [item]) == [e];
        var r := ReplayAll([e], o).value;
        PushConsistent(s, item, Authority(r.entityKey, r.operationalKey), o);
      } else {
        ContinueAuthority(s, item, o);
        PushConsistent(s, item, AuthorityAfter(s.authority.value, e), o);
      }
    }
  }

  lemma ConsistentStart(s: Scan, o: Options)
    requires Consistent(s, o)
    ensures s.authority.Some? <==> s.selected != []
  {
  }

  lemma {:induction false} ScanConsistent(entries: seq<LogEntry>, domain: string, o: Options)
    requires ScanAll(entries, domain, o).Some?
    ensures Consistent(ScanAll(entries, domain, o).value, o)
  {
    hide Round;
    if entries != [] {
      hide Consistent;
      var last := |entries| - 1;
      ScanConsistent(entries[..last], domain, o);
      RoundConsistent(ScanAll(entries[..last], domain, o).value, entries[last], domain, o);
    }
  }

  // ---- Growth ----

  /** Later rounds only append, and only entries that come later in the list. */
  lemma {:induction false} ScanGrows(entries: seq<LogEntry>, i: nat, domain: string, o: Options)
    requires i <= |entries| && ScanAll(entries, domain, o).Some?
    ensures ScanAll(entries[..i], domain, o).Some?
    ensures
      var s, s' := ScanAll(entries[..i], domain, o).value, ScanAll(entries, domain, o).value;
      && |s.selected| <= |s'.selected| && s'.selected[..|s.selected|] == s.selected
      && s.applied.Keys <= s'.applied.Keys
      && forall k :: |s.selected| <= k < |s'.selected| ==> FromInput(s'.selected[k], entries[i..], domain, o)
    decreases |entries|
  {
    if i == |entries| {
      assert entries[..i] == entries;
    } else {
      hide Round, Decodes, Authorizes;
      var last := |entries| - 1;
      ScanGrows(entries[..last], i, domain, o);
      assert entries[..last][..i] == entries[..i];
      var before := ScanAll(entries[..last], domain, o).value;
      ScanConsistent(entries[..last], domain, o);
      RoundConsistent(before, entries[last], domain, o);
      var s, s' := ScanAll(entries[..i], domain, o).value, ScanAll(entries, domain, o).value;
      forall k | |s.selected| <= k < |s'.selected| ensures FromInput(s'.selected[k], entries[i..], domain, o) {
        if k < |before.selected| {
          assert FromInput(before.selected[k], entries[..last][i..], domain, o);
          FromLater(before.selected[k], entries[..last][i..], entries[i..], domain, o);
        } else {
          assert entries[i..][last - i] == entries[last];
        }
      }
    }
  }

  /** An accepted event is one of the given entries, at its own index, for the domain, and decodes. */
  ghost predicate FromInput(item: Item, entries: seq<LogEntry>, domain: string, o: Options) {
    exists i :: 0 <= i < |entries| &&
      entries[i].index == item.index && entries[i].bytes.content == Envelope(item.event) &&
      Addressed(entries[i].bytes, domain, o) && Decodes(item.event, o)
  }

  lemma FromLater(item: Item, few: seq<LogEntry>, many: seq<LogEntry>, domain: string, o: Options)
    requires FromInput(item, few, domain, o) && few <= many
    ensures FromInput(item, many, domain, o)
  {
    var i :| 0 <= i < |few| && few[i].index == item.index && few[i].bytes.content == Envelope(item.event) &&
             Addressed(few[i].bytes, domain, o) && Decodes(item.event, o);
    assert many[i] == few[i];
  }

  // ---- Order of arrival ----

  lemma {:induction false} InsertSize(e: LogEntry, es: seq<LogEntry>)
    requires Sorted(es)
    ensures TotalSize(Insert(e, es)) == e.bytes.size + TotalSize(es)
  {
    if es == [] || e.index <= es[0].index {
      assert Insert(e, es)[1..] == es;
    } else {
      InsertSize(e, es[1..]);
      assert Insert(e, es)[1..] == Insert(e, es[1..]);
    }
  }

  lemma {:induction false} SortSize(es: seq<LogEntry>)
    ensures TotalSize(SortByIndex(es)) == TotalSize(es)
  {
    if es != [] {
      SortSize(es[1..]);
      InsertSize(es[0], SortByIndex(es[1..]));
    }
  }

  /** The outcome does not depend on the order in which the entries arrive. */
  lemma StreamPermuted(a: seq<LogEntry>, b: seq<LogEntry>, domain: string, o: Options)
    requires multiset(a) == multiset(b) && DistinctIndexes(multiset(a))
    ensures VerifyStream(a, domain, o) == VerifyStream(b, domain, o)
  {
    hide ScanAll, ReplayAll;
    SortPermuted(a, b);
    SortSize(a);
    SortSize(b);
    assert |a| == |multiset(a)| == |multiset(b)| == |b|;
  }

  // ---- What is skipped ----

  /** A candidate before genesis that neither starts the lifecycle nor stops the scan. */
  predicate NotGenesis(e: Event, o: Options) {
    !Decodes(e, o) ||
    var r := ReplayAll([e], o);
    r.Err? && !(e.payload.body.Migration? && (o.verifyMigration.None? || r.error.MigrationFailed?))
  }

  /** The entries a scan leaves aside: unreadable or foreign ones, copies of an
      applied payload, failed starts, and what does not verify under the
      authority its predecessor left. */
  lemma SkippedExactly(s: Scan, entry: LogEntry, domain: string, o: Options)
    requires Consistent(s, o)
    ensures Round(s, entry, domain, o) == Some(s) <==>
      && !entry.bytes.content.TooDeep?
      && (|| !Addressed(entry.bytes, domain, o)
          || (exists k :: 0 <= k < |s.selected| && s.selected[k].event.payload == entry.bytes.content.event.payload)
          || (if s.selected == [] then NotGenesis(entry.bytes.content.event, o)
              else !Authenticated(s, entry.bytes.content.event, o)))
  {
    hide ReplayAll, Decodes, AllRolesVerify;
    if Addressed(entry.bytes, domain, o) {
      var p := entry.bytes.content.event.payload;
      forall k | 0 <= k < |s.selected| && s.selected[k].event.payload == p
        ensures IdOf(p) in s.applied && s.applied[IdOf(p)].payload == p
      {
        assert AppliedAt(s, k, o);
      }
      if IdOf(p) in s.applied {
        var k :| 0 <= k < |s.selected| && IdOf(p) == IdOf(s.selected[k].event.payload);
        assert s.selected[k].event.payload == p;
      }
      assert forall item: Item, a: Authority :: |Push(s, item, a).selected| == |s.selected| + 1;
    }
  }

  /** Every entry the predicate drops is one the scan leaves aside when it gets there. */
  ghost predicate DropsOnlySkipped(sorted: seq<LogEntry>, p: LogEntry -> bool, domain: string, o: Options) {
    forall i :: 0 <= i < |sorted| && !p(sorted[i]) ==>
      var s := ScanAll(sorted[..i], domain, o);
      s.Some? ==> Round(s.value, sorted[i], domain, o) == s
  }

  lemma {:induction false} ScanKeep(sorted: seq<LogEntry>, p: LogEntry -> bool, domain: string, o: Options)
    requires DropsOnlySkipped(sorted, p, domain, o)
    ensures ScanAll(Keep(sorted, p), domain, o) == ScanAll(sorted, domain, o)
    decreases |sorted|
  {
    hide Round;
    if sorted != [] {
      var last := |sorted| - 1;
      forall i | 0 <= i < last && !p(sorted[..last][i])
        ensures var s := ScanAll(sorted[..last][..i], domain, o);
                s.Some? ==> Round(s.value, sorted[..last][i], domain, o) == s
      {
        assert sorted[..last][..i] == sorted[..i];
      }
      ScanKeep(sorted[..last], p, domain, o);
      KeepLast(sorted, p);
      var kept := Keep(sorted[..last], p);
      if p(sorted[last]) {
        assert (kept + [sorted[last]])[..|kept|] == kept;
      } else {
        assert kept + [] == kept;
      }
    }
  }

  lemma {:induction false} KeepSize(es: seq<LogEntry>, p: LogEntry -> bool)
    ensures TotalSize(Keep(es, p)) <= TotalSize(es)
  {
    if es != [] {
      KeepSize(es[1..], p);
      if p(es[0]) {
        assert Keep(es, p)[1..] == Keep(es[1..], p);
      }
    }
  }

  /** Filtering is sound: leaving out any set of skipped entries changes nothing. */
  lemma StreamIgnoresSkipped(entries: seq<LogEntry>, p: LogEntry -> bool, domain: string, o: Options)
    requires WithinLimits(entries) && DropsOnlySkipped(SortByIndex(entries), p, domain, o)
    ensures VerifyStream(Keep(entries, p), domain, o) == VerifyStream(entries, domain, o)
  {
    hide ScanAll, ReplayAll, DropsOnlySkipped;
    KeepSize(entries, p);
    SortKeep(entries, p);
    ScanKeep(SortByIndex(entries), p, domain, o);
  }

  /** In particular entries of other domains, of other streams and without a
      readable authorization can be removed, all at once. */
  lemma StreamIgnoresForeign(entries: seq<LogEntry>, domain: string, o: Options)
    requires WithinLimits(entries)
    ensures
      var relevant := (e: LogEntry) => e.bytes.content.TooDeep? || Addressed(e.bytes, domain, o);
      VerifyStream(Keep(entries, relevant), domain, o) == VerifyStream(entries, domain, o)
  {
    hide ReplayAll, Decodes, AllRolesVerify, Authorizes, ScanAll;
    var relevant := (e: LogEntry) => e.bytes.content.TooDeep? || Addressed(e.bytes, domain, o);
    StreamIgnoresSkipped(entries, relevant, domain, o);
  }

  /** At its place in the scan, after genesis, the entry is for this domain and new,
      and its roles do not all verify under the authority it must answer to. */
  ghost predicate UnauthenticatedAt(sorted: seq<LogEntry>, i: nat, domain: string, o: Options) {
    && i < |sorted| && ScanAll(sorted[..i], domain, o).Some?
    && var s := ScanAll(sorted[..i], domain, o).value;
       && s.selected != [] && s.authority.Some? && Addressed(sorted[i].bytes, domain, o)
       && IdOf(sorted[i].bytes.content.event.payload) !in s.applied
       && !Authenticated(s, sorted[i].bytes.content.event, o)
  }

  ghost predicate Unauthenticated(entries: seq<LogEntry>, e: LogEntry, domain: string, o: Options) {
    exists i: nat :: UnauthenticatedAt(SortByIndex(entries), i, domain, o) && SortByIndex(entries)[i] == e
  }

  lemma CountedTwice<T>(s: seq<T>, i: nat, j: nat)
    requires i <= j < |s| && s[i] == s[j]
    ensures i == j || multiset(s)[s[i]] >= 2
  {
    if i < j {
      assert s == s[..j] + s[j..];
      assert s[..j][i] == s[j..][0] == s[i];
    }
  }

  /** All unauthenticated entries can be removed at once. */
  lemma StreamIgnoresUnauthenticated(entries: seq<LogEntry>, domain: string, o: Options)
    requires WithinLimits(entries) && DistinctIndexes(multiset(entries))
    ensures
      var kept := Keep(entries, (e: LogEntry) => !Unauthenticated(entries, e, domain, o));
      VerifyStream(kept, domain, o) == VerifyStream(entries, domain, o)
  {
    hide ScanAll, Round, SortByIndex;
    var p := (e: LogEntry) => !Unauthenticated(entries, e, domain, o);
    var sorted := SortByIndex(entries);
    SortKeeps(entries);
    forall i | 0 <= i < |sorted| && !p(sorted[i])
      ensures var s := ScanAll(sorted[..i], domain, o);
              s.Some? ==> Round(s.value, sorted[i], domain, o) == s
    {
      var j: nat :| UnauthenticatedAt(sorted, j, domain, o) && sorted[j] == sorted[i];
      assert sorted[i] in multiset(entries);
      CountedTwice(sorted, if i <= j then i else j, if i <= j then j else i);
      UnauthenticatedSkipped(sorted, i, domain, o);
    }
    StreamIgnoresSkipped(entries, p, domain, o);
  }

  lemma UnauthenticatedSkipped(sorted: seq<LogEntry>, i: nat, domain: string, o: Options)
    requires UnauthenticatedAt(sorted, i, domain, o)
    ensures
      var s := ScanAll(sorted[..i], domain, o);
      s.Some? && Round(s.value, sorted[i], domain, o) == s
  {
    hide ScanAll, Authenticated, Authorizes;
  }

  // ---- What is kept ----

  /** The entry carries one of the events, at its own index. */
  predicate Carries(e: LogEntry, items: seq<Item>) {
    e.bytes.content.Envelope? && Item(e.index, e.bytes.content.event) in items
  }

  lemma ReportedOrSkipped(sorted: seq<LogEntry>, i: nat, domain: string, o: Options)
    requires i < |sorted| && ScanAll(sorted, domain, o).Some?
    ensures
      var s := ScanAll(sorted[..i], domain, o);
      && s.Some?
      && (Round(s.value, sorted[i], domain, o) == s || Carries(sorted[i], ScanAll(sorted, domain, o).value.selected))
  {
    hide ScanAll, Round, Decodes, Authorizes, Consistent;
    ScanPrefix(sorted, i, domain, o);
    ScanGrows(sorted, i, domain, o);
    ScanGrows(sorted, i + 1, domain, o);
    ScanConsistent(sorted[..i], domain, o);
    var s, s' := ScanAll(sorted[..i], domain, o).value, ScanAll(sorted[..i + 1], domain, o).value;
    var items := ScanAll(sorted, domain, o).value.selected;
    RoundConsistent(s, sorted[i], domain, o);
    if s' != s {
      assert items[..|s'.selected|][|s.selected|] == s'.selected[|s.selected|];
    }
  }

  /** The entries that carry the reported events are enough: verifying them alone
      reports the same. */
  lemma ReportedSuffice(entries: seq<LogEntry>, domain: string, o: Options)
    requires VerifyStream(entries, domain, o).Some?
    ensures
      var items := VerifyStream(entries, domain, o).value;
      VerifyStream(Keep(entries, (e: LogEntry) => Carries(e, items)), domain, o) == Some(items)
  {
    hide ScanAll, Round, SortByIndex, ReplayAll;
    var items := VerifyStream(entries, domain, o).value;
    var p := (e: LogEntry) => Carries(e, items);
    var sorted := SortByIndex(entries);
    forall i | 0 <= i < |sorted| && !p(sorted[i])
      ensures var s := ScanAll(sorted[..i], domain, o);
              s.Some? ==> Round(s.value, sorted[i], domain, o) == s
    {
      ReportedOrSkipped(sorted, i, domain, o);
    }
    StreamIgnoresSkipped(entries, p, domain, o);
  }

  /** Nothing is invented: every reported event is an entry of the input. */
  lemma StreamSound(entries: seq<LogEntry>, domain: string, o: Options)
    requires VerifyStream(entries, domain, o).Some?
    ensures ReplayAll(Events(VerifyStream(entries, domain, o).value), o).Ok?
    ensures forall item | item in VerifyStream(entries, domain, o).value :: FromInput(item, entries, domain, o)
  {
    hide Round, ReplayAll, Decodes, Authorizes, FromInput;
    var sorted := SortByIndex(entries);
    ScanGrows(sorted, 0, domain, o);
    assert sorted[..0] == [] && sorted[0..] == sorted;
    var items := VerifyStream(entries, domain, o).value;
    forall item | item in items ensures FromInput(item, entries, domain, o) {
      var k :| 0 <= k < |items| && items[k] == item;
      SortKeeps(entries);
      FromPermuted(item, sorted, entries, domain, o);
    }
  }

  lemma FromPermuted(item: Item, a: seq<LogEntry>, b: seq<LogEntry>, domain: string, o: Options)
    requires multiset(a) == multiset(b) && FromInput(item, a, domain, o)
    ensures FromInput(item, b, domain, o)
  {
    hide Decodes, Authorizes;
    var i :| 0 <= i < |a| && a[i].index == item.index && a[i].bytes.content == Envelope(item.event) &&
             Addressed(a[i].bytes, domain, o) && Decodes(item.event, o);
    assert a[i] in multiset(b);
    var j :| 0 <= j < |b| && b[j] == a[i];
  }

  /** The i-th entry in index order comes after genesis, is for this domain and
      verifies in every role under the authority selected for it. */
  ghost predicate AuthenticatedAt(sorted: seq<LogEntry>, i: nat, domain: string, o: Options) {
    && i < |sorted| && Addressed(sorted[i].bytes, domain, o)
    && var s := ScanAll(sorted[..i], domain, o);
       s.Some? && s.value.authority.Some? && Authenticated(s.value, sorted[i].bytes.content.event, o)
  }

  /** Nothing authenticated is lost: every such entry is reported, by its signed payload. */
  lemma StreamComplete(entries: seq<LogEntry>, domain: string, o: Options, i: nat)
    requires VerifyStream(entries, domain, o).Some?
    requires AuthenticatedAt(SortByIndex(entries), i, domain, o)
    ensures exists item | item in VerifyStream(entries, domain, o).value ::
              item.event.payload == SortByIndex(entries)[i].bytes.content.event.payload
  {
    hide ReplayAll, Decodes, AllRolesVerify, Authorizes, Consistent;
    var sorted := SortByIndex(entries);
    ScanGrows(sorted, i + 1, domain, o);
    ScanPrefix(sorted, i, domain, o);
    var e := sorted[i].bytes.content.event;
    ScanConsistent(sorted, domain, o);
    assert IdOf(e.payload) in ScanAll(sorted[..i + 1], domain, o).value.applied;
    AppliedIsSelected(ScanAll(sorted, domain, o).value, e.payload, o);
  }

  lemma AppliedIsSelected(s: Scan, p: Payload, o: Options)
    requires Consistent(s, o) && IdOf(p) in s.applied
    ensures exists item | item in s.selected :: item.event.payload == p
  {
    var k :| 0 <= k < |s.selected| && IdOf(p) == IdOf(s.selected[k].event.payload);
    assert s.selected[k] in s.selected;
  }

  /** The keys cached by the loop are those of a replay, after every reported event. */
  lemma StreamAuthority(entries: seq<LogEntry>, domain: string, o: Options, k: nat)
    requires VerifyStream(entries, domain, o).Some? && k < |VerifyStream(entries, domain, o).value|
    ensures
      var s := ScanAll(SortByIndex(entries), domain, o).value;
      var replay := ReplayAll(Events(s.selected[..k + 1]), o);
      && IdOf(s.selected[k].event.payload) in s.applied
      && replay.Ok?
      && s.applied[IdOf(s.selected[k].event.payload)].authority == Authority(replay.value.entityKey, replay.value.operationalKey)
  {
    hide ReplayAll, Round;
    var s := ScanAll(SortByIndex(entries), domain, o).value;
    ScanConsistent(SortByIndex(entries), domain, o);
    assert AppliedAt(s, k, o);
  }

  // ---- Cutoffs and copies ----

  /** The reported events up to an index. */
  function ItemsUpTo(items: seq<Item>, cutoff: int): seq<Item> {
    if items == [] then []
    else if items[0].index <= cutoff then [items[0]] + ItemsUpTo(items[1..], cutoff)
    else ItemsUpTo(items[1..], cutoff)
  }

  lemma {:induction false} ItemsUpToSplit(items: seq<Item>, k: nat, cutoff: int)
    requires k <= |items|
    requires forall i :: 0 <= i < |items| ==> (items[i].index <= cutoff <==> i < k)
    ensures ItemsUpTo(items, cutoff) == items[..k]
  {
    if items != [] {
      assert items[0].index <= cutoff <==> 0 < k;
      forall i | 0 <= i < |items[1..]|
        ensures items[1..][i].index <= cutoff <==> i < (if k == 0 then 0 else k - 1)
      {
        assert items[1..][i] == items[i + 1];
      }
      ItemsUpToSplit(items[1..], if k == 0 then 0 else k - 1, cutoff);
    }
  }

  /** Scanning a prefix of the sorted entries selects the events of that prefix. */
  lemma CutSelection(sorted: seq<LogEntry>, cutoff: int, domain: string, o: Options)
    requires Sorted(sorted) && ScanAll(sorted, domain, o).Some?
    ensures ScanAll(sorted[..UpTo(sorted, cutoff)], domain, o).Some?
    ensures ScanAll(sorted[..UpTo(sorted, cutoff)], domain, o).value.selected
         == ItemsUpTo(ScanAll(sorted, domain, o).value.selected, cutoff)
  {
    hide Round, Decodes, Authorizes;
    var n := UpTo(sorted, cutoff);
    KeepUpTo(sorted, cutoff);
    ScanGrows(sorted, n, domain, o);
    var s, all := ScanAll(sorted[..n], domain, o).value, ScanAll(sorted, domain, o).value;
    ScanGrows(sorted[..n], 0, domain, o);
    assert sorted[..n][..0] == [] && sorted[..n][0..] == sorted[..n];
    forall k | 0 <= k < |all.selected| ensures all.selected[k].index <= cutoff <==> k < |s.selected| {
      if k < |s.selected| {
        assert FromInput(s.selected[k], sorted[..n], domain, o);
      } else {
        assert FromInput(all.selected[k], sorted[n..], domain, o);
      }
    }
    ItemsUpToSplit(all.selected, |s.selected|, cutoff);
  }

  /** A cutoff is a prefix: verifying only the entries up to an index that covers
      genesis is accepted and reports exactly the events up to that index. */
  lemma CutoffIsPrefix(entries: seq<LogEntry>, cutoff: int, domain: string, o: Options)
    requires VerifyStream(entries, domain, o).Some?
    requires VerifyStream(entries, domain, o).value[0].index <= cutoff
    ensures VerifyStream(Keep(entries, (e: LogEntry) => e.index <= cutoff), domain, o)
         == Some(ItemsUpTo(VerifyStream(entries, domain, o).value, cutoff))
  {
    hide ScanAll;
    var upTo := (e: LogEntry) => e.index <= cutoff;
    var sorted := SortByIndex(entries);
    KeepSize(entries, upTo);
    SortKeep(entries, upTo);
    KeepUpTo(sorted, cutoff);
    CutSelection(sorted, cutoff, domain, o);
    var n := UpTo(sorted, cutoff);
    ScanConsistent(sorted[..n], domain, o);
    var s := ScanAll(sorted[..n], domain, o).value;
    hide ReplayAll;
    assert s.selected[..|s.selected|] == s.selected;
  }

  /** The entry is a later copy of one of the events, whatever its signatures are. */
  ghost predicate LaterCopy(e: LogEntry, items: seq<Item>) {
    exists k :: 0 <= k < |items| && items[k].index < e.index &&
      e.bytes.content.Envelope? && e.bytes.content.event.payload == items[k].event.payload
  }

  /** Adding later copies of reported events changes nothing. */
  lemma LaterCopiesIgnored(entries: seq<LogEntry>, p: LogEntry -> bool, domain: string, o: Options)
    requires WithinLimits(entries)
    requires VerifyStream(Keep(entries, p), domain, o).Some?
    requires forall e | e in entries && !p(e) :: LaterCopy(e, VerifyStream(Keep(entries, p), domain, o).value)
    ensures VerifyStream(entries, domain, o) == VerifyStream(Keep(entries, p), domain, o)
  {
    hide ReplayAll, Round, LaterCopy;
    var sorted := SortByIndex(entries);
    SortKeep(entries, p);
    SortKeeps(entries);
    var items := VerifyStream(Keep(entries, p), domain, o).value;
    forall e | e in sorted && !p(e) ensures LaterCopy(e, items) {
      assert e in multiset(entries);
    }
    CopiesSkipped(sorted, |sorted|, p, items, domain, o);
    assert sorted[..|sorted|] == sorted;
    KeepSize(entries, p);
  }

  lemma {:induction false} CopiesSkipped(sorted: seq<LogEntry>, i: nat, p: LogEntry -> bool, items: seq<Item>, domain: string, o: Options)
    requires Sorted(sorted) && i <= |sorted|
    requires ScanAll(Keep(sorted, p), domain, o).Some? && ScanAll(Keep(sorted, p), domain, o).value.selected == items
    requires forall e | e in sorted && !p(e) :: LaterCopy(e, items)
    ensures ScanAll(sorted[..i], domain, o) == ScanAll(Keep(sorted[..i], p), domain, o)
    decreases i
  {
    hide Round, LaterCopy;
    if i > 0 {
      var last := i - 1;
      CopiesSkipped(sorted, last, p, items, domain, o);
      assert sorted[..i][..last] == sorted[..last];
      KeepLast(sorted[..i], p);
      var kept := Keep(sorted[..last], p);
      if p(sorted[last]) {
        assert (kept + [sorted[last]])[..|kept|] == kept;
      } else {
        assert kept + [] == kept;
        CopySkipped(sorted, last, p, items, domain, o);
      }
    }
  }

  lemma {:induction false} CopySkipped(sorted: seq<LogEntry>, i: nat, p: LogEntry -> bool, items: seq<Item>, domain: string, o: Options)
    requires Sorted(sorted) && i < |sorted| && LaterCopy(sorted[i], items)
    requires ScanAll(Keep(sorted, p), domain, o).Some? && ScanAll(Keep(sorted, p), domain, o).value.selected == items
    ensures ScanAll(Keep(sorted[..i], p), domain, o).Some?
    ensures var s := ScanAll(Keep(sorted[..i], p), domain, o).value; Round(s, sorted[i], domain, o) == Some(s)
  {
    hide Round, Decodes, Authorizes;
    var kept := Keep(sorted, p);
    var j := |Keep(sorted[..i], p)|;
    KeepParts(sorted, i, p);
    assert kept[..j] == Keep(sorted[..i], p) && kept[j..] == Keep(sorted[i..], p);
    ScanGrows(kept, j, domain, o);
    ScanConsistent(kept[..j], domain, o);
    var s := ScanAll(kept[..j], domain, o).value;
    var k :| 0 <= k < |items| && items[k].index < sorted[i].index &&
             sorted[i].bytes.content.Envelope? && sorted[i].bytes.content.event.payload == items[k].event.payload;
    if k >= |s.selected| {
      NotFromLater(sorted, i, p, items[k], domain, o);
    }
    assert s.selected[k] == items[k];
    hide ScanAll;
    SkippedExactly(s, sorted[i], domain, o);
  }

  lemma NotFromLater(sorted: seq<LogEntry>, i: nat, p: LogEntry -> bool, item: Item, domain: string, o: Options)
    requires Sorted(sorted) && i < |sorted| && FromInput(item, Keep(sorted[i..], p), domain, o)
    ensures item.index >= sorted[i].index
  {
    hide Addressed, Decodes;
    var later := Keep(sorted[i..], p);
    var m :| 0 <= m < |later| && later[m].index == item.index;
    KeepMember(sorted[i..], p, later[m]);
    var q :| 0 <= q < |sorted[i..]| && sorted[i..][q] == later[m];
    SortedPair(sorted, i, i + q);
  }

  // ---- Who signed what is reported, and what is reported in full ----

  /** Every reported event is for the domain and bound to the log, has exactly the
      signature slots its type demands, and the reported list is lawful. */
  lemma StreamLawful(entries: seq<LogEntry>, domain: string, o: Options)
    requires VerifyStream(entries, domain, o).Some?
    ensures Lawful(Events(VerifyStream(entries, domain, o).value), o)
    ensures forall item | item in VerifyStream(entries, domain, o).value ::
              && item.event.payload.domain == domain && item.event.payload.intact && !item.event.sigs.extra
              && (o.lr.Some? ==> item.event.payload.lr == o.lr.value)
              && forall role :: SlotOf(item.event.sigs, role).Signed? <==> role in Demanded(item.event.payload.body)
  {
    hide VerifyStream, ReplayAll, Lawful;
    StreamSound(entries, domain, o);
    var items := VerifyStream(entries, domain, o).value;
    LifecycleExact(Events(items), o);
    forall item | item in items
      ensures && item.event.payload.domain == domain && item.event.payload.intact && !item.event.sigs.extra
              && (o.lr.Some? ==> item.event.payload.lr == o.lr.value)
              && forall role :: SlotOf(item.event.sigs, role).Signed? <==> role in Demanded(item.event.payload.body)
    {
      assert FromInput(item, entries, domain, o);
      hide FromInput;
      SlotsDemanded(item.event, o);
    }
  }

  lemma SlotsDemanded(e: Event, o: Options)
    requires Decodes(e, o)
    ensures e.payload.intact && !e.sigs.extra && (o.lr.Some? ==> e.payload.lr == o.lr.value)
    ensures forall role :: SlotOf(e.sigs, role).Signed? <==> role in Demanded(e.payload.body)
  {
  }

  /** A lawful event that decodes verifies role by role under the keys in force before it. */
  lemma LawfulAuthenticates(es: seq<Event>, k: nat, o: Options)
    requires Lawful(es, o) && 0 < k < |es| && Decodes(es[k], o)
    ensures
      var keys := GenesisKeys(es[0], o).value;
      AllRolesVerify(es[k], keys.0, OperationalAt(es, k, keys.1), o)
  {
    var keys := GenesisKeys(es[0], o).value;
    hide OperationalAt;
    assert Rightful(es, 0, keys, o) && Rightful(es, k, keys, o);
    OperationalSupported(es, k, keys, o);
  }

  lemma {:induction false} OperationalSupported(es: seq<Event>, k: nat, keys: (Jwk, Jwk), o: Options)
    requires 0 < k <= |es| && forall i :: 0 <= i < |es| ==> Rightful(es, i, keys, o)
    ensures OperationalAt(es, k, keys.1).supported
  {
    assert Rightful(es, k - 1, keys, o);
    hide Chained, SignedBy;
    if k > 1 {
      OperationalSupported(es, k - 1, keys, o);
    }
  }

  /** The entries of a log that hold just the events of a lawful lifecycle. */
  ghost predicate Holds(sorted: seq<LogEntry>, es: seq<Event>, domain: string, o: Options) {
    && |sorted| == |es|
    && forall i :: 0 <= i < |es| ==>
         sorted[i].bytes.content == Envelope(es[i]) && es[i].payload.domain == domain && Decodes(es[i], o)
  }

  function ItemsOf(sorted: seq<LogEntry>, es: seq<Event>): (items: seq<Item>)
    requires |sorted| == |es|
    ensures |items| == |es| && forall i :: 0 <= i < |es| ==> items[i] == Item(sorted[i].index, es[i])
  {
    seq(|es|, i requires 0 <= i < |es| => Item(sorted[i].index, es[i]))
  }

  lemma {:induction false} HonestScanAll(sorted: seq<LogEntry>, es: seq<Event>, k: nat, domain: string, o: Options)
    requires Holds(sorted, es, domain, o) && Lawful(es, o) && k <= |es|
    ensures ScanAll(sorted[..k], domain, o).Some?
    ensures ScanAll(sorted[..k], domain, o).value.selected == ItemsOf(sorted, es)[..k]
    decreases k
  {
    hide Round, Lawful, Decodes;
    if k > 0 {
      HonestScanAll(sorted, es, k - 1, domain, o);
      ScanPrefix(sorted, k - 1, domain, o);
      HonestRound(sorted, es, k - 1, domain, o);
      assert ItemsOf(sorted, es)[..k] == ItemsOf(sorted, es)[..k - 1] + [ItemsOf(sorted, es)[k - 1]];
    }
  }

  lemma HonestRound(sorted: seq<LogEntry>, es: seq<Event>, k: nat, domain: string, o: Options)
    requires Holds(sorted, es, domain, o) && Lawful(es, o) && k < |es|
    requires ScanAll(sorted[..k], domain, o).Some?
    requires ScanAll(sorted[..k], domain, o).value.selected == ItemsOf(sorted, es)[..k]
    ensures
      var s := ScanAll(sorted[..k], domain, o).value;
      var s' := Round(s, sorted[k], domain, o);
      s'.Some? && s'.value.selected == s.selected + [Item(sorted[k].index, es[k])]
  {
    hide ScanAll, ReplayAll, AllRolesVerify, Lawful, Round, Decodes, Authorizes;
    var s, e := ScanAll(sorted[..k], domain, o).value, es[k];
    ScanConsistent(sorted[..k], domain, o);
    var item := Item(sorted[k].index, e);
    LifecycleExact(es, o);
    PrefixClosed(es, k + 1, o);
    assert Events(s.selected + [item]) == es[..k + 1];
    DecodedAuthorizes(e, o);
    NotApplied(s, es, k, o);
    if k > 0 {
      HonestAuthority(s, es, k, o);
      LawfulAuthenticates(es, k, o);
    }
    hide Consistent;
    RoundAppends(s, sorted[k], domain, o);
  }

  /** A new event of the domain that decodes, verifies under the authority it must
      answer to, and continues the replay is appended. */
  lemma RoundAppends(s: Scan, entry: LogEntry, domain: string, o: Options)
    requires Addressed(entry.bytes, domain, o) && Decodes(entry.bytes.content.event, o)
    requires IdOf(entry.bytes.content.event.payload) !in s.applied
    requires ReplayAll(Events(s.selected + [Item(entry.index, entry.bytes.content.event)]), o).Ok?
    requires if s.selected == [] then s.authority.None? else s.authority.Some? && Authenticated(s, entry.bytes.content.event, o)
    ensures
      var s' := Round(s, entry, domain, o);
      s'.Some? && s'.value.selected == s.selected + [Item(entry.index, entry.bytes.content.event)]
  {
    hide Decodes, AllRolesVerify, Authorizes, ReplayAll, AuthorityFor;
    var e := entry.bytes.content.event;
    if s.selected == [] {
      assert Events(s.selected + [Item(entry.index, e)]) == [e];
    }
  }

  lemma DecodedAuthorizes(e: Event, o: Options)
    requires Decodes(e, o)
    ensures Authorizes(e, o)
  {
  }

  /** Events of one lifecycle differ, since their sequence numbers do. */
  lemma NotApplied(s: Scan, es: seq<Event>, k: nat, o: Options)
    requires Consistent(s, o) && Lawful(es, o) && k < |es| && |s.selected| == k
    requires forall i :: 0 <= i < k ==> s.selected[i].event == es[i]
    ensures IdOf(es[k].payload) !in s.applied
  {
    hide AppliedAt, Lawful;
    forall i | 0 <= i < k ensures s.selected[i].event.payload != es[k].payload {
      LawfulSeq(es, i, o);
      LawfulSeq(es, k, o);
    }
  }

  lemma LawfulSeq(es: seq<Event>, k: nat, o: Options)
    requires Lawful(es, o) && k < |es|
    ensures es[k].payload.chain.seqNo == Some(k)
  {
    hide Rightful;
    RightfulSeq(es, k, GenesisKeys(es[0], o).value, o);
  }

  /** The keys the scan holds against the next event are the ones in force before it. */
  lemma HonestAuthority(s: Scan, es: seq<Event>, k: nat, o: Options)
    requires Consistent(s, o) && Lawful(es, o) && 0 < k < |es| && |s.selected| == k
    requires forall i :: 0 <= i < k ==> s.selected[i].event == es[i]
    ensures
      var keys := GenesisKeys(es[0], o).value;
      s.authority.Some? && AuthorityFor(s, es[k].payload) == Authority(keys.0, OperationalAt(es, k, keys.1))
  {
    var keys := GenesisKeys(es[0], o).value;
    assert Rightful(es, k, keys, o);
    hide LaterSigned, GenesisSigned, StateAt, ReplayAll, Rightful, OperationalAt;
    assert es[k].payload.chain.prevEventId == Some(IdOf(es[k - 1].payload)) by {
      ChainedTo(es, k, keys, o);
    }
    assert AppliedAt(s, k - 1, o);
    assert s.selected[..k] == s.selected && Events(s.selected) == es[..k];
    KeysAfter(es, k, o);
  }

  lemma ChainedTo(es: seq<Event>, k: nat, keys: (Jwk, Jwk), o: Options)
    requires 0 < k < |es| && Rightful(es, k, keys, o)
    ensures es[k].payload.chain.prevEventId == Some(IdOf(es[k - 1].payload))
  {
  }

  lemma KeysAfter(es: seq<Event>, k: nat, o: Options)
    requires Lawful(es, o) && 0 < k <= |es|
    ensures
      var keys, r := GenesisKeys(es[0], o).value, ReplayAll(es[..k], o);
      r.Ok? && r.value.entityKey == keys.0 && r.value.operationalKey == OperationalAt(es, k, keys.1)
  {
    hide ReplayFrom, Rightful, OperationalAt, StateAt;
    ReplayFromExact(es, k, o);
  }

  /** Completeness: a lawful lifecycle whose events decode is reported in full, in
      whatever order its entries arrive and whatever unreadable entries and entries
      of other domains or streams lie between them. */
  lemma HonestStream(entries: seq<LogEntry>, es: seq<Event>, domain: string, o: Options)
    requires WithinLimits(entries) && Lawful(es, o)
    requires
      var relevant := (e: LogEntry) => e.bytes.content.TooDeep? || Addressed(e.bytes, domain, o);
      Holds(Keep(SortByIndex(entries), relevant), es, domain, o)
    ensures
      var relevant := (e: LogEntry) => e.bytes.content.TooDeep? || Addressed(e.bytes, domain, o);
      VerifyStream(entries, domain, o) == Some(ItemsOf(Keep(SortByIndex(entries), relevant), es))
  {
    hide ScanAll, ReplayAll, Lawful, Decodes, Authorizes;
    var relevant := (e: LogEntry) => e.bytes.content.TooDeep? || Addressed(e.bytes, domain, o);
    StreamIgnoresForeign(entries, domain, o);
    KeepSize(entries, relevant);
    SortKeep(entries, relevant);
    var sorted := SortByIndex(Keep(entries, relevant));
    HonestScanAll(sorted, es, |es|, domain, o);
    assert sorted[..|es|] == sorted;
    var items := ItemsOf(sorted, es);
    assert items[..|es|] == items && Events(items) == es;
    LifecycleExact(es, o);
  }

  /** Which entries a scan looks at: envelopes bound to the log, for the domain, with
      a signature in the slot that authorizes their type. */
  lemma AddressedExact(entry: Entry, domain: string, o: Options)
    ensures Addressed(entry, domain, o) <==>
            && entry.content.Envelope?
            && var e := entry.content.event;
               && e.payload.domain == domain && (o.lr.Some? ==> e.payload.lr == o.lr.value)
               && SlotOf(e.sigs, if e.payload.body.KeyRotation? then PreviousRole else EntityRole).Signed?
  {
  }

  /** The authority an entry must answer to: the keys in force after the reported
      event it names as its predecessor, or else the keys in force now. */
  lemma AuthorityExact(s: Scan, p: Payload, o: Options)
    requires Consistent(s, o) && s.selected != []
    ensures
      var es := Events(s.selected);
      var keys := GenesisKeys(es[0], o);
      && keys.Some? && s.authority.Some?
      && (forall k :: 0 <= k < |es| && p.chain.prevEventId == Some(IdOf(es[k].payload)) ==>
            AuthorityFor(s, p) == Authority(keys.value.0, OperationalAt(es, k + 1, keys.value.1)))
      && ((forall k :: 0 <= k < |es| ==> p.chain.prevEventId != Some(IdOf(es[k].payload))) ==>
            AuthorityFor(s, p) == Authority(keys.value.0, OperationalAt(es, |es|, keys.value.1)))
  {
    hide ReplayAll, OperationalAt, Lawful;
    var es, n := Events(s.selected), |s.selected|;
    assert s.selected[..n] == s.selected;
    LifecycleExact(es, o);
    KeysAfter(es, n, o);
    assert es[..n] == es;
    LawfulKeys(es, o);
    forall k | 0 <= k < n && p.chain.prevEventId == Some(IdOf(es[k].payload))
      ensures AuthorityFor(s, p) == Authority(GenesisKeys(es[0], o).value.0, OperationalAt(es, k + 1, GenesisKeys(es[0], o).value.1))
    {
      assert AppliedAt(s, k, o);
      assert Events(s.selected[..k + 1]) == es[..k + 1];
      KeysAfter(es, k + 1, o);
    }
  }

  lemma LawfulKeys(es: seq<Event>, o: Options)
    requires Lawful(es, o)
    ensures GenesisKeys(es[0], o).Some?
  {
  }

  /** Too many entries, or too many bytes of them, are refused unread. */
  lemma StreamLimits(entries: seq<LogEntry>, domain: string, o: Options)
    requires |entries| > 1_000_000 || TotalSize(entries) > 256 * 1024 * 1024
    ensures VerifyStream(entries, domain, o).None?
  {
  }
}
