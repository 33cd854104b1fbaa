/** Consistency proofs: the index-shifting verifier of the log package (the
    algorithm of section 2.1.4.2 of RFC 9162) against the proofs of section
    2.1.2 of RFC 6962. */
module Consistency {
  import opened Common
  import opened Merkle
  import opened Inclusion

  // ---- The standard ----

  /** Section 2.1.2 of RFC 6962: SUBPROOF(m, D[n], known). */
  function SubProof(m: nat, hs: seq<Hash>, known: bool): seq<Hash>
    requires 0 < m <= |hs|
    decreases |hs|
  {
    if m == |hs| then (if known then [] else [Mth(hs)])
    else
      var k := SplitPoint(|hs|);
      if m <= k then SubProof(m, hs[..k], known) + [Mth(hs[k..])]
      else SubProof(m - k, hs[k..], false) + [Mth(hs[..k])]
  }

  /** PROOF(m, D[n]); nothing has to be shown for an empty or an equal old tree. */
  function ConsistencyProof(m: nat, entries: seq<Bytes>): seq<Hash>
    requires m <= |entries|
  {
    if m == 0 || m == |entries| then [] else SubProof(m, LeafHashes(entries), true)
  }

  // ---- The verifier ----

  /** The two heads recomputed so far. */
  datatype Heads = Heads(past: Hash, present: Hash)

  /** The main loop from indexes (fn, sn); None when the proof is too short or too long. */
  function Walk(fn: nat, sn: nat, heads: Heads, proof: seq<Hash>): Option<Heads>
    decreases |proof|, sn
  {
    if proof == [] then (if sn == 0 then Some(heads) else None)
    else if sn == 0 then None
    else if fn % 2 == 1 then
      Walk(fn / 2, sn / 2, Heads(Node(proof[0], heads.past), Node(proof[0], heads.present)), proof[1..])
    else if fn == sn then Walk(fn / 2, sn / 2, heads, proof)
    else Walk(fn / 2, sn / 2, Heads(heads.past, Node(heads.present, proof[0])), proof[1..])
  }

  /** The first loop, which shifts the trailing ones of the old index away, and the start of the walk. */
  function Begin(fn: nat, sn: nat, fromRoot: Hash, proof: seq<Hash>): Option<Heads>
    decreases fn
  {
    if fn % 2 == 1 then Begin(fn / 2, sn / 2, fromRoot, proof)
    else if fn == 0 then Walk(fn, sn, Heads(fromRoot, fromRoot), proof)
    else if proof == [] then None
    else Walk(fn, sn, Heads(proof[0], proof[0]), proof[1..])
  }

  /** The decision of `verifyC2spConsistencyProof`. */
  predicate Accepts(fromSize: int, toSize: int, fromRoot: Hash, toRoot: Hash, proof: seq<Hash>) {
    && Safe(fromSize) && Safe(toSize) && fromSize >= 0 && toSize >= 0
    && if fromSize == 0 then proof == [] && fromRoot == Empty && (toSize != 0 || fromRoot == toRoot)
       else if fromSize == toSize then proof == [] && fromRoot == toRoot
       else fromSize < toSize && Begin(fromSize - 1, toSize - 1, fromRoot, proof) == Some(Heads(fromRoot, toRoot))
  }

  method VerifyConsistencyProof(fromSize: int, toSize: int, fromRoot: Hash, toRoot: Hash, proof: seq<Hash>)
    returns (accepted: bool)
    ensures accepted <==> Accepts(fromSize, toSize, fromRoot, toRoot, proof)
  {
    if !Safe(fromSize) || !Safe(toSize) || fromSize < 0 || toSize < 0 { return false; }
    if fromSize == 0 { return |proof| == 0 && fromRoot == Empty && (toSize != 0 || fromRoot == toRoot); }
    if fromSize == toSize { return |proof| == 0 && fromRoot == toRoot; }
    if toSize < fromSize { return false; }
    hide Begin, Walk;
    var oldIndex, newIndex := fromSize - 1, toSize - 1;
    ghost var begun := Begin(oldIndex, newIndex, fromRoot, proof);
    BeginAt(oldIndex, newIndex, fromRoot, proof);
    while oldIndex % 2 == 1
      invariant 0 <= oldIndex <= newIndex
      invariant Begin(oldIndex, newIndex, fromRoot, proof) == begun
      decreases oldIndex
    {
      BeginAt(oldIndex, newIndex, fromRoot, proof);
      oldIndex, newIndex := oldIndex / 2, newIndex / 2;
    }
    BeginAt(oldIndex, newIndex, fromRoot, proof);
    var cursor := 0;
    var oldHash, newHash := fromRoot, fromRoot;
    if oldIndex != 0 {
      if |proof| == 0 { return false; }
      oldHash, newHash := proof[0], proof[0];
      cursor := 1;
    }
    assert oldIndex == 0 ==> proof[cursor..] == proof;
    var heads := FollowProof(oldIndex, newIndex, Heads(oldHash, newHash), proof, cursor);
    return heads == Some(Heads(fromRoot, toRoot));
  }

  /** The main loop: None when nodes are left over or missing at the end. */
  method FollowProof(fn: nat, sn: nat, start: Heads, proof: seq<Hash>, first: nat) returns (heads: Option<Heads>)
    requires fn <= sn && first <= |proof|
    ensures heads == Walk(fn, sn, start, proof[first..])
  {
    hide Walk;
    ghost var begun := Walk(fn, sn, start, proof[first..]);
    var oldIndex, newIndex, cursor := fn, sn, first;
    var oldHash, newHash := start.past, start.present;
    while cursor < |proof|
      invariant 0 <= oldIndex <= newIndex && 0 <= cursor <= |proof|
      invariant Walk(oldIndex, newIndex, Heads(oldHash, newHash), proof[cursor..]) == begun
    {
      ghost var before := Heads(oldHash, newHash);
      WalkAt(oldIndex, newIndex, before, proof, cursor);
      if newIndex == 0 { return None; }
      var node := proof[cursor];
      if oldIndex % 2 == 1 || oldIndex == newIndex {
        oldHash, newHash := Node(node, oldHash), Node(node, newHash);
        while oldIndex != 0 && oldIndex % 2 == 0
          invariant 0 < oldIndex <= newIndex
          invariant oldIndex % 2 == 1 || oldIndex == newIndex
          invariant Walk(oldIndex, newIndex, before, proof[cursor..]) == begun
          decreases oldIndex
        {
          WalkAt(oldIndex, newIndex, before, proof, cursor);
          oldIndex, newIndex := oldIndex / 2, newIndex / 2;
        }
        WalkAt(oldIndex, newIndex, before, proof, cursor);
      } else {
        newHash := Node(newHash, node);
      }
      cursor := cursor + 1;
      oldIndex, newIndex := oldIndex / 2, newIndex / 2;
    }
    WalkAt(oldIndex, newIndex, Heads(oldHash, newHash), proof, cursor);
    return if newIndex == 0 then Some(Heads(oldHash, newHash)) else None;
  }

  /** One step of the first loop. */
  lemma BeginAt(fn: nat, sn: nat, fromRoot: Hash, proof: seq<Hash>)
    ensures Begin(fn, sn, fromRoot, proof) ==
            if fn % 2 == 1 then Begin(fn / 2, sn / 2, fromRoot, proof)
            else if fn == 0 then Walk(fn, sn, Heads(fromRoot, fromRoot), proof)
            else if proof == [] then None
            else Walk(fn, sn, Heads(proof[0], proof[0]), proof[1..])
  {
    hide Walk;
  }

  /** One step of the main loop, by its position in the proof. */
  lemma WalkAt(fn: nat, sn: nat, heads: Heads, proof: seq<Hash>, cursor: nat)
    requires cursor <= |proof|
    ensures Walk(fn, sn, heads, proof[cursor..]) ==
            if cursor == |proof| then (if sn == 0 then Some(heads) else None)
            else if sn == 0 then None
            else if fn % 2 == 1 then
              Walk(fn / 2, sn / 2, Heads(Node(proof[cursor], heads.past), Node(proof[cursor], heads.present)), proof[cursor + 1..])
            else if fn == sn then Walk(fn / 2, sn / 2, heads, proof[cursor..])
            else Walk(fn / 2, sn / 2, Heads(heads.past, Node(heads.present, proof[cursor])), proof[cursor + 1..])
  {
    if cursor < |proof| {
      assert proof[cursor..][1..] == proof[cursor + 1..];
    }
  }

  // ---- The walk against the tree ----

  /** Replacing the node at position fn and everything after it, one level up. */
  lemma PairReplaced(fn: nat, hs: seq<Hash>, x: Hash)
    requires fn < |hs|
    ensures Pair(hs[..fn] + [x]) ==
            if fn % 2 == 1 then Pair(hs)[..fn / 2] + [Node(hs[fn - 1], x)] else Pair(hs)[..fn / 2] + [x]
  {
    var a := hs[..fn] + [x];
    var b := if fn % 2 == 1 then Pair(hs)[..fn / 2] + [Node(hs[fn - 1], x)] else Pair(hs)[..fn / 2] + [x];
    assert |Pair(a)| == fn / 2 + 1 == |b|;
    forall i | 0 <= i < |b| ensures Pair(a)[i] == b[i] {
      assert Pair(a)[i] == PairAt(a, i);
      if i < fn / 2 {
        assert Pair(hs)[i] == PairAt(hs, i);
      }
    }
  }

  /** The loop from node fn of a level reproduces the level's head exactly when it
      starts from that node with the node's audit path; it then also returns the
      head of the old tree, whose last node is the old hash it started from. */
  ghost predicate WalksTo(fn: nat, hs: seq<Hash>, heads: Heads, proof: seq<Hash>)
    requires fn < |hs|
  {
    var r := Walk(fn, |hs| - 1, heads, proof);
    && (r.Some? && r.value.present == Mth(hs) <==> heads.present == hs[fn] && proof == AuditPath(fn, hs))
    && (r.Some? && r.value.present == Mth(hs) ==> r.value.past == Mth(hs[..fn] + [heads.past]))
  }

  lemma {:induction false} WalkExact(fn: nat, hs: seq<Hash>, heads: Heads, proof: seq<Hash>)
    requires fn < |hs|
    ensures WalksTo(fn, hs, heads, proof)
    decreases |hs|
  {
    if |hs| == 1 {
      assert hs[..fn] + [heads.past] == [heads.past];
    } else {
      var up := Pair(hs);
      if fn % 2 == 1 {
        if proof != [] {
          WalkExact(fn / 2, up, Heads(Node(proof[0], heads.past), Node(proof[0], heads.present)), proof[1..]);
        }
        WalkOdd(fn, hs, heads, proof);
      } else if fn == |hs| - 1 {
        WalkExact(fn / 2, up, heads, proof);
        WalkPromoted(fn, hs, heads, proof);
      } else {
        if proof != [] {
          WalkExact(fn / 2, up, Heads(heads.past, Node(heads.present, proof[0])), proof[1..]);
        }
        WalkRight(fn, hs, heads, proof);
      }
    }
  }

  lemma {:induction false} WalkOdd(fn: nat, hs: seq<Hash>, heads: Heads, proof: seq<Hash>)
    requires fn < |hs| && |hs| > 1 && fn % 2 == 1
    requires proof != [] ==>
      WalksTo(fn / 2, Pair(hs), Heads(Node(proof[0], heads.past), Node(proof[0], heads.present)), proof[1..])
    ensures WalksTo(fn, hs, heads, proof)
  {
    hide Mth, AuditPath, Pair, SplitPoint;
    AuditPathPair(fn, hs);
    if proof != [] {
      FirstEqual(proof, [hs[fn - 1]], AuditPath(fn / 2, Pair(hs)));
      MthPair(hs);
      MthPair(hs[..fn] + [heads.past]);
      PairReplaced(fn, hs, heads.past);
      PairElement(hs, fn / 2);
    }
  }

  lemma {:induction false} WalkPromoted(fn: nat, hs: seq<Hash>, heads: Heads, proof: seq<Hash>)
    requires fn == |hs| - 1 && |hs| > 1 && fn % 2 == 0
    requires WalksTo(fn / 2, Pair(hs), heads, proof)
    ensures WalksTo(fn, hs, heads, proof)
  {
    hide Mth, AuditPath, Pair, SplitPoint;
    AuditPathPair(fn, hs);
    assert [] + AuditPath(fn / 2, Pair(hs)) == AuditPath(fn / 2, Pair(hs));
    MthPair(hs);
    MthPair(hs[..fn] + [heads.past]);
    PairReplaced(fn, hs, heads.past);
    PairElement(hs, fn / 2);
  }

  lemma {:induction false} WalkRight(fn: nat, hs: seq<Hash>, heads: Heads, proof: seq<Hash>)
    requires fn < |hs| - 1 && fn % 2 == 0
    requires proof != [] ==> WalksTo(fn / 2, Pair(hs), Heads(heads.past, Node(heads.present, proof[0])), proof[1..])
    ensures WalksTo(fn, hs, heads, proof)
  {
    hide Mth, AuditPath, Pair, SplitPoint;
    AuditPathPair(fn, hs);
    if proof != [] {
      FirstEqual(proof, [hs[fn + 1]], AuditPath(fn / 2, Pair(hs)));
      MthPair(hs);
      MthPair(hs[..fn] + [heads.past]);
      PairReplaced(fn, hs, heads.past);
      PairElement(hs, fn / 2);
    }
  }

  lemma FirstEqual<T>(a: seq<T>, first: seq<T>, rest: seq<T>)
    requires |a| > 0 && |first| <= 1
    ensures a == first + rest <==> if first == [] then a == rest else a[0] == first[0] && a[1..] == rest
  {
    if first != [] {
      assert a == [a[0]] + a[1..];
      assert (first + rest)[1..] == rest;
    } else {
      assert first + rest == rest;
    }
  }

  // ---- The proof of the standard, one level at a time ----

  lemma {:induction false} SubProofLeft(m: nat, hs: seq<Hash>, known: bool, k: nat)
    requires |hs| > 1 && k == SplitPoint(|hs|) && 0 < m <= k
    ensures SubProof(m, hs, known) == SubProof(m, hs[..k], known) + [Mth(hs[k..])]
  {
    hide Mth, SplitPoint;
  }

  lemma {:induction false} SubProofRight(m: nat, hs: seq<Hash>, known: bool, k: nat)
    requires |hs| > 1 && k == SplitPoint(|hs|) && k < m < |hs|
    ensures SubProof(m, hs, known) == SubProof(m - k, hs[k..], false) + [Mth(hs[..k])]
  {
    hide Mth, SplitPoint;
  }

  lemma {:induction false} SubProofWhole(hs: seq<Hash>, known: bool)
    requires |hs| > 0
    ensures SubProof(|hs|, hs, known) == if known then [] else [Mth(hs)]
  {
  }

  /** The split of a level and of the level above it. */
  lemma Halves(hs: seq<Hash>) returns (j: nat)
    requires |hs| > 2
    ensures 0 < j < |Pair(hs)| && 2 * j < |hs|
    ensures SplitPoint(|hs|) == 2 * j && SplitPoint(|Pair(hs)|) == j
    ensures Pair(hs[..2 * j]) == Pair(hs)[..j] && Pair(hs[2 * j..]) == Pair(hs)[j..]
  {
    hide Pair, SplitPoint;
    SplitPointHalf(|hs|);
    j := SplitPoint(|hs|) / 2;
    PairSplit(hs, 2 * j);
  }

  /** An even old size: the sub-proof is that of its half, one level up. */
  lemma {:induction false} SubProofEven(h: nat, hs: seq<Hash>, known: bool)
    requires 0 < h && 2 * h <= |hs|
    ensures h <= |Pair(hs)|
    ensures SubProof(2 * h, hs, known) == SubProof(h, Pair(hs), known)
    decreases |hs|
  {
    hide Mth, Pair, SplitPoint, SubProof;
    if 2 * h == |hs| {
      MthPair(hs);
      SubProofWhole(hs, known);
      SubProofWhole(Pair(hs), known);
    } else {
      var j := Halves(hs);
      if h <= j {
        SubProofEven(h, hs[..2 * j], known);
        EvenLeft(h, hs, known, j);
      } else {
        SubProofEven(h - j, hs[2 * j..], false);
        EvenRight(h, hs, known, j);
      }
    }
  }

  lemma EvenLeft(h: nat, hs: seq<Hash>, known: bool, j: nat)
    requires 0 < h <= j < |Pair(hs)| && 2 * j < |hs| && SplitPoint(|hs|) == 2 * j && SplitPoint(|Pair(hs)|) == j
    requires Pair(hs[..2 * j]) == Pair(hs)[..j] && Pair(hs[2 * j..]) == Pair(hs)[j..]
    requires SubProof(2 * h, hs[..2 * j], known) == SubProof(h, Pair(hs)[..j], known)
    ensures SubProof(2 * h, hs, known) == SubProof(h, Pair(hs), known)
  {
    hide Mth, Pair, SplitPoint, SubProof;
    MthPair(hs[2 * j..]);
    SubProofLeft(2 * h, hs, known, 2 * j);
    SubProofLeft(h, Pair(hs), known, j);
  }

  lemma EvenRight(h: nat, hs: seq<Hash>, known: bool, j: nat)
    requires 0 < j < h < |Pair(hs)| && 2 * h < |hs| && SplitPoint(|hs|) == 2 * j && SplitPoint(|Pair(hs)|) == j
    requires Pair(hs[..2 * j]) == Pair(hs)[..j] && Pair(hs[2 * j..]) == Pair(hs)[j..]
    requires SubProof(2 * (h - j), hs[2 * j..], false) == SubProof(h - j, Pair(hs)[j..], false)
    ensures SubProof(2 * h, hs, known) == SubProof(h, Pair(hs), known)
  {
    hide Mth, Pair, SplitPoint, SubProof;
    MthPair(hs[..2 * j]);
    SubProofRight(2 * h, hs, known, 2 * j);
    SubProofRight(h, Pair(hs), known, j);
  }

  /** The last old leaf, unless the old tree is that leaf and known. */
  function LastOld(m: nat, hs: seq<Hash>, known: bool): seq<Hash>
    requires 0 < m <= |hs|
  {
    if known && m == 1 then [] else [hs[m - 1]]
  }

  /** An odd old size starts from its last leaf and follows that leaf's audit path. */
  lemma {:induction false} SubProofOdd(m: nat, hs: seq<Hash>, known: bool)
    requires 0 < m < |hs| && m % 2 == 1
    ensures SubProof(m, hs, known) == LastOld(m, hs, known) + AuditPath(m - 1, hs)
    decreases |hs|
  {
    hide Mth, AuditPath, SubProof, SplitPoint, LastOld;
    var k := SplitPoint(|hs|);
    if m == k {
      SubProofFirst(hs[..k], known, m);
      OddLeft(m, hs, known, k);
    } else if m < k {
      SubProofOdd(m, hs[..k], known);
      OddLeft(m, hs, known, k);
    } else {
      SplitPointHalf(|hs|);
      OddOfEven(m, k);
      SubProofOdd(m - k, hs[k..], false);
      OddRight(m, hs, known, k);
    }
  }

  lemma OddOfEven(m: nat, k: nat)
    requires m % 2 == 1 && k % 2 == 0 && k < m
    ensures (m - k) % 2 == 1
  {
  }

  lemma OddLeft(m: nat, hs: seq<Hash>, known: bool, k: nat)
    requires 0 < m <= k < |hs| && k == SplitPoint(|hs|)
    requires SubProof(m, hs[..k], known) == LastOld(m, hs[..k], known) + AuditPath(m - 1, hs[..k])
    ensures SubProof(m, hs, known) == LastOld(m, hs, known) + AuditPath(m - 1, hs)
  {
    hide Mth, AuditPath, SubProof, SplitPoint;
    SubProofLeft(m, hs, known, k);
    AuditPathChild(m - 1, hs, k);
    Assoc(LastOld(m, hs, known), AuditPath(m - 1, hs[..k]), [Mth(hs[k..])]);
  }

  lemma OddRight(m: nat, hs: seq<Hash>, known: bool, k: nat)
    requires 0 < k < m < |hs| && k == SplitPoint(|hs|)
    requires SubProof(m - k, hs[k..], false) == LastOld(m - k, hs[k..], false) + AuditPath(m - k - 1, hs[k..])
    ensures SubProof(m, hs, known) == LastOld(m, hs, known) + AuditPath(m - 1, hs)
  {
    hide Mth, AuditPath, SubProof, SplitPoint;
    SubProofRight(m, hs, known, k);
    AuditPathChild(m - 1, hs, k);
    assert LastOld(m - k, hs[k..], false) == LastOld(m, hs, known);
    Assoc(LastOld(m, hs, known), AuditPath(m - k - 1, hs[k..]), [Mth(hs[..k])]);
  }

  /** An odd power of two is one. */
  lemma SubProofFirst(hs: seq<Hash>, known: bool, m: nat)
    requires m == |hs| && m % 2 == 1 && exists n: nat {:trigger SplitPoint(n)} :: n >= 2 && m == SplitPoint(n)
    ensures SubProof(m, hs, known) == LastOld(m, hs, known) + AuditPath(m - 1, hs)
  {
    var n: nat :| n >= 2 && m == SplitPoint(n);
    if n > 2 {
      SplitPointHalf(n);
    }
    assert hs == [hs[0]];
  }

  lemma {:induction false} BeginExact(m: nat, hs: seq<Hash>, fromRoot: Hash, proof: seq<Hash>)
    requires 0 < m < |hs|
    ensures Begin(m - 1, |hs| - 1, fromRoot, proof) == Some(Heads(fromRoot, Mth(hs))) <==>
            fromRoot == Mth(hs[..m]) && proof == SubProof(m, hs, true)
    decreases m
  {
    hide Mth, Pair, SubProof, Walk, SplitPoint;
    if m % 2 == 0 {
      BeginExact(m / 2, Pair(hs), fromRoot, proof);
      SubProofEven(m / 2, hs, true);
      PairSplit(hs, m);
      MthPair(hs);
      MthPair(hs[..m]);
      assert Begin(m - 1, |hs| - 1, fromRoot, proof) == Begin(m / 2 - 1, |Pair(hs)| - 1, fromRoot, proof);
    } else {
      BeginOdd(m, hs, fromRoot, proof);
    }
  }

  lemma {:induction false} BeginOdd(m: nat, hs: seq<Hash>, fromRoot: Hash, proof: seq<Hash>)
    requires 0 < m < |hs| && m % 2 == 1
    ensures Begin(m - 1, |hs| - 1, fromRoot, proof) == Some(Heads(fromRoot, Mth(hs))) <==>
            fromRoot == Mth(hs[..m]) && proof == SubProof(m, hs, true)
  {
    hide Mth, AuditPath, Walk, SubProof, SplitPoint;
    SubProofOdd(m, hs, true);
    if m == 1 {
      WalkExact(0, hs, Heads(fromRoot, fromRoot), proof);
      assert hs[..0] + [fromRoot] == [fromRoot];
      MthOne(hs[..1]);
      MthOne([fromRoot]);
      assert [] + AuditPath(0, hs) == AuditPath(0, hs);
    } else if proof != [] {
      WalkExact(m - 1, hs, Heads(proof[0], proof[0]), proof[1..]);
      FirstEqual(proof, [hs[m - 1]], AuditPath(m - 1, hs));
      assert hs[..m] == hs[..m - 1] + [hs[m - 1]];
    }
  }

  // ---- Results ----

  lemma LeafHashesPrefix(entries: seq<Bytes>, m: nat)
    requires m <= |entries|
    ensures LeafHashes(entries)[..m] == LeafHashes(entries[..m])
  {
  }

  /** Soundness and completeness at once: against the head of any list of entries
      the verifier accepts exactly the head of the prefix with the proof of the
      standard, for every old size, claimed root and list of proof nodes. */
  lemma ConsistencyExact(m: int, entries: seq<Bytes>, fromRoot: Hash, proof: seq<Hash>)
    requires Safe(|entries|)
    ensures Accepts(m, |entries|, fromRoot, Root(entries), proof) <==>
            0 <= m <= |entries| && fromRoot == Root(entries[..m]) && proof == ConsistencyProof(m, entries)
  {
    hide Mth, SubProof, Begin;
    if m == |entries| {
      assert entries[..m] == entries;
    } else if 0 < m < |entries| {
      BeginExact(m, LeafHashes(entries), fromRoot, proof);
      LeafHashesPrefix(entries, m);
    }
  }
}
