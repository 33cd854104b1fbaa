/** Inclusion proofs: the bottom-up loop of the log package against the audit
    paths of section 2.1.1 of RFC 6962. */
module Inclusion {
  import opened Common
  import opened Merkle

  // ---- The standard ----

  /** Section 2.1.1 of RFC 6962: PATH(i, D[n]), the sibling nearest the leaf first. */
  function AuditPath(i: nat, hs: seq<Hash>): (p: seq<Hash>)
    requires i < |hs|
    ensures |p| == PathLength(i, |hs|)
    decreases |hs|
  {
    if |hs| == 1 then []
    else
      var k := SplitPoint(|hs|);
      if i < k then AuditPath(i, hs[..k]) + [Mth(hs[k..])]
      else AuditPath(i - k, hs[k..]) + [Mth(hs[..k])]
  }

  /** The depth of leaf i in a tree of n leaves. */
  function PathLength(i: nat, n: nat): nat
    requires i < n
    decreases n
  {
    if n == 1 then 0
    else
      var k := SplitPoint(n);
      1 + if i < k then PathLength(i, k) else PathLength(i - k, n - k)
  }

  // ---- The loop ----

  /** Whether the loop puts the next sibling on the left at position i of n. */
  predicate SiblingOnLeft(i: nat, n: nat) {
    i % 2 == 1 || i >= n - 1
  }

  function Join(hash: Hash, sibling: Hash, left: bool): Hash {
    if left then Node(sibling, hash) else Node(hash, sibling)
  }

  /** The value the loop ends with when it starts from `hash` at position i of n. */
  function Climb(hash: Hash, i: nat, n: nat, proof: seq<Hash>): Hash
    decreases |proof|
  {
    if proof == [] then hash
    else Climb(Join(hash, proof[0], SiblingOnLeft(i, n)), i / 2, (n + 1) / 2, proof[1..])
  }

  predicate ValidPosition(index: int, treeSize: int) {
    Safe(index) && Safe(treeSize) && 0 <= index < treeSize
  }

  method InclusionRoot(leaf: Hash, index: int, treeSize: int, proof: seq<Hash>) returns (r: Option<Hash>)
    ensures r.Some? <==> Safe(index) && Safe(treeSize) && 0 <= index < treeSize
    ensures r.Some? ==> r.value == Climb(leaf, index, treeSize, proof)
  {
    if !Safe(index) || !Safe(treeSize) || index < 0 || treeSize <= index {
      return None;
    }
    var hash, i, n := leaf, index, treeSize;
    for cursor := 0 to |proof|
      invariant 0 <= i && 0 <= n
      invariant Climb(leaf, index, treeSize, proof) == Climb(hash, i, n, proof[cursor..])
    {
      var sibling := proof[cursor];
      assert proof[cursor..][0] == sibling && proof[cursor..][1..] == proof[cursor + 1..];
      if i % 2 == 1 {
        hash := Node(sibling, hash);
      } else if i < n - 1 {
        hash := Node(hash, sibling);
      } else {
        hash := Node(sibling, hash);
      }
      i := i / 2;
      n := (n + 1) / 2;
    }
    return Some(hash);
  }

  /** True when `verifyInclusion` returns true; an invalid position throws and accepts nothing. */
  predicate Accepts(entry: Bytes, index: int, treeSize: int, root: Hash, proof: seq<Hash>) {
    ValidPosition(index, treeSize) && Climb(Leaf(entry), index, treeSize, proof) == root
  }

  method VerifyInclusion(entry: Bytes, index: int, treeSize: int, root: Hash, proof: seq<Hash>) returns (r: Option<bool>)
    ensures r.Some? <==> Safe(index) && Safe(treeSize) && 0 <= index < treeSize
    ensures r == Some(true) <==> Accepts(entry, index, treeSize, root, proof)
  {
    var computed := InclusionRoot(Leaf(entry), index, treeSize, proof);
    r := if computed.Some? then Some(computed.value == root) else None;
  }

  // ---- Audit paths, one level at a time ----

  /** What the audit path of leaf i takes from the bottom level: nothing for a promoted last node. */
  function BottomSibling(i: nat, hs: seq<Hash>): seq<Hash>
    requires i < |hs|
  {
    if i % 2 == 1 then [hs[i - 1]] else if i + 1 < |hs| then [hs[i + 1]] else []
  }

  lemma BottomSiblingInChild(i: nat, hs: seq<Hash>, k: nat)
    requires i < |hs| && k <= |hs| && k % 2 == 0
    ensures BottomSibling(i, hs) == if i < k then BottomSibling(i, hs[..k]) else BottomSibling(i - k, hs[k..])
  {
    assert i >= k ==> (i - k) % 2 == i % 2;
  }

  lemma AuditPathOfTwo(i: nat, hs: seq<Hash>)
    requires i < |hs| == 2
    ensures AuditPath(i, hs) == BottomSibling(i, hs) && AuditPath(i / 2, Pair(hs)) == []
  {
    assert hs[..1] == [hs[0]] && hs[1..] == [hs[1]];
    assert AuditPath(0, [hs[0]]) == [] && AuditPath(0, [hs[1]]) == [];
  }

  lemma {:induction false} AuditPathChild(i: nat, hs: seq<Hash>, k: nat)
    requires |hs| > 1 && k == SplitPoint(|hs|) && i < |hs|
    ensures AuditPath(i, hs) ==
            if i < k then AuditPath(i, hs[..k]) + [Mth(hs[k..])] else AuditPath(i - k, hs[k..]) + [Mth(hs[..k])]
  {
    hide Mth, SplitPoint;
  }

  /** The top of the audit path of a leaf in the left subtree, on the level above. */
  lemma {:induction false} AuditPathTopLeft(i: nat, hs: seq<Hash>, k: nat)
    requires |hs| >= 3 && k == SplitPoint(|hs|) && i < k
    ensures AuditPath(i / 2, Pair(hs)) == AuditPath(i / 2, Pair(hs[..k])) + [Mth(hs[k..])]
  {
    hide Mth, Pair, SplitPoint, AuditPath;
    SplitPointHalf(|hs|);
    PairSplit(hs, k);
    MthPair(hs[k..]);
    AuditPathChild(i / 2, Pair(hs), k / 2);
  }

  lemma {:induction false} AuditPathTopRight(i: nat, hs: seq<Hash>, k: nat)
    requires |hs| >= 3 && k == SplitPoint(|hs|) && k <= i < |hs|
    ensures AuditPath(i / 2, Pair(hs)) == AuditPath((i - k) / 2, Pair(hs[k..])) + [Mth(hs[..k])]
  {
    hide Mth, Pair, SplitPoint, AuditPath;
    SplitPointHalf(|hs|);
    PairSplit(hs, k);
    MthPair(hs[..k]);
    AuditPathChild(i / 2, Pair(hs), k / 2);
    assert (i - k) / 2 == i / 2 - k / 2;
  }

  lemma {:induction false} AuditPathPair(i: nat, hs: seq<Hash>)
    requires i < |hs| && |hs| >= 2
    ensures AuditPath(i, hs) == BottomSibling(i, hs) + AuditPath(i / 2, Pair(hs))
    decreases |hs|, 0
  {
    hide Mth, Pair, SplitPoint, AuditPath, BottomSibling;
    if |hs| == 2 {
      AuditPathOfTwo(i, hs);
      assert AuditPath(i, hs) == BottomSibling(i, hs) + [];
    } else {
      var k := SplitPoint(|hs|);
      SplitPointHalf(|hs|);
      BottomSiblingInChild(i, hs, k);
      AuditPathChild(i, hs, k);
      if i < k {
        AuditPathTopLeft(i, hs, k);
        AuditPathPair(i, hs[..k]);
        Assoc(BottomSibling(i, hs), AuditPath(i / 2, Pair(hs[..k])), [Mth(hs[k..])]);
      } else {
        AuditPathTopRight(i, hs, k);
        AuditPathOneOrPair(i - k, hs[k..]);
        Assoc(BottomSibling(i, hs), AuditPath((i - k) / 2, Pair(hs[k..])), [Mth(hs[..k])]);
      }
    }
  }

  lemma {:induction false} AuditPathOneOrPair(i: nat, hs: seq<Hash>)
    requires i < |hs|
    ensures AuditPath(i, hs) == BottomSibling(i, hs) + AuditPath(i / 2, Pair(hs))
    decreases |hs|, 1
  {
    if |hs| == 1 {
      assert Pair(hs) == hs;
    } else {
      AuditPathPair(i, hs);
    }
  }

  /** On the right edge every further sibling joins on the left, so skipping a
      level without a sibling changes nothing. */
  lemma {:induction false} ClimbEdge(hash: Hash, n: nat, proof: seq<Hash>)
    requires n >= 1
    ensures Climb(hash, n - 1, n, proof) == Climb(hash, (n - 1) / 2, (n + 1) / 2, proof)
    decreases |proof|
  {
    if proof != [] {
      ClimbEdge(Node(proof[0], hash), (n + 1) / 2, proof[1..]);
      assert (n - 1) / 2 == (n + 1) / 2 - 1;
    }
  }

  /** One level of the loop against one level of the tree. */
  lemma ClimbLevel(x: Hash, i: nat, hs: seq<Hash>, rest: seq<Hash>, sibling: seq<Hash>)
    requires i < |hs| && |hs| >= 2 && |sibling| == |BottomSibling(i, hs)|
    ensures Climb(x, i, |hs|, sibling + rest)
         == Climb(if sibling == [] then x else Join(x, sibling[0], i % 2 == 1), i / 2, |Pair(hs)|, rest)
    ensures sibling == BottomSibling(i, hs) && x == hs[i] ==>
              (if sibling == [] then x else Join(x, sibling[0], i % 2 == 1)) == Pair(hs)[i / 2]
  {
    if sibling == BottomSibling(i, hs) && x == hs[i] {
      SiblingJoins(x, i, hs, sibling);
    }
    ClimbStep(x, i, hs, rest, sibling);
    hide Pair, Climb, Join;
  }

  lemma ClimbStep(x: Hash, i: nat, hs: seq<Hash>, rest: seq<Hash>, sibling: seq<Hash>)
    requires i < |hs| && |hs| >= 2 && |sibling| == |BottomSibling(i, hs)|
    ensures Climb(x, i, |hs|, sibling + rest)
         == Climb(if sibling == [] then x else Join(x, sibling[0], i % 2 == 1), i / 2, |Pair(hs)|, rest)
  {
    hide Pair;
    if sibling == [] {
      ClimbEdge(x, |hs|, rest);
      assert sibling + rest == rest;
    } else {
      assert (sibling + rest)[0] == sibling[0] && (sibling + rest)[1..] == rest;
    }
  }

  lemma SiblingJoins(x: Hash, i: nat, hs: seq<Hash>, sibling: seq<Hash>)
    requires i < |hs| && |hs| >= 2 && sibling == BottomSibling(i, hs) && x == hs[i]
    ensures (if sibling == [] then x else Join(x, sibling[0], i % 2 == 1)) == Pair(hs)[i / 2]
  {
    PairElement(hs, i / 2);
    hide Pair;
  }

  /** Completeness: the audit path of a leaf recomputes the tree head. */
  lemma {:induction false} ClimbAuditPath(i: nat, hs: seq<Hash>)
    requires i < |hs|
    ensures Climb(hs[i], i, |hs|, AuditPath(i, hs)) == Mth(hs)
    decreases |hs|
  {
    if |hs| > 1 {
      AuditPathPair(i, hs);
      ClimbLevel(hs[i], i, hs, AuditPath(i / 2, Pair(hs)), BottomSibling(i, hs));
      ClimbAuditPath(i / 2, Pair(hs));
      MthPair(hs);
    }
  }

  /** Soundness at the right length: only the leaf itself, by its own audit path, climbs to the head. */
  lemma {:induction false} ClimbSound(x: Hash, i: nat, hs: seq<Hash>, proof: seq<Hash>)
    requires i < |hs| && |proof| == PathLength(i, |hs|)
    requires Climb(x, i, |hs|, proof) == Mth(hs)
    ensures x == hs[i] && proof == AuditPath(i, hs)
    decreases |hs|
  {
    if |hs| > 1 {
      AuditPathPair(i, hs);
      var up, own := Pair(hs), BottomSibling(i, hs);
      assert |AuditPath(i, hs)| == |own| + |AuditPath(i / 2, up)|;
      var sibling, rest := proof[..|own|], proof[|own|..];
      assert proof == sibling + rest;
      ClimbLevel(x, i, hs, rest, sibling);
      MthPair(hs);
      var y := if sibling == [] then x else Join(x, sibling[0], i % 2 == 1);
      ClimbSound(y, i / 2, up, rest);
      JoinedLevel(x, i, hs, sibling);
    }
  }

  lemma JoinedLevel(x: Hash, i: nat, hs: seq<Hash>, sibling: seq<Hash>)
    requires i < |hs| && |hs| >= 2 && |sibling| == |BottomSibling(i, hs)|
    requires (if sibling == [] then x else Join(x, sibling[0], i % 2 == 1)) == Pair(hs)[i / 2]
    ensures x == hs[i] && sibling == BottomSibling(i, hs)
  {
    assert Pair(hs)[i / 2] == PairAt(hs, i / 2);
  }

  // ---- Paths of any length ----

  /** The sides on which the first `length` siblings join, from the leaf up. */
  function Sides(i: nat, n: nat, length: nat): (s: seq<bool>)
    ensures |s| == length
    decreases length
  {
    if length == 0 then [] else [SiblingOnLeft(i, n)] + Sides(i / 2, (n + 1) / 2, length - 1)
  }

  /** The leaf of a tree of n leaves that lies at the end of a descent whose last
      step is `sides[0]`; None when the descent stops short or runs past a leaf. */
  function Descend(n: nat, sides: seq<bool>): (r: Option<nat>)
    requires n >= 1
    ensures r.Some? ==> r.value < n
    decreases n
  {
    if n == 1 then (if sides == [] then Some(0) else None)
    else if sides == [] then None
    else
      var k, top, below := SplitPoint(n), sides[|sides| - 1], sides[..|sides| - 1];
      if top then
        var r := Descend(n - k, below);
        if r.Some? then Some(k + r.value) else None
      else Descend(k, below)
  }

  /** The leaf a path of the given length for (i, n) really speaks about. */
  function Reached(i: nat, n: nat, length: nat): (r: Option<nat>)
    requires i < n
    ensures r.Some? ==> r.value < n
  {
    Descend(n, Sides(i, n, length))
  }

  function ClimbSides(x: Hash, sides: seq<bool>, proof: seq<Hash>): Hash
    requires |sides| == |proof|
  {
    if proof == [] then x
    else
      var last := |proof| - 1;
      Join(ClimbSides(x, sides[..last], proof[..last]), proof[last], sides[last])
  }

  lemma {:induction false} ClimbSidesFirst(x: Hash, sides: seq<bool>, proof: seq<Hash>)
    requires |sides| == |proof| > 0
    ensures ClimbSides(x, sides, proof) == ClimbSides(Join(x, proof[0], sides[0]), sides[1..], proof[1..])
    decreases |proof|
  {
    var last := |proof| - 1;
    if last > 0 {
      ClimbSidesFirst(x, sides[..last], proof[..last]);
      assert sides[..last][1..] == sides[1..][..last - 1];
      assert proof[..last][1..] == proof[1..][..last - 1];
    }
  }

  lemma {:induction false} ClimbIsClimbSides(x: Hash, i: nat, n: nat, proof: seq<Hash>)
    ensures Climb(x, i, n, proof) == ClimbSides(x, Sides(i, n, |proof|), proof)
    decreases |proof|
  {
    if proof != [] {
      ClimbIsClimbSides(Join(x, proof[0], SiblingOnLeft(i, n)), i / 2, (n + 1) / 2, proof[1..]);
      ClimbSidesFirst(x, Sides(i, n, |proof|), proof);
      assert Sides(i, n, |proof|)[1..] == Sides(i / 2, (n + 1) / 2, |proof| - 1);
    }
  }

  lemma LastEqual<T>(a: seq<T>, b: seq<T>, x: T, y: T)
    ensures a + [x] == b + [y] <==> a == b && x == y
  {
    if a + [x] == b + [y] {
      assert |a| == |b|;
      assert a == (a + [x])[..|a|] == (b + [y])[..|b|] == b;
      assert (a + [x])[|a|] == (b + [y])[|b|];
    }
  }

  lemma {:induction false} StepLeft(sides: seq<bool>, hs: seq<Hash>, k: nat)
    requires |hs| > 1 && |sides| > 0 && !sides[|sides| - 1] && k == SplitPoint(|hs|)
    ensures Descend(|hs|, sides) == Descend(k, sides[..|sides| - 1])
    ensures Descend(|hs|, sides).Some? ==>
              AuditPath(Descend(|hs|, sides).value, hs) == AuditPath(Descend(|hs|, sides).value, hs[..k]) + [Mth(hs[k..])]
  {
    hide Mth, SplitPoint;
  }

  lemma {:induction false} StepRight(sides: seq<bool>, hs: seq<Hash>, k: nat)
    requires |hs| > 1 && |sides| > 0 && sides[|sides| - 1] && k == SplitPoint(|hs|)
    ensures
      var outer, inner := Descend(|hs|, sides), Descend(|hs| - k, sides[..|sides| - 1]);
      outer == (if inner.Some? then Some(k + inner.value) else None) &&
      (inner.Some? ==> AuditPath(outer.value, hs) == AuditPath(inner.value, hs[k..]) + [Mth(hs[..k])])
  {
    hide Mth, SplitPoint;
  }

  lemma {:induction false} ClimbSidesExact(x: Hash, sides: seq<bool>, proof: seq<Hash>, hs: seq<Hash>)
    requires |sides| == |proof| && |hs| > 0 && AllLeaves(hs) && x.Leaf?
    ensures ClimbSides(x, sides, proof) == Mth(hs) <==>
            Descend(|hs|, sides).Some? &&
            x == hs[Descend(|hs|, sides).value] &&
            proof == AuditPath(Descend(|hs|, sides).value, hs)
    decreases |hs|
  {
    if |hs| == 1 {
      assert proof != [] ==> ClimbSides(x, sides, proof).Node?;
    } else if proof == [] {
      MthShape(hs);
    } else {
      ClimbSidesStep(x, sides, proof, hs);
    }
  }

  lemma {:induction false} ClimbSidesStep(x: Hash, sides: seq<bool>, proof: seq<Hash>, hs: seq<Hash>)
    requires |sides| == |proof| > 0 && |hs| > 1 && AllLeaves(hs) && x.Leaf?
    ensures ClimbSides(x, sides, proof) == Mth(hs) <==>
            Descend(|hs|, sides).Some? &&
            x == hs[Descend(|hs|, sides).value] &&
            proof == AuditPath(Descend(|hs|, sides).value, hs)
    decreases |hs|, 0
  {
    hide SplitPoint, AuditPath, Descend;
    var k, last := SplitPoint(|hs|), |proof| - 1;
    var below, rest := sides[..last], proof[..last];
    assert Mth(hs) == Node(Mth(hs[..k]), Mth(hs[k..]));
    assert ClimbSides(x, sides, proof) == Join(ClimbSides(x, below, rest), proof[last], sides[last]);
    assert proof == rest + [proof[last]];
    hide Mth, ClimbSides;
    if sides[last] {
      StepRight(sides, hs, k);
      ClimbSidesExact(x, below, rest, hs[k..]);
      var inner := Descend(|hs| - k, below);
      if inner.Some? {
        LastEqual(rest, AuditPath(inner.value, hs[k..]), proof[last], Mth(hs[..k]));
      }
    } else {
      StepLeft(sides, hs, k);
      ClimbSidesExact(x, below, rest, hs[..k]);
      var inner := Descend(k, below);
      if inner.Some? {
        LastEqual(rest, AuditPath(inner.value, hs[..k]), proof[last], Mth(hs[k..]));
      }
    }
  }

  /** What the code accepts, for every path of every length: exactly the audit
      path of the leaf that (index, n, length) reaches. */
  lemma InclusionExact(entry: Bytes, index: nat, entries: seq<Bytes>, proof: seq<Hash>)
    requires ValidPosition(index, |entries|)
    ensures
      var reached := Reached(index, |entries|, |proof|);
      Accepts(entry, index, |entries|, Root(entries), proof) <==>
      reached.Some? && entry == entries[reached.value] &&
      proof == AuditPath(reached.value, LeafHashes(entries))
  {
    var hs := LeafHashes(entries);
    ClimbIsClimbSides(Leaf(entry), index, |entries|, proof);
    ClimbSidesExact(Leaf(entry), Sides(index, |entries|, |proof|), proof, hs);
  }

  /** An accepted path of any length proves the entry is in the log. */
  lemma InclusionMembership(entry: Bytes, index: nat, entries: seq<Bytes>, proof: seq<Hash>)
    requires Accepts(entry, index, |entries|, Root(entries), proof)
    ensures entry in entries
  {
    InclusionExact(entry, index, entries, proof);
  }

  /** With a path of the length the position calls for, acceptance is exactly
      "the entry at that index, by its audit path". */
  lemma InclusionAtIndex(entry: Bytes, index: nat, entries: seq<Bytes>, proof: seq<Hash>)
    requires ValidPosition(index, |entries|)
    requires |proof| == PathLength(index, |entries|)
    ensures Accepts(entry, index, |entries|, Root(entries), proof) <==>
            entry == entries[index] && proof == AuditPath(index, LeafHashes(entries))
  {
    var hs := LeafHashes(entries);
    if Accepts(entry, index, |entries|, Root(entries), proof) {
      ClimbSound(Leaf(entry), index, hs, proof);
    }
    ClimbAuditPath(index, hs);
  }

  /** n distinct entries. */
  function DistinctEntries(n: nat): (es: seq<Bytes>)
    ensures |es| == n
    ensures forall i, j :: 0 <= i < j < n ==> es[i] != es[j]
  {
    var es := seq(n, i requires 0 <= i => seq(i, _ => 0));
    assert forall i :: 0 <= i < n ==> |es[i]| == i;
    es
  }

  /** A position reaches its own leaf exactly at the length of its audit path. */
  lemma ReachedOwn(i: nat, n: nat, length: nat)
    requires i < n
    ensures Reached(i, n, length) == Some(i) <==> length == PathLength(i, n)
  {
    var entries := DistinctEntries(n);
    var hs := LeafHashes(entries);
    if length == PathLength(i, n) {
      ClimbAuditPath(i, hs);
      ClimbIsClimbSides(hs[i], i, n, AuditPath(i, hs));
      ClimbSidesExact(hs[i], Sides(i, n, length), AuditPath(i, hs), hs);
      LeafHashesDistinct(entries, Reached(i, n, length).value, i);
    } else if Reached(i, n, length) == Some(i) {
      DescendLength(n, Sides(i, n, length));
    }
  }

  lemma LeafHashesDistinct(entries: seq<Bytes>, i: nat, j: nat)
    requires i < |entries| && j < |entries|
    requires forall a, b :: 0 <= a < b < |entries| ==> entries[a] != entries[b]
    requires LeafHashes(entries)[i] == LeafHashes(entries)[j]
    ensures i == j
  {
    assert entries[i] == entries[j];
  }

  lemma {:induction false} DescendLength(n: nat, sides: seq<bool>)
    requires n >= 1 && Descend(n, sides).Some?
    ensures |sides| == PathLength(Descend(n, sides).value, n)
    decreases n
  {
    if n > 1 {
      var k, below := SplitPoint(n), sides[..|sides| - 1];
      DescendLength(if sides[|sides| - 1] then n - k else k, below);
    }
  }

  ghost predicate IndexClaim(i: nat, n: nat, length: nat)
    requires i < n
  {
    forall entry: Bytes, entries: seq<Bytes>, proof: seq<Hash> ::
      |entries| == n && |proof| == length && Accepts(entry, i, n, Root(entries), proof) ==> entry == entries[i]
  }

  /** Acceptance fixes the index exactly when the path length leads to that leaf or to none. */
  lemma IndexClaimExact(i: nat, n: nat, length: nat)
    requires ValidPosition(i, n)
    ensures IndexClaim(i, n, length) <==> Reached(i, n, length) in {None, Some(i)}
  {
    var reached := Reached(i, n, length);
    if reached in {None, Some(i)} {
      forall entry: Bytes, entries: seq<Bytes>, proof: seq<Hash>
        | |entries| == n && |proof| == length && Accepts(entry, i, n, Root(entries), proof)
        ensures entry == entries[i]
      {
        InclusionExact(entry, i, entries, proof);
      }
    } else {
      var entries := DistinctEntries(n);
      var j := reached.value;
      var proof := AuditPath(j, LeafHashes(entries));
      DescendLength(n, Sides(i, n, length));
      InclusionExact(entries[j], i, entries, proof);
      assert entries[j] != entries[i];
    }
  }

  /** The loop has no length check, so a short path can place an entry at an index it does not have. */
  lemma IndexClaimFails()
    ensures exists entry: Bytes, entries: seq<Bytes>, proof: seq<Hash> ::
              |entries| == 3 && Accepts(entry, 1, 3, Root(entries), proof) && entry != entries[1]
  {
    var entries: seq<Bytes> := [[0], [1], [2]];
    var hs := LeafHashes(entries);
    var proof := [Node(Leaf([0]), Leaf([1]))];
    assert Mth(hs) == Node(Mth(hs[..2]), Mth(hs[2..]));
    assert Mth(hs[..2]) == Node(Mth(hs[..2][..1]), Mth(hs[..2][1..]));
    assert Climb(Leaf([2]), 1, 3, proof) == Climb(Node(proof[0], Leaf([2])), 0, 2, proof[1..]);
    assert Accepts([2], 1, 3, Root(entries), proof);
  }
}
