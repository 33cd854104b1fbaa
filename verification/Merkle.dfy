/** The Merkle tree of section 2.1 of RFC 6962 over an ideal hash, and the
    level-by-level root computation of the log package.

    `Mth` is the recursive definition of the standard. Everything else in the
    tree modules is proved against it. The bridge is `Pair`, which rewrites one
    level of the tree (adjacent nodes joined, an odd last node promoted) and
    leaves `Mth` unchanged. */
module Merkle {
  import opened Common

  type Byte = b: nat | b < 256
  type Bytes = seq<Byte>

  /** An ideal hash: every digest remembers what was hashed, so distinct inputs
      have distinct digests. `Opaque` stands for 32 bytes that are the digest of
      nothing the verifier has seen. */
  datatype Hash =
    | Empty
    | Leaf(entry: Bytes)
    | Node(left: Hash, right: Hash)
    | Opaque(id: nat)

  predicate PowerOfTwo(k: nat) {
    k == 1 || (k > 1 && k % 2 == 0 && PowerOfTwo(k / 2))
  }

  /** The largest power of two smaller than n. */
  function SplitPoint(n: nat): (k: nat)
    requires n >= 2
    ensures 1 <= k < n <= 2 * k
  {
    if n == 2 then 1
    else
      var half := SplitPoint((n + 1) / 2);
      2 * half
  }

  /** `SplitPoint` is a power of two, and the only one in its interval. */
  lemma {:induction false} SplitPointExact(n: nat, k: nat)
    requires n >= 2
    ensures k < n <= 2 * k && PowerOfTwo(k) <==> k == SplitPoint(n)
  {
    if n > 2 {
      SplitPointExact((n + 1) / 2, k / 2);
      if k % 2 == 0 {
        assert k < n <= 2 * k <==> k / 2 < (n + 1) / 2 <= 2 * (k / 2);
      }
    }
  }

  /** Section 2.1 of RFC 6962, starting from leaf hashes. */
  function Mth(hs: seq<Hash>): Hash
    requires |hs| > 0
  {
    if |hs| == 1 then hs[0]
    else
      var k := SplitPoint(|hs|);
      Node(Mth(hs[..k]), Mth(hs[k..]))
  }

  lemma MthOne(hs: seq<Hash>)
    requires |hs| == 1
    ensures Mth(hs) == hs[0]
  {
  }

  lemma SplitPointHalf(n: nat)
    requires n >= 3
    ensures SplitPoint(n) % 2 == 0 && SplitPoint((n + 1) / 2) == SplitPoint(n) / 2
  {
  }

  lemma {:induction false} SplitPointNext(n: nat)
    requires n >= 2
    ensures SplitPoint(n + 1) == if 2 * SplitPoint(n) == n then n else SplitPoint(n)
  {
    if n > 2 {
      hide SplitPoint;
      SplitPointHalf(n);
      SplitPointHalf(n + 1);
      if n % 2 == 0 {
        SplitPointNext(n / 2);
        assert (n + 1) / 2 == n / 2 && (n + 2) / 2 == n / 2 + 1;
      } else {
        assert (n + 1) / 2 == (n + 2) / 2;
      }
    }
  }

  function LeafHashes(entries: seq<Bytes>): (hs: seq<Hash>)
    ensures |hs| == |entries|
    ensures forall i :: 0 <= i < |entries| ==> hs[i] == Leaf(entries[i])
  {
    seq(|entries|, i requires 0 <= i < |entries| => Leaf(entries[i]))
  }

  /** Section 2.1 of RFC 6962: the tree head of a list of entries. */
  function Root(entries: seq<Bytes>): Hash {
    if entries == [] then Empty else Mth(LeafHashes(entries))
  }

  /** One level up: adjacent hashes joined, an odd last one promoted. */
  function Pair(hs: seq<Hash>): (up: seq<Hash>)
    ensures |up| == (|hs| + 1) / 2
  {
    seq((|hs| + 1) / 2, i requires 0 <= i < (|hs| + 1) / 2 => PairAt(hs, i))
  }

  function PairAt(hs: seq<Hash>, i: nat): Hash
    requires i < (|hs| + 1) / 2
  {
    if 2 * i + 1 < |hs| then Node(hs[2 * i], hs[2 * i + 1]) else hs[2 * i]
  }

  lemma PairElement(hs: seq<Hash>, i: nat)
    requires i < (|hs| + 1) / 2
    ensures Pair(hs)[i] == PairAt(hs, i)
  {
  }

  lemma PairSplit(hs: seq<Hash>, k: nat)
    requires k % 2 == 0 && k <= |hs|
    ensures Pair(hs[..k]) == Pair(hs)[..k / 2]
    ensures Pair(hs[k..]) == Pair(hs)[k / 2..]
  {
    assert |Pair(hs[k..])| == |Pair(hs)| - k / 2;
    forall i | 0 <= i < |Pair(hs[k..])|
      ensures Pair(hs[k..])[i] == Pair(hs)[k / 2..][i]
    {
      assert Pair(hs[k..])[i] == PairAt(hs[k..], i);
      assert Pair(hs)[k / 2 + i] == PairAt(hs, k / 2 + i);
    }
    forall i | 0 <= i < k / 2
      ensures Pair(hs[..k])[i] == Pair(hs)[..k / 2][i]
    {
      assert Pair(hs[..k])[i] == PairAt(hs[..k], i);
      assert Pair(hs)[i] == PairAt(hs, i);
    }
  }

  lemma MthSplit(hs: seq<Hash>, k: nat)
    requires |hs| > 1 && k == SplitPoint(|hs|)
    ensures Mth(hs) == Node(Mth(hs[..k]), Mth(hs[k..]))
  {
  }

  lemma MthPairOfTwo(hs: seq<Hash>)
    requires |hs| == 2
    ensures Mth(Pair(hs)) == Mth(hs)
  {
    assert hs[..1] == [hs[0]] && hs[1..] == [hs[1]];
  }

  /** Joining one level leaves the tree head unchanged. */
  lemma {:induction false} MthPair(hs: seq<Hash>)
    requires |hs| > 0
    ensures Mth(Pair(hs)) == Mth(hs)
    decreases |hs|
  {
    if |hs| == 1 {
      assert Pair(hs) == hs;
    } else if |hs| == 2 {
      MthPairOfTwo(hs);
    } else {
      hide Mth, Pair, SplitPoint;
      var k := SplitPoint(|hs|);
      SplitPointHalf(|hs|);
      PairSplit(hs, k);
      MthSplit(hs, k);
      MthSplit(Pair(hs), k / 2);
      MthPair(hs[..k]);
      MthPair(hs[k..]);
    }
  }

  /** The tree head of a fixed number of hashes determines every one of them. */
  lemma {:induction false} MthInjective(a: seq<Hash>, b: seq<Hash>)
    requires |a| == |b| > 0
    requires Mth(a) == Mth(b)
    ensures a == b
    decreases |a|
  {
    if |a| == 1 {
    } else {
      var k := SplitPoint(|a|);
      MthInjective(a[..k], b[..k]);
      MthInjective(a[k..], b[k..]);
      TakeDrop(a, k);
      TakeDrop(b, k);
    }
  }

  lemma LeafHashesInjective(a: seq<Bytes>, b: seq<Bytes>)
    requires LeafHashes(a) == LeafHashes(b)
    ensures a == b
  {
    assert |a| == |b|;
    forall i | 0 <= i < |a| ensures a[i] == b[i] {
      assert LeafHashes(a)[i] == Leaf(a[i]);
      assert LeafHashes(b)[i] == Leaf(b[i]);
    }
  }

  /** A tree head over entries is a leaf exactly for one entry, and a node for more. */
  lemma MthShape(hs: seq<Hash>)
    requires |hs| > 0
    ensures |hs| > 1 ==> Mth(hs).Node?
  {
  }

  /** A tree head commits to the entries, whatever the sizes: the leaf and node
      prefixes of section 2.1 keep trees of different sizes apart. */
  lemma RootInjective(a: seq<Bytes>, b: seq<Bytes>)
    requires Root(a) == Root(b)
    ensures a == b
  {
    if a == [] || b == [] {
      if a != [] { MthShape(LeafHashes(a)); }
      if b != [] { MthShape(LeafHashes(b)); }
    } else {
      LeafTreesInjective(LeafHashes(a), LeafHashes(b));
      LeafHashesInjective(a, b);
    }
  }

  ghost predicate AllLeaves(hs: seq<Hash>) {
    forall i :: 0 <= i < |hs| ==> hs[i].Leaf?
  }

  lemma LeavesSplit(hs: seq<Hash>, k: nat)
    requires k <= |hs| && AllLeaves(hs)
    ensures AllLeaves(hs[..k]) && AllLeaves(hs[k..])
  {
  }

  lemma {:induction false} LeafTreesInjective(a: seq<Hash>, b: seq<Hash>)
    requires |a| > 0 && |b| > 0 && AllLeaves(a) && AllLeaves(b)
    requires Mth(a) == Mth(b)
    ensures a == b
    decreases |a|
  {
    if |a| == 1 || |b| == 1 {
      MthShape(a);
      MthShape(b);
      assert a[0].Leaf? && b[0].Leaf?;
    } else {
      hide Mth, SplitPoint, AllLeaves;
      var i, j := SplitPoint(|a|), SplitPoint(|b|);
      MthSplit(a, i);
      MthSplit(b, j);
      LeavesSplit(a, i);
      LeavesSplit(b, j);
      LeafTreesInjective(a[..i], b[..j]);
      LeafTreesInjective(a[i..], b[j..]);
      TakeDrop(a, i);
      TakeDrop(b, j);
    }
  }

  /** The inner loop: one level, two hashes at a time. */
  method JoinLevel(level: seq<Hash>) returns (next: seq<Hash>)
    ensures next == Pair(level)
  {
    next := [];
    var i := 0;
    while i < |level|
      invariant 0 <= i <= |level| + 1 && i == 2 * |next|
      invariant forall j :: 0 <= j < |next| ==> next[j] == PairAt(level, j)
    {
      next := next + [if i + 1 < |level| then Node(level[i], level[i + 1]) else level[i]];
      i := i + 2;
    }
  }

  /** The level-by-level computation returns the recursive tree head. */
  method MerkleRootFromEntries(entries: seq<Bytes>) returns (root: Hash)
    ensures root == Root(entries)
  {
    if |entries| == 0 {
      return Empty;
    }
    var level := LeafHashes(entries);
    while |level| > 1
      invariant |level| > 0
      invariant Mth(level) == Root(entries)
      decreases |level|
    {
      MthPair(level);
      level := JoinLevel(level);
    }
    root := level[0];
  }
}
