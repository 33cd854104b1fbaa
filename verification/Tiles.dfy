/** Hash tiles: the root of a trusted prefix computed from tiles that a server
    may serve in any way it likes, authenticated only by the candidate root.

    A tile (level L, index j) of a log with n entries holds up to 256 roots of
    complete subtrees of 256^L entries each. */
module Tiles {
  import opened Common
  import opened Merkle

  // ---- Folding ----

  function Tail(suffix: Option<Hash>): seq<Hash> {
    if suffix.Some? then [suffix.value] else []
  }

  /** Equal-height hashes folded with an optional smaller right-hand subtree: the
      tree head in which that subtree is one more hash. */
  method Fold(hashes: seq<Hash>, suffix: Option<Hash>) returns (head: Hash)
    requires |hashes| > 0
    ensures head == Mth(hashes + Tail(suffix))
    decreases |hashes|, suffix.Some?
  {
    if |hashes| == 1 {
      ghost var both := hashes + Tail(suffix);
      assert suffix.Some? ==> both[..1] == hashes && both[1..] == [suffix.value];
      return if suffix.Some? then Node(hashes[0], suffix.value) else hashes[0];
    }
    var split := 1;
    while split * 2 < |hashes|
      invariant 1 <= split < |hashes| && PowerOfTwo(split)
    {
      split := split * 2;
    }
    SplitPointExact(|hashes|, split);
    SplitPointWithSuffix(hashes, suffix, split);
    if suffix.Some? && split * 2 == |hashes| {
      var left := Fold(hashes, None);
      assert hashes + Tail(None) == hashes;
      return Node(left, suffix.value);
    }
    var left := Fold(hashes[..split], None);
    var right := Fold(hashes[split..], suffix);
    assert hashes[..split] + Tail(None) == hashes[..split];
    return Node(left, right);
  }

  lemma SplitPointWithSuffix(hashes: seq<Hash>, suffix: Option<Hash>, split: nat)
    requires |hashes| > 1 && split == SplitPoint(|hashes|)
    ensures Mth(hashes + Tail(suffix)) ==
            if suffix.Some? && split * 2 == |hashes| then Node(Mth(hashes), suffix.value)
            else Node(Mth(hashes[..split]), Mth(hashes[split..] + Tail(suffix)))
  {
    hide Mth, SplitPoint;
    var all := hashes + Tail(suffix);
    SplitPointNext(|hashes|);
    if suffix.Some? && split * 2 == |hashes| {
      MthSplit(all, split * 2);
      assert all[..split * 2] == hashes && all[split * 2..] == [suffix.value];
      MthOne([suffix.value]);
    } else {
      MthSplit(all, split);
      assert all[..split] == hashes[..split] && all[split..] == hashes[split..] + Tail(suffix);
    }
  }

  // ---- Chunks ----

  /** The heads of consecutive chunks of q hashes; the last chunk may be shorter. */
  function Chunks(hs: seq<Hash>, q: nat): seq<Hash>
    requires q > 0 && |hs| > 0
    decreases |hs|
  {
    if |hs| <= q then [Mth(hs)] else [Mth(hs[..q])] + Chunks(hs[q..], q)
  }

  lemma {:induction false} ChunksPair(hs: seq<Hash>, q: nat)
    requires q > 0 && q % 2 == 0 && |hs| > 0
    ensures Chunks(hs, q) == Chunks(Pair(hs), q / 2)
    decreases |hs|
  {
    hide Mth, Pair;
    if |hs| <= q {
      MthPair(hs);
    } else {
      PairSplit(hs, q);
      MthPair(hs[..q]);
      ChunksPair(hs[q..], q);
    }
  }

  lemma {:induction false} ChunksOfOne(hs: seq<Hash>)
    requires |hs| > 0
    ensures Chunks(hs, 1) == hs
    decreases |hs|
  {
    if |hs| > 1 {
      ChunksOfOne(hs[1..]);
    }
  }

  lemma {:induction false} MthChunks(hs: seq<Hash>, q: nat)
    requires |hs| > 0 && PowerOfTwo(q)
    ensures |Chunks(hs, q)| > 0 && Mth(Chunks(hs, q)) == Mth(hs)
    decreases q
  {
    hide Mth, Pair, Chunks;
    if q == 1 {
      ChunksOfOne(hs);
    } else {
      ChunksPair(hs, q);
      MthChunks(Pair(hs), q / 2);
      MthPair(hs);
    }
  }

  /** The heads of the complete chunks of 256 hashes. */
  function Tops(hs: seq<Hash>): (up: seq<Hash>)
    ensures |up| == |hs| / 256
    decreases |hs|
  {
    if |hs| < 256 then [] else [Mth(hs[..256])] + Tops(hs[256..])
  }

  lemma {:induction false} TopsAt(hs: seq<Hash>, j: nat)
    requires j < |hs| / 256
    ensures Tops(hs)[j] == Mth(hs[256 * j..256 * j + 256])
    decreases |hs|
  {
    hide Mth;
    if j > 0 {
      TopsAt(hs[256..], j - 1);
      assert hs[256..][256 * (j - 1)..256 * (j - 1) + 256] == hs[256 * j..256 * j + 256];
    }
  }

  /** What is left after the complete chunks, folded into the smaller subtree on the right. */
  function Carry(hs: seq<Hash>, suffix: Option<Hash>): Option<Hash> {
    if |hs| % 256 == 0 then suffix else Some(Mth(hs[256 * (|hs| / 256)..] + Tail(suffix)))
  }

  lemma {:induction false} CarryStep(hs: seq<Hash>, suffix: Option<Hash>)
    requires |hs| >= 256
    ensures Carry(hs[256..], suffix) == Carry(hs, suffix)
  {
    hide Mth;
    assert hs[256..][256 * (|hs[256..]| / 256)..] == hs[256 * (|hs| / 256)..];
  }

  lemma {:induction false} ChunksAreTops(hs: seq<Hash>, suffix: Option<Hash>)
    requires |hs| + |Tail(suffix)| > 0
    ensures Chunks(hs + Tail(suffix), 256) == Tops(hs) + Tail(Carry(hs, suffix))
    decreases |hs|
  {
    hide Mth, Carry, Tops, Chunks;
    if hs == [] {
      CarryEmpty(suffix);
      assert hs + Tail(suffix) == [suffix.value];
      OneChunk([suffix.value]);
      MthOne([suffix.value]);
    } else if |hs| < 256 {
      CarryRest(hs, suffix);
      OneChunk(hs + Tail(suffix));
    } else {
      var first, rest := hs[..256], hs[256..];
      assert hs == first + rest;
      CarryStep(hs, suffix);
      TopsFirst(first, rest);
      if |rest| + |Tail(suffix)| > 0 {
        ChunksAreTops(rest, suffix);
        ChunksFirst(first, rest + Tail(suffix));
        Assoc(first, rest, Tail(suffix));
        Assoc([Mth(first)], Tops(rest), Tail(Carry(hs, suffix)));
      } else {
        CarryEmpty(suffix);
        OneChunk(first);
        assert rest == [] && hs + Tail(suffix) == first;
      }
    }
  }

  lemma CarryEmpty(suffix: Option<Hash>)
    ensures Tops([]) == [] && Carry([], suffix) == suffix
  {
  }

  lemma CarryRest(hs: seq<Hash>, suffix: Option<Hash>)
    requires 0 < |hs| < 256
    ensures Tops(hs) == [] && Carry(hs, suffix) == Some(Mth(hs + Tail(suffix)))
  {
    hide Mth;
    assert hs[256 * (|hs| / 256)..] == hs;
  }

  lemma TopsFirst(first: seq<Hash>, rest: seq<Hash>)
    requires |first| == 256
    ensures Tops(first + rest) == [Mth(first)] + Tops(rest)
  {
    hide Mth;
    assert (first + rest)[..256] == first && (first + rest)[256..] == rest;
  }

  lemma ChunksFirst(first: seq<Hash>, rest: seq<Hash>)
    requires |first| == 256 && |rest| > 0
    ensures Chunks(first + rest, 256) == [Mth(first)] + Chunks(rest, 256)
  {
    hide Mth;
    assert (first + rest)[..256] == first && (first + rest)[256..] == rest;
  }

  lemma OneChunk(hs: seq<Hash>)
    requires 0 < |hs| <= 256
    ensures Chunks(hs, 256) == [Mth(hs)]
  {
  }

  /** One base-256 digit of the root computation keeps the tree head. */
  lemma MthTops(hs: seq<Hash>, suffix: Option<Hash>)
    requires |hs| + |Tail(suffix)| > 0
    ensures |Tops(hs) + Tail(Carry(hs, suffix))| > 0
    ensures Mth(hs + Tail(suffix)) == Mth(Tops(hs) + Tail(Carry(hs, suffix)))
  {
    assert PowerOfTwo(256) by {
      assert PowerOfTwo(8) && PowerOfTwo(64);
    }
    MthChunks(hs + Tail(suffix), 256);
    ChunksAreTops(hs, suffix);
  }

  // ---- What a server serves ----

  datatype Response = NotFound | Failed | Body(hashes: seq<Hash>)

  /** A server: tile (level, index), whole or as a partial tile of the given width. */
  type Server = (nat, nat, Option<nat>) -> Response

  /** The number of complete subtrees of 256^level entries among n entries. */
  function CountAt(n: nat, level: nat): nat {
    if level == 0 then n else CountAt(n, level - 1) / 256
  }

  /** The width of tile (level, index) in a log of n entries. */
  function Width(n: nat, level: nat, index: nat): (w: nat)
    requires 256 * index < CountAt(n, level)
    ensures 1 <= w <= 256
  {
    var rest := CountAt(n, level) - 256 * index;
    if rest < 256 then rest else 256
  }

  /** The hashes of a tile as the client reads them, or None when reading throws:
      a partial tile that is missing is read from the full tile instead. */
  function Served(server: Server, n: nat, level: nat, index: nat): (t: Option<seq<Hash>>)
    requires 256 * index < CountAt(n, level)
    ensures t.Some? ==> |t.value| == Width(n, level, index)
  {
    var width := Width(n, level, index);
    var first := server(level, index, if width == 256 then None else Some(width));
    if first.Body? then (if |first.hashes| == width then Some(first.hashes) else None)
    else if width == 256 || first.Failed? then None
    else
      var full := server(level, index, None);
      if full.Body? && |full.hashes| == 256 then Some(full.hashes[..width]) else None
  }

  /** The root computation from `level` on, `count` complete subtrees to the left
      of `suffix`; None when a tile cannot be read (or nothing is left to hash). */
  function RootFrom(server: Server, n: nat, level: nat, count: nat, suffix: Option<Hash>): Option<Hash>
    requires count <= CountAt(n, level)
    decreases count
  {
    if count == 0 then suffix
    else
      var width, index := count % 256, count / 256;
      if width == 0 then RootFrom(server, n, level + 1, index, suffix)
      else
        var tile := Served(server, n, level, index);
        if tile.None? then None
        else RootFrom(server, n, level + 1, index, Some(Mth(tile.value[..width] + Tail(suffix))))
  }

  type Key = (nat, nat)

  /** The tiles the root computation reads. */
  function Frontier(level: nat, count: nat): set<Key>
    decreases count
  {
    if count == 0 then {}
    else (if count % 256 == 0 then {} else {(level, count / 256)}) + Frontier(level + 1, count / 256)
  }

  lemma {:induction false} FrontierInside(n: nat, level: nat, count: nat, key: Key)
    requires count <= CountAt(n, level) && key in Frontier(level, count)
    ensures 256 * key.1 < CountAt(n, key.0)
    decreases count
  {
    if count % 256 == 0 || key != (level, count / 256) {
      FrontierInside(n, level + 1, count / 256, key);
    }
  }

  lemma CountAtZero(n: nat)
    ensures CountAt(n, 0) == n
  {
  }

  /** One digit of the root computation, and the tile it reads. */
  lemma DigitStep(server: Server, n: nat, level: nat, count: nat, suffix: Option<Hash>)
    requires 0 < count <= CountAt(n, level)
    ensures
      var width: nat, index: nat := count % 256, count / 256;
      && index <= CountAt(n, level + 1)
      && Frontier(level, count) == (if width == 0 then {} else {(level, index)}) + Frontier(level + 1, index)
      && (width == 0 ==> index > 0 && RootFrom(server, n, level, count, suffix) == RootFrom(server, n, level + 1, index, suffix))
      && (width > 0 ==>
            && 256 * index < CountAt(n, level) && width <= Width(n, level, index)
            && var tile := Served(server, n, level, index);
               RootFrom(server, n, level, count, suffix) ==
               if tile.None? then None
               else RootFrom(server, n, level + 1, index, Some(Mth(tile.value[..width] + Tail(suffix)))))
  {
    hide Mth, Served;
  }

  lemma NoDigit(server: Server, n: nat, level: nat, suffix: Option<Hash>)
    ensures Frontier(level, 0) == {} && RootFrom(server, n, level, 0, suffix) == suffix
  {
  }

  /** A narrow tile is the last one of its level, so the candidate root covers it. */
  lemma {:induction false} NarrowIsFrontier(n: nat, from: nat, key: Key)
    requires from <= key.0 && 256 * key.1 < CountAt(n, key.0) && Width(n, key.0, key.1) < 256
    ensures key in Frontier(from, CountAt(n, from))
    decreases key.0 - from
  {
    CountShrinks(n, from, key.0);
    if from < key.0 {
      NarrowIsFrontier(n, from + 1, key);
    }
  }

  lemma {:induction false} CountShrinks(n: nat, from: nat, level: nat)
    requires from <= level
    ensures CountAt(n, level) <= CountAt(n, from)
    decreases level - from
  {
    if from < level {
      CountShrinks(n, from + 1, level);
    }
  }

  /** A full tile inside the tree has an entry in its parent. */
  lemma ParentInside(n: nat, level: nat, index: nat)
    requires 256 * index + 256 <= CountAt(n, level)
    ensures CountAt(n, level + 1) == CountAt(n, level) / 256 < CountAt(n, level)
    ensures 256 * (index / 256) < CountAt(n, level + 1)
    ensures index % 256 < Width(n, level + 1, index / 256)
  {
  }

  /** Authentication: covered by the candidate root, or equal to an entry of an authenticated parent. */
  predicate Authentic(server: Server, n: nat, level: nat, index: nat)
    decreases CountAt(n, level)
  {
    && 256 * index < CountAt(n, level)
    && Served(server, n, level, index).Some?
    && ((level, index) in Frontier(0, n) || EntryOfParent(server, n, level, index))
  }

  predicate EntryOfParent(server: Server, n: nat, level: nat, index: nat)
    requires 256 * index < CountAt(n, level) && Served(server, n, level, index).Some?
    decreases CountAt(n, level), 0
  {
    && 256 * index + 256 <= CountAt(n, level)
    && (ParentInside(n, level, index);
        && Authentic(server, n, level + 1, index / 256)
        && Mth(Served(server, n, level, index).value)
           == Served(server, n, level + 1, index / 256).value[index % 256])
  }

  /** A tile the candidate root does not cover is full, and its parent is inside the tree. */
  lemma ChildAuthentic(server: Server, n: nat, level: nat, index: nat)
    requires 256 * index < CountAt(n, level) && (level, index) !in Frontier(0, n)
    requires Served(server, n, level, index).Some?
    ensures Width(n, level, index) == 256
    ensures CountAt(n, level + 1) < CountAt(n, level) && 256 * (index / 256) < CountAt(n, level + 1)
    ensures index % 256 < Width(n, level + 1, index / 256)
    ensures Authentic(server, n, level + 1, index / 256) ==> Served(server, n, level + 1, index / 256).Some?
    ensures Authentic(server, n, level, index) <==>
            && Authentic(server, n, level + 1, index / 256)
            && Mth(Served(server, n, level, index).value) == Served(server, n, level + 1, index / 256).value[index % 256]
  {
    hide Mth, Served, Frontier;
    if Width(n, level, index) < 256 {
      NarrowIsFrontier(n, 0, (level, index));
    }
    ParentInside(n, level, index);
  }

  lemma {:induction false} FrontierAuthentic(server: Server, n: nat, level: nat, count: nat, suffix: Option<Hash>)
    requires count <= CountAt(n, level) && RootFrom(server, n, level, count, suffix).Some?
    ensures forall key | key in Frontier(level, count) :: 256 * key.1 < CountAt(n, key.0) && Served(server, n, key.0, key.1).Some?
    decreases count
  {
    hide Mth, Served;
    if count > 0 {
      var width, index := count % 256, count / 256;
      FrontierAuthentic(server, n, level + 1, index,
                        if width == 0 then suffix else Some(Mth(Served(server, n, level, index).value[..width] + Tail(suffix))));
    }
  }

  /** The tiles that reproduce the candidate root are authentic. */
  lemma CoveredAuthentic(server: Server, n: nat)
    requires RootFrom(server, n, 0, n, None).Some?
    ensures forall key | key in Frontier(0, n) :: Authentic(server, n, key.0, key.1)
  {
    FrontierAuthentic(server, n, 0, n, None);
    hide Mth, Served, RootFrom, Frontier;
  }

  /** The answer of `authenticatedTilePrefixRoot`, or None when it throws. */
  function PrefixRoot(server: Server, n: nat, root: Hash, trustedSize: nat): Option<Hash>
    requires 0 < trustedSize <= n
  {
    if RootFrom(server, n, 0, n, None) == Some(root)
       && (forall key | key in Frontier(0, trustedSize) :: Authentic(server, n, key.0, key.1))
    then RootFrom(server, n, 0, trustedSize, None)
    else None
  }

  // ---- The client ----

  datatype TileError = ReadFailed | RootMismatch | NotAuthenticated

  /** One run of `authenticatedTilePrefixRoot`: the tiles read so far and those authenticated. */
  class TileClient {
    const server: Server
    const treeSize: nat
    var tiles: map<Key, seq<Hash>>
    var authenticated: set<Key>

    constructor (server: Server, treeSize: nat)
      ensures this.server == server && this.treeSize == treeSize
      ensures tiles == map[] && authenticated == {} && Valid()
    {
      this.server, this.treeSize := server, treeSize;
      tiles, authenticated := map[], {};
    }

    predicate Inside(key: Key) {
      256 * key.1 < CountAt(treeSize, key.0)
    }

    /** Every cached tile is the one response the server gave for it. */
    ghost predicate Valid()
      reads this
    {
      && authenticated <= tiles.Keys
      && forall key | key in tiles :: Inside(key) && Served(server, treeSize, key.0, key.1) == Some(tiles[key])
    }

    method Get(level: nat, index: nat) returns (tile: Option<seq<Hash>>)
      requires Valid() && Inside((level, index))
      modifies this`tiles
      ensures Valid()
      ensures tile == Served(server, treeSize, level, index)
      ensures tile.Some? ==> tiles == old(tiles)[(level, index) := tile.value]
      ensures tile.None? ==> tiles == old(tiles)
    {
      hide CountAt;
      var key: Key := (level, index);
      if key in tiles {
        return Some(tiles[key]);
      }
      var width := Width(treeSize, level, index);
      var response := server(level, index, if width == 256 then None else Some(width));
      var responseWidth := width;
      if !response.Body? {
        if width == 256 || !response.NotFound? {
          return None;
        }
        responseWidth := 256;
        response := server(level, index, None);
      }
      if !response.Body? || |response.hashes| != responseWidth {
        return None;
      }
      assert responseWidth == width ==> response.hashes[..width] == response.hashes;
      tile := Some(response.hashes[..width]);
      assert tile == Served(server, treeSize, level, index);
      tiles := tiles[key := tile.value];
    }

    /** Level by level, the last base-256 digit of the count picks the one tile to fold, if any. */
    method RootOf(size: nat) returns (root: Option<Hash>)
      requires Valid() && 0 < size <= treeSize
      modifies this`tiles
      ensures Valid()
      ensures root == RootFrom(server, treeSize, 0, size, None)
      ensures root.Some? ==> tiles.Keys == old(tiles).Keys + Frontier(0, size)
    {
      hide Mth, Served, RootFrom, Frontier, CountAt;
      var suffix: Option<Hash> := None;
      var level: nat, count: nat := 0, size;
      CountAtZero(treeSize);
      while count > 0
        invariant Valid() && count <= CountAt(treeSize, level)
        invariant count == 0 ==> suffix.Some?
        invariant RootFrom(server, treeSize, level, count, suffix) == RootFrom(server, treeSize, 0, size, None)
        invariant tiles.Keys + Frontier(level, count) == old(tiles).Keys + Frontier(0, size)
        decreases count
      {
        var width: nat, index: nat := count % 256, count / 256;
        DigitStep(server, treeSize, level, count, suffix);
        if width != 0 {
          var tile := Get(level, index);
          if tile.None? {
            return None;
          }
          var head := Fold(tile.value[..width], suffix);
          suffix := Some(head);
        }
        level, count := level + 1, index;
      }
      NoDigit(server, treeSize, level, suffix);
      return suffix;
    }

    ghost predicate AllAuthentic()
      reads this
    {
      && Frontier(0, treeSize) <= authenticated
      && forall key | key in authenticated :: Authentic(server, treeSize, key.0, key.1)
    }

    /** A tile is authenticated through its parent; the parents are fewer and fewer. */
    method Authenticate(level: nat, index: nat) returns (ok: bool)
      requires Valid() && AllAuthentic() && (level, index) in tiles
      modifies this
      ensures Valid() && AllAuthentic() && old(authenticated) <= authenticated && old(tiles).Keys <= tiles.Keys
      ensures ok <==> Authentic(server, treeSize, level, index)
      ensures ok ==> (level, index) in authenticated
      ensures ok ==> tiles.Keys - authenticated <= old(tiles.Keys - authenticated)
      decreases CountAt(treeSize, level)
    {
      hide Mth, Served, Frontier, Authentic, CountAt;
      if (level, index) in authenticated {
        return true;
      }
      var tile := tiles[(level, index)];
      ChildAuthentic(server, treeSize, level, index);
      var parent := Get(level + 1, index / 256);
      if parent.None? {
        return false;
      }
      ghost var pending := tiles.Keys - authenticated;
      assert pending <= old(tiles.Keys - authenticated) + {(level + 1, index / 256)};
      ok := Authenticate(level + 1, index / 256);
      if !ok {
        return false;
      }
      assert tiles.Keys - authenticated <= pending - {(level + 1, index / 256)};
      var head := Fold(tile, None);
      assert tile + Tail(None) == tile;
      if |tile| != 256 || head != parent.value[index % 256] {
        return false;
      }
      authenticated := authenticated + {(level, index)};
    }

    /** The whole run: the answer of `PrefixRoot`, or an error exactly when there is none. */
    method Run(rootHash: Hash, trustedSize: nat) returns (r: Result<Hash, TileError>)
      requires tiles == map[] && authenticated == {} && Valid()
      requires 0 < trustedSize <= treeSize
      modifies this
      ensures Valid()
      ensures r.Ok? <==> PrefixRoot(server, treeSize, rootHash, trustedSize).Some?
      ensures r.Ok? ==> Some(r.value) == PrefixRoot(server, treeSize, rootHash, trustedSize)
    {
      hide Mth, Served, Authentic, CountAt, RootFrom;
      var candidateRoot := RootOf(treeSize);
      if candidateRoot.None? { return Err(ReadFailed); }
      if candidateRoot.value != rootHash { return Err(RootMismatch); }
      CoveredAuthentic(server, treeSize);
      authenticated := tiles.Keys;
      ghost var frontier := Frontier(0, trustedSize);
      var trustedRoot := RootOf(trustedSize);
      if trustedRoot.None? { return Err(ReadFailed); }
      hide Frontier;
      while exists key :: key in tiles && key !in authenticated
        invariant Valid() && AllAuthentic() && frontier <= tiles.Keys
        invariant tiles.Keys - authenticated <= frontier
        decreases tiles.Keys - authenticated
      {
        var key: Key :| key in tiles && key !in authenticated;
        assert key in tiles.Keys - authenticated;
        var ok := Authenticate(key.0, key.1);
        if !ok { return Err(NotAuthenticated); }
      }
      return Ok(trustedRoot.value);
    }
  }

  // ---- Soundness and completeness ----

  /** The roots of the complete subtrees of 256^level entries. */
  function Level(hs: seq<Hash>, level: nat): (up: seq<Hash>)
    ensures |up| == CountAt(|hs|, level)
  {
    if level == 0 then hs else Tops(Level(hs, level - 1))
  }

  /** The client read what the log with leaf hashes hs would serve. */
  ghost predicate Honest(server: Server, hs: seq<Hash>, level: nat, index: nat) {
    && 256 * index < CountAt(|hs|, level)
    && Served(server, |hs|, level, index) == Some(Level(hs, level)[256 * index..256 * index + Width(|hs|, level, index)])
  }

  /** The tiles read for `count` subtrees of a level are honest as far as they are used. */
  ghost predicate UsedHonestly(server: Server, hs: seq<Hash>, level: nat, count: nat)
    requires count <= CountAt(|hs|, level)
    decreases count
  {
    count > 0 ==>
      && (count % 256 != 0 ==> Honest(server, hs, level, count / 256))
      && UsedHonestly(server, hs, level + 1, count / 256)
  }

  lemma {:induction false} TopsPrefix(hs: seq<Hash>, count: nat)
    requires count <= |hs|
    ensures Tops(hs)[..count / 256] == Tops(hs[..count])
    decreases count
  {
    hide Mth;
    if count >= 256 {
      TopsPrefix(hs[256..], count - 256);
      assert hs[..count][..256] == hs[..256];
      assert hs[..count][256..] == hs[256..][..count - 256];
    }
  }

  lemma LastDigit(hs: seq<Hash>, level: nat, count: nat)
    requires count <= CountAt(|hs|, level) && count % 256 != 0
    ensures 256 * (count / 256) < CountAt(|hs|, level)
    ensures
      var width, own := Width(|hs|, level, count / 256), Level(hs, level);
      count % 256 <= width && 256 * (count / 256) + width <= |own| &&
      own[256 * (count / 256)..256 * (count / 256) + width][..count % 256] == own[..count][256 * (count / 256)..]
  {
    hide Level, CountAt;
    var index := count / 256;
    assert count == 256 * index + count % 256;
  }

  /** From honest tiles the base-256 computation gives the tree head of every prefix. */
  lemma {:induction false} RootFromHonest(server: Server, hs: seq<Hash>, level: nat, count: nat, suffix: Option<Hash>)
    requires count <= CountAt(|hs|, level) && count + |Tail(suffix)| > 0
    requires UsedHonestly(server, hs, level, count)
    ensures RootFrom(server, |hs|, level, count, suffix) == Some(Mth(Level(hs, level)[..count] + Tail(suffix)))
    decreases count
  {
    hide Mth, Served, Width, RootFrom, Level, Tops, Carry, CountAt, Frontier;
    var own := Level(hs, level)[..count];
    if count == 0 {
      NoDigit(server, |hs|, level, suffix);
      assert own + Tail(suffix) == [suffix.value];
      MthOne([suffix.value]);
    } else {
      var index: nat := count / 256;
      DigitStep(server, |hs|, level, count, suffix);
      MthTops(own, suffix);
      TopsPrefix(Level(hs, level), count);
      LevelNext(hs, level);
      CarryLast(own, suffix);
      if count % 256 != 0 {
        LastDigit(hs, level, count);
      }
      RootFromHonest(server, hs, level + 1, index, Carry(own, suffix));
    }
  }

  lemma LevelNext(hs: seq<Hash>, level: nat)
    ensures Level(hs, level + 1) == Tops(Level(hs, level))
  {
  }

  lemma CarryLast(hs: seq<Hash>, suffix: Option<Hash>)
    ensures Carry(hs, suffix) == if |hs| % 256 == 0 then suffix else Some(Mth(hs[256 * (|hs| / 256)..] + Tail(suffix)))
  {
  }

  /** Whatever was served: if the computation reproduces the tree head, the suffix
      and every tile it read are the honest ones. */
  lemma {:induction false} RootFromPins(server: Server, hs: seq<Hash>, level: nat, suffix: Option<Hash>, own: Option<Hash>)
    requires suffix.Some? == own.Some?
    requires CountAt(|hs|, level) + |Tail(own)| > 0
    requires RootFrom(server, |hs|, level, CountAt(|hs|, level), suffix) == Some(Mth(Level(hs, level) + Tail(own)))
    ensures suffix == own
    ensures UsedHonestly(server, hs, level, CountAt(|hs|, level))
    decreases CountAt(|hs|, level)
  {
    hide Mth, Served, Honest, Tops;
    var here, count := Level(hs, level), CountAt(|hs|, level);
    if count == 0 {
      assert here + Tail(own) == [own.value];
      MthOne([own.value]);
    } else {
      MthTops(here, own);
      assert Level(hs, level + 1) == Tops(here);
      var width, index := count % 256, count / 256;
      if width == 0 {
        RootFromPins(server, hs, level + 1, suffix, own);
      } else {
        var tile := Served(server, |hs|, level, index);
        RootFromPins(server, hs, level + 1, Some(Mth(tile.value[..width] + Tail(suffix))), Carry(here, own));
        PinDigit(server, hs, level, suffix, own);
      }
    }
  }

  lemma {:induction false} PinDigit(server: Server, hs: seq<Hash>, level: nat, suffix: Option<Hash>, own: Option<Hash>)
    requires suffix.Some? == own.Some?
    requires CountAt(|hs|, level) % 256 != 0
    requires
      var here, count := Level(hs, level), CountAt(|hs|, level);
      var tile := Served(server, |hs|, level, count / 256);
      tile.Some? && Mth(tile.value[..count % 256] + Tail(suffix)) == Mth(here[256 * (count / 256)..] + Tail(own))
    ensures suffix == own && Honest(server, hs, level, CountAt(|hs|, level) / 256)
  {
    hide Mth, Served, Level;
    var here, count := Level(hs, level), CountAt(|hs|, level);
    var width, index := count % 256, count / 256;
    var tile, rest := Served(server, |hs|, level, index).value, here[256 * index..];
    assert tile[..width] == tile;
    MthInjective(tile + Tail(suffix), rest + Tail(own));
    assert tile == (tile + Tail(suffix))[..width] == (rest + Tail(own))[..width] == rest;
    assert suffix.Some? ==> suffix.value == (tile + Tail(suffix))[width] == (rest + Tail(own))[width] == own.value;
    assert here[256 * index..256 * index + width] == rest;
  }

  lemma {:induction false} UsedFrontier(server: Server, hs: seq<Hash>, level: nat, count: nat)
    requires count <= CountAt(|hs|, level)
    ensures UsedHonestly(server, hs, level, count) <==>
            forall key | key in Frontier(level, count) :: Honest(server, hs, key.0, key.1)
    decreases count
  {
    hide Honest;
    if count > 0 {
      UsedFrontier(server, hs, level + 1, count / 256);
      var last: set<Key> := if count % 256 == 0 then {} else {(level, count / 256)};
      assert Frontier(level, count) == last + Frontier(level + 1, count / 256);
      assert count % 256 != 0 ==> (level, count / 256) in Frontier(level, count);
    }
  }

  /** Parents pin their children: an authentic tile is honest once the frontier is. */
  lemma {:induction false} AuthenticIsHonest(server: Server, hs: seq<Hash>, level: nat, index: nat)
    requires UsedHonestly(server, hs, 0, |hs|)
    requires Authentic(server, |hs|, level, index)
    ensures Honest(server, hs, level, index)
    decreases CountAt(|hs|, level)
  {
    hide Mth, Tops, Served, Honest, Width, Frontier, UsedHonestly;
    if (level, index) in Frontier(0, |hs|) {
      UsedFrontier(server, hs, 0, |hs|);
    } else {
      ParentInside(|hs|, level, index);
      AuthenticIsHonest(server, hs, level + 1, index / 256);
      PinChild(server, hs, level, index);
    }
  }

  lemma {:induction false} PinChild(server: Server, hs: seq<Hash>, level: nat, index: nat)
    requires 256 * index + 256 <= CountAt(|hs|, level)
    requires Honest(server, hs, level + 1, index / 256)
    requires Served(server, |hs|, level, index).Some?
    requires (ParentInside(|hs|, level, index);
              Mth(Served(server, |hs|, level, index).value) == Served(server, |hs|, level + 1, index / 256).value[index % 256])
    ensures Honest(server, hs, level, index)
  {
    hide Mth, Tops, Served;
    ParentInside(|hs|, level, index);
    TopsAt(Level(hs, level), index);
    var tile := Served(server, |hs|, level, index).value;
    assert Level(hs, level + 1) == Tops(Level(hs, level));
    assert Served(server, |hs|, level + 1, index / 256).value[index % 256] == Level(hs, level + 1)[index];
    MthInjective(tile, Level(hs, level)[256 * index..256 * index + 256]);
  }

  /** Soundness: whatever the server serves, an answer authenticated by the head
      of a list of entries is the head of its prefix. */
  lemma PrefixRootSound(server: Server, entries: seq<Bytes>, trustedSize: nat)
    requires 0 < trustedSize <= |entries|
    requires PrefixRoot(server, |entries|, Root(entries), trustedSize).Some?
    ensures PrefixRoot(server, |entries|, Root(entries), trustedSize).value == Root(entries[..trustedSize])
  {
    var hs := LeafHashes(entries);
    assert hs + Tail(None) == hs;
    RootFromPins(server, hs, 0, None, None);
    forall key | key in Frontier(0, trustedSize) ensures Honest(server, hs, key.0, key.1) {
      AuthenticIsHonest(server, hs, key.0, key.1);
    }
    RootOfHonest(server, entries, trustedSize);
  }

  lemma RootOfHonest(server: Server, entries: seq<Bytes>, size: nat)
    requires 0 < size <= |entries|
    requires forall key | key in Frontier(0, size) :: Honest(server, LeafHashes(entries), key.0, key.1)
    ensures RootFrom(server, |entries|, 0, size, None) == Some(Root(entries[..size]))
  {
    hide Mth, Honest;
    var hs := LeafHashes(entries);
    UsedFrontier(server, hs, 0, size);
    RootFromHonest(server, hs, 0, size, None);
    assert hs[..size] == LeafHashes(entries[..size]);
    assert hs[..size] + Tail(None) == hs[..size];
  }

  // ---- Servers described by their responses ----

  /** The server gives out the tile: under its own path, the width in it if the tile
      is not full; or, that path being unknown, as the start of the full tile. */
  ghost predicate GivesTile(server: Server, level: nat, index: nat, tile: seq<Hash>) {
    if |tile| == 256 then server(level, index, None) == Body(tile)
    else
      || server(level, index, Some(|tile|)) == Body(tile)
      || (&& server(level, index, Some(|tile|)) == NotFound
          && exists full: seq<Hash> :: |full| == 256 && tile <= full && server(level, index, None) == Body(full))
  }

  /** What the client reads is exactly what the server gives out at the tile's width. */
  lemma ServedExact(server: Server, n: nat, level: nat, index: nat, tile: seq<Hash>)
    requires 256 * index < CountAt(n, level)
    ensures
      var left := CountAt(n, level) - 256 * index;
      Served(server, n, level, index) == Some(tile) <==>
      |tile| == (if left < 256 then left else 256) && GivesTile(server, level, index, tile)
  {
    var width := Width(n, level, index);
    if |tile| == width < 256 && server(level, index, Some(width)) == NotFound {
      var response := server(level, index, None);
      if response.Body? && |response.hashes| == 256 {
        assert tile <= response.hashes <==> response.hashes[..width] == tile;
      }
    }
  }

  /** Tile (level, index) of a log: at most 256 of the subtree roots of its level. */
  function TileOf(hs: seq<Hash>, level: nat, index: nat): seq<Hash>
    requires 256 * index < |Level(hs, level)|
  {
    var roots := Level(hs, level)[256 * index..];
    if |roots| < 256 then roots else roots[..256]
  }

  /** The server gives out every tile of the log. */
  ghost predicate HonestServer(server: Server, hs: seq<Hash>) {
    forall level: nat, index: nat | 256 * index < |Level(hs, level)| :: GivesTile(server, level, index, TileOf(hs, level, index))
  }

  lemma GivenIsHonest(server: Server, hs: seq<Hash>, level: nat, index: nat)
    requires 256 * index < CountAt(|hs|, level) && HonestServer(server, hs)
    ensures Honest(server, hs, level, index)
  {
    hide Level, CountAt, GivesTile, Served;
    var tile := TileOf(hs, level, index);
    assert GivesTile(server, level, index, tile);
    ServedExact(server, |hs|, level, index, tile);
    assert tile == Level(hs, level)[256 * index..256 * index + Width(|hs|, level, index)];
  }

  lemma {:induction false} LevelGrows(hs: seq<Hash>, more: seq<Hash>, level: nat)
    ensures Level(hs, level) <= Level(hs + more, level)
  {
    if level > 0 {
      hide Tops;
      LevelGrows(hs, more, level - 1);
      var below, now := Level(hs, level - 1), Level(hs + more, level - 1);
      assert now[..|below|] == below;
      TopsPrefix(now, |below|);
    }
  }

  /** The log has grown and its server has dropped the partial tiles that have
      become full: every tile of the shorter log is still given out. */
  lemma GrownServerHonest(server: Server, hs: seq<Hash>, more: seq<Hash>)
    requires forall level: nat, index: nat | 256 * index < |Level(hs, level)| ::
               var tile, now := TileOf(hs, level, index), Level(hs + more, level);
               if |tile| < 256 && 256 * index + 256 <= |now|
               then && server(level, index, Some(|tile|)) == NotFound
                    && server(level, index, None) == Body(now[256 * index..256 * index + 256])
               else GivesTile(server, level, index, tile)
    ensures HonestServer(server, hs)
  {
    hide Level;
    forall level: nat, index: nat | 256 * index < |Level(hs, level)|
      ensures GivesTile(server, level, index, TileOf(hs, level, index))
    {
      LevelGrows(hs, more, level);
      var tile, now := TileOf(hs, level, index), Level(hs + more, level);
      if |tile| < 256 && 256 * index + 256 <= |now| {
        assert tile <= now[256 * index..256 * index + 256];
      }
    }
  }

  lemma {:induction false} HonestIsAuthentic(server: Server, hs: seq<Hash>, level: nat, index: nat)
    requires 256 * index < CountAt(|hs|, level) && HonestServer(server, hs)
    ensures Authentic(server, |hs|, level, index)
    decreases CountAt(|hs|, level)
  {
    hide Mth, Tops, Served, HonestServer, Level;
    GivenIsHonest(server, hs, level, index);
    if Width(|hs|, level, index) < 256 {
      NarrowIsFrontier(|hs|, 0, (level, index));
    } else {
      ParentInside(|hs|, level, index);
      HonestIsAuthentic(server, hs, level + 1, index / 256);
      GivenIsHonest(server, hs, level + 1, index / 256);
      LevelNext(hs, level);
      TopsAt(Level(hs, level), index);
    }
  }

  /** Completeness: a server that gives out the tiles of the log lets every prefix be recomputed. */
  lemma PrefixRootComplete(server: Server, entries: seq<Bytes>, trustedSize: nat)
    requires 0 < trustedSize <= |entries|
    requires HonestServer(server, LeafHashes(entries))
    ensures PrefixRoot(server, |entries|, Root(entries), trustedSize) == Some(Root(entries[..trustedSize]))
  {
    hide Mth, Honest, HonestServer;
    var hs := LeafHashes(entries);
    forall size: nat, key | size <= |entries| && key in Frontier(0, size)
      ensures Honest(server, hs, key.0, key.1) && Authentic(server, |hs|, key.0, key.1)
    {
      FrontierInside(|hs|, 0, size, key);
      GivenIsHonest(server, hs, key.0, key.1);
      HonestIsAuthentic(server, hs, key.0, key.1);
    }
    RootOfHonest(server, entries, |entries|);
    assert entries[..|entries|] == entries;
    RootOfHonest(server, entries, trustedSize);
  }
}
