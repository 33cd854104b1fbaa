/** Entry bundles and the complete scan of a log made of them. */
module Bundles {
  import opened Common
  import opened Merkle
  import opened Entries
  import CheckpointTrust

  // ---- The codec ----

  const MAX_ENTRY_BYTES: nat := 0xffff

  datatype BundleError = TruncatedLength | TruncatedEntry

  predicate Fits(es: seq<Bytes>) {
    forall i :: 0 <= i < |es| ==> |es[i]| <= 65535
  }

  /** A 16-bit big-endian length, then the entry. */
  function Frame(e: Bytes): Bytes
    requires |e| <= MAX_ENTRY_BYTES
  {
    [|e| / 256, |e| % 256] + e
  }

  /** The layout of a bundle: its entries framed, one after another. */
  function Frames(es: seq<Bytes>): (bytes: Bytes)
    requires Fits(es)
    ensures |bytes| >= 2 * |es|
  {
    if es == [] then [] else Frame(es[0]) + Frames(es[1..])
  }

  function FrameLength(bytes: Bytes): nat
    requires |bytes| >= 2
  {
    256 * (bytes[0] as nat) + bytes[1]
  }

  function ParseBundle(bytes: Bytes): Result<seq<Bytes>, BundleError> {
    if bytes == [] then Ok([])
    else if |bytes| < 2 then Err(TruncatedLength)
    else if 2 + FrameLength(bytes) > |bytes| then Err(TruncatedEntry)
    else
      var end := 2 + FrameLength(bytes);
      After([bytes[2..end]], ParseBundle(bytes[end..]))
  }

  function After(es: seq<Bytes>, rest: Result<seq<Bytes>, BundleError>): Result<seq<Bytes>, BundleError> {
    if rest.Ok? then Ok(es + rest.value) else rest
  }

  lemma {:induction false} FramesConcat(a: seq<Bytes>, b: seq<Bytes>)
    requires Fits(a) && Fits(b)
    ensures Fits(a + b) && Frames(a + b) == Frames(a) + Frames(b)
  {
    hide Frame, Frames;
    if a == [] {
      FramesOfNone();
      assert a + b == b && Frames(a) + Frames(b) == Frames(b);
    } else {
      var e, rest := a[0], a[1..];
      FramesConcat(rest, b);
      FramesCons(e, rest);
      FramesCons(e, rest + b);
      assert a == [e] + rest && a + b == [e] + (rest + b);
      assert Frame(e) + Frames(rest) + Frames(b) == Frame(e) + (Frames(rest) + Frames(b));
    }
  }

  lemma ParseFrame(e: Bytes, rest: Bytes)
    requires |e| <= MAX_ENTRY_BYTES
    ensures ParseBundle(Frame(e) + rest) == After([e], ParseBundle(rest))
  {
    var bytes := Frame(e) + rest;
    assert FrameLength(bytes) == |e|;
    assert bytes[2..2 + |e|] == e && bytes[2 + |e|..] == rest;
  }

  /** Framed entries are read back, whatever follows them. */
  lemma {:induction false} ParseFrames(es: seq<Bytes>, rest: Bytes)
    requires Fits(es)
    ensures ParseBundle(Frames(es) + rest) == After(es, ParseBundle(rest))
  {
    hide ParseBundle, Frame;
    if es == [] {
      assert Frames(es) + rest == rest;
      AfterConcat(es, es, ParseBundle(rest));
    } else {
      ParseFrames(es[1..], rest);
      assert Frames(es) + rest == Frame(es[0]) + (Frames(es[1..]) + rest);
      ParseFrame(es[0], Frames(es[1..]) + rest);
      AfterConcat([es[0]], es[1..], ParseBundle(rest));
      assert es == [es[0]] + es[1..];
    }
  }

  /** What stops the parser: one byte of a length, or fewer bytes than a length promises. */
  predicate Broken(rest: Bytes, error: BundleError) {
    match error
    case TruncatedLength => |rest| == 1
    case TruncatedEntry => |rest| >= 2 && |rest| - 2 < FrameLength(rest)
  }

  /** Every byte string is some framed entries, and then nothing or a broken rest. */
  lemma {:induction false} Dissect(bytes: Bytes) returns (es: seq<Bytes>, rest: Bytes)
    ensures Fits(es) && bytes == Frames(es) + rest
    ensures match ParseBundle(bytes) case Ok(all) => es == all && rest == [] case Err(error) => Broken(rest, error)
  {
    hide Frames;
    if |bytes| < 2 || 2 + FrameLength(bytes) > |bytes| {
      es, rest := [], bytes;
      FramesOfNone();
    } else {
      var end := 2 + FrameLength(bytes);
      var e := bytes[2..end];
      assert bytes == Frame(e) + bytes[end..];
      var tail;
      tail, rest := Dissect(bytes[end..]);
      es := [e] + tail;
      FramesCons(e, tail);
    }
  }

  lemma FramesOfNone()
    ensures Frames([]) == []
  {
  }

  lemma FramesCons(e: Bytes, es: seq<Bytes>)
    requires |e| <= MAX_ENTRY_BYTES && Fits(es)
    ensures Fits([e] + es) && Frames([e] + es) == Frame(e) + Frames(es)
  {
    assert ([e] + es)[1..] == es;
  }

  /** The codec is a bijection between the lists of entries that fit and the byte
      strings that parse, and an error names exactly how the input ends. */
  lemma CodecExact(bytes: Bytes, es: seq<Bytes>, error: BundleError)
    ensures ParseBundle(bytes) == Ok(es) <==> Fits(es) && Frames(es) == bytes
    ensures ParseBundle(bytes) == Err(error) <==>
            exists head, rest :: Fits(head) && Broken(rest, error) && bytes == Frames(head) + rest
  {
    hide ParseBundle, Frames;
    var head, rest := Dissect(bytes);
    assert rest == [] ==> Frames(head) + rest == Frames(head);
    if Fits(es) && Frames(es) == bytes {
      ParseFrames(es, []);
      ParseNothing();
      assert Frames(es) + [] == bytes && es + [] == es;
    }
    forall head, rest | Fits(head) && Broken(rest, error) && bytes == Frames(head) + rest
      ensures ParseBundle(bytes) == Err(error)
    {
      ParseFrames(head, rest);
      ParseBroken(rest, error);
    }
  }

  lemma ParseNothing()
    ensures ParseBundle([]) == Ok([])
  {
  }

  lemma ParseBroken(rest: Bytes, error: BundleError)
    requires Broken(rest, error)
    ensures ParseBundle(rest) == Err(error)
  {
  }

  method ParseEntryBundle(bytes: Bytes) returns (r: Result<seq<Bytes>, BundleError>)
    ensures r == ParseBundle(bytes)
  {
    hide ParseBundle;
    var out: seq<Bytes> := [];
    var off: nat := 0;
    assert bytes[0..] == bytes;
    AfterConcat([], [], ParseBundle(bytes));
    while off < |bytes|
      invariant off <= |bytes|
      invariant ParseBundle(bytes) == After(out, ParseBundle(bytes[off..]))
    {
      if off + 2 > |bytes| {
        ParseBroken(bytes[off..], TruncatedLength);
        return Err(TruncatedLength);
      }
      var len: nat := 256 * (bytes[off] as nat) + bytes[off + 1];
      off := off + 2;
      if off + len > |bytes| {
        ParseBroken(bytes[off - 2..], TruncatedEntry);
        return Err(TruncatedEntry);
      }
      ParseStep(bytes, off - 2);
      AfterConcat(out, [bytes[off..off + len]], ParseBundle(bytes[off + len..]));
      out := out + [bytes[off..off + len]];
      off := off + len;
    }
    ParseNothing();
    assert bytes[off..] == [] && out + [] == out;
    return Ok(out);
  }

  lemma ParseStep(bytes: Bytes, off: nat)
    requires off + 2 <= |bytes| && off + 2 + FrameLength(bytes[off..]) <= |bytes|
    ensures var end := off + 2 + FrameLength(bytes[off..]);
            ParseBundle(bytes[off..]) == After([bytes[off + 2..end]], ParseBundle(bytes[end..]))
  {
    var rest, len := bytes[off..], FrameLength(bytes[off..]);
    assert rest[2..2 + len] == bytes[off + 2..off + 2 + len] && rest[2 + len..] == bytes[off + 2 + len..];
  }

  lemma AfterConcat(a: seq<Bytes>, b: seq<Bytes>, rest: Result<seq<Bytes>, BundleError>)
    ensures After(a, After(b, rest)) == After(a + b, rest)
    ensures After([], rest) == rest
  {
    if rest.Ok? {
      assert a + (b + rest.value) == a + b + rest.value;
      assert [] + rest.value == rest.value;
    }
  }

  /** Writes the length and the bytes of one entry, after what is already written. */
  method WriteFrame(out: array<Byte>, off: nat, e: Bytes)
    requires |e| <= MAX_ENTRY_BYTES && off + 2 + |e| <= out.Length
    modifies out
    ensures out[..off + 2 + |e|] == old(out[..off]) + Frame(e)
  {
    ghost var before := out[..off];
    out[off] := |e| / 256;
    out[off + 1] := |e| % 256;
    forall j | 0 <= j < |e| {
      out[off + 2 + j] := e[j];
    }
    assert out[..off] == before;
  }

  /** The result is None when an entry is too large for its length prefix. */
  method EncodeEntryBundle(entries: seq<Bytes>) returns (r: Option<array<Byte>>)
    ensures r.Some? <==> Fits(entries)
    ensures r.Some? ==> r.value[..] == Frames(entries)
  {
    hide Frames, Frame;
    var size: nat := 0;
    for k := 0 to |entries|
      invariant size + Size(entries[k..]) == Size(entries)
    {
      size := size + 2 + |entries[k]|;
    }
    var out := new Byte[size];
    FramesOfNone();
    var off: nat := 0;
    for k := 0 to |entries|
      invariant off + Size(entries[k..]) == out.Length
      invariant Fits(entries[..k]) && out[..off] == Frames(entries[..k])
    {
      var e := entries[k];
      if |e| > MAX_ENTRY_BYTES {
        return None;
      }
      FramesStep(entries, k);
      WriteFrame(out, off, e);
      off := off + 2 + |e|;
    }
    assert entries[..|entries|] == entries;
    return Some(out);
  }

  function Size(es: seq<Bytes>): nat {
    if es == [] then 0 else 2 + |es[0]| + Size(es[1..])
  }

  lemma FramesStep(es: seq<Bytes>, k: nat)
    requires k < |es|
    ensures Fits(es[..k + 1]) <==> Fits(es[..k]) && |es[k]| <= MAX_ENTRY_BYTES
    ensures Fits(es[..k + 1]) ==> Frames(es[..k + 1]) == Frames(es[..k]) + Frame(es[k])
  {
    assert es[..k + 1] == es[..k] + [es[k]];
    if Fits(es[..k]) && |es[k]| <= MAX_ENTRY_BYTES {
      FramesConcat(es[..k], [es[k]]);
    }
  }

  // ---- The complete scan ----

  const ENTRIES_PER_BUNDLE: nat := 256

  datatype Limits = Limits(maxTreeSize: nat, maxEntryBundleBytes: nat, maxTotalEntryBytes: nat)

  /** What a log answers for bundle n, whole or cut to a width; None is a failed fetch. */
  type Server = (nat, Option<nat>) -> Option<Bytes>

  datatype ScanError = TreeTooLarge | FetchFailed | TooManyBytes | BadBundle(error: BundleError) | WidthMismatch | OutOfRange

  /** How many entries bundle b of a log of n entries holds. */
  function Want(n: nat, b: nat): (want: nat)
    requires ENTRIES_PER_BUNDLE * b < n
    ensures 0 < want <= ENTRIES_PER_BUNDLE && ENTRIES_PER_BUNDLE * b + want <= n
  {
    if n - ENTRIES_PER_BUNDLE * b < ENTRIES_PER_BUNDLE then n - ENTRIES_PER_BUNDLE * b else ENTRIES_PER_BUNDLE
  }

  function Fetch(server: Server, limits: Limits, n: nat, b: nat): Option<Bytes>
    requires ENTRIES_PER_BUNDLE * b < n
  {
    var want := Want(n, b);
    var reply := server(b, if want == ENTRIES_PER_BUNDLE then None else Some(want));
    if reply.Some? && |reply.value| > limits.maxEntryBundleBytes then None else reply
  }

  /** The entries of a list, each with its position in the log. */
  function Numbered(entries: seq<Bytes>, from: nat): (es: seq<Indexed<Bytes>>)
    ensures |es| == |entries|
    ensures forall i :: 0 <= i < |es| ==> es[i] == Indexed(from + i, entries[i])
  {
    seq(|entries|, i requires 0 <= i < |entries| => Indexed(from + i, entries[i]))
  }

  /** The bundle loop from bundle b on, `total` bytes having been read before it. */
  function ScanFrom(server: Server, limits: Limits, n: nat, b: nat, total: nat): Result<seq<Indexed<Bytes>>, ScanError>
    decreases n - ENTRIES_PER_BUNDLE * b
  {
    if ENTRIES_PER_BUNDLE * b >= n then Ok([])
    else
      var reply := Fetch(server, limits, n, b);
      if reply.None? then Err(FetchFailed)
      else if total + |reply.value| > limits.maxTotalEntryBytes then Err(TooManyBytes)
      else
        var bundle := ParseBundle(reply.value);
        if bundle.Err? then Err(BadBundle(bundle.error))
        else if |bundle.value| != Want(n, b) then Err(WidthMismatch)
        else
          AfterEntries(Numbered(bundle.value, ENTRIES_PER_BUNDLE * b),
                       ScanFrom(server, limits, n, b + 1, total + |reply.value|))
  }

  function AfterEntries(es: seq<Indexed<Bytes>>, rest: Result<seq<Indexed<Bytes>>, ScanError>): Result<seq<Indexed<Bytes>>, ScanError> {
    if rest.Ok? then Ok(es + rest.value) else rest
  }

  function Scan(server: Server, limits: Limits, n: nat): Result<seq<Indexed<Bytes>>, ScanError> {
    if n > limits.maxTreeSize then Err(TreeTooLarge) else ScanFrom(server, limits, n, 0, 0)
  }

  method LoadEntries(server: Server, limits: Limits, n: nat) returns (r: Result<seq<Indexed<Bytes>>, ScanError>)
    ensures r == Scan(server, limits, n)
  {
    hide ParseBundle, Fetch, Want;
    if n > limits.maxTreeSize {
      return Err(TreeTooLarge);
    }
    var entries: seq<Indexed<Bytes>> := [];
    var total: nat := 0;
    var b: nat := 0;
    AfterEntriesConcat([], [], ScanFrom(server, limits, n, 0, 0));
    while ENTRIES_PER_BUNDLE * b < n
      invariant ScanFrom(server, limits, n, 0, 0) == AfterEntries(entries, ScanFrom(server, limits, n, b, total))
      decreases n - ENTRIES_PER_BUNDLE * b
    {
      var want := Want(n, b);
      var reply := Fetch(server, limits, n, b);
      if reply.None? {
        return Err(FetchFailed);
      }
      total := total + |reply.value|;
      if total > limits.maxTotalEntryBytes {
        return Err(TooManyBytes);
      }
      var bundle := ParseEntryBundle(reply.value);
      if bundle.Err? {
        return Err(BadBundle(bundle.error));
      }
      if |bundle.value| != want {
        return Err(WidthMismatch);
      }
      ghost var numbered := Numbered(bundle.value, ENTRIES_PER_BUNDLE * b);
      ghost var before := entries;
      for i := 0 to |bundle.value|
        invariant entries == before + numbered[..i]
      {
        entries := entries + [Indexed(ENTRIES_PER_BUNDLE * b + i, bundle.value[i])];
      }
      assert entries == before + numbered;
      AfterEntriesConcat(before, numbered, ScanFrom(server, limits, n, b + 1, total));
      b := b + 1;
    }
    assert entries + [] == entries;
    return Ok(entries);
  }

  lemma AfterEntriesConcat(a: seq<Indexed<Bytes>>, b: seq<Indexed<Bytes>>, rest: Result<seq<Indexed<Bytes>>, ScanError>)
    ensures AfterEntries(a, AfterEntries(b, rest)) == AfterEntries(a + b, rest)
    ensures AfterEntries([], rest) == rest
  {
    if rest.Ok? {
      assert a + (b + rest.value) == a + b + rest.value;
      assert [] + rest.value == rest.value;
    }
  }

  /** The entries of bundle b. */
  function Slice(log: seq<Bytes>, b: nat): (es: seq<Bytes>)
    requires ENTRIES_PER_BUNDLE * b < |log|
    ensures |es| == Want(|log|, b)
  {
    var rest := log[ENTRIES_PER_BUNDLE * b..];
    if |rest| < 256 then rest else rest[..256]
  }

  /** Where bundle b starts, at most n. */
  function Start(n: nat, b: nat): (i: nat)
    ensures i <= n
  {
    if ENTRIES_PER_BUNDLE * b < n then ENTRIES_PER_BUNDLE * b else n
  }

  lemma SliceRest(log: seq<Bytes>, b: nat)
    requires ENTRIES_PER_BUNDLE * b < |log|
    ensures log[Start(|log|, b)..] == Slice(log, b) + log[Start(|log|, b + 1)..]
    ensures Start(|log|, b + 1) == Start(|log|, b) + Want(|log|, b)
  {
  }

  /** Every accepted scan numbers its entries in order, with none missing. */
  lemma {:induction false} ScanShape(server: Server, limits: Limits, n: nat, b: nat, total: nat)
    ensures var r := ScanFrom(server, limits, n, b, total);
            r.Ok? ==> |r.value| == n - Start(n, b) &&
                      r.value == Numbered(CheckpointTrust.EntryBytes(r.value), Start(n, b))
    decreases n - ENTRIES_PER_BUNDLE * b
  {
    hide ParseBundle;
    if ENTRIES_PER_BUNDLE * b < n {
      var reply := Fetch(server, limits, n, b);
      if reply.Some? {
        ScanShape(server, limits, n, b + 1, total + |reply.value|);
      }
    }
  }

  /** The server's bundle b is the framed slice of the log that belongs there. */
  ghost predicate ServesSlice(server: Server, limits: Limits, log: seq<Bytes>, b: nat)
    requires ENTRIES_PER_BUNDLE * b < |log|
  {
    var slice := Slice(log, b);
    && Fits(slice) && |Frames(slice)| <= limits.maxEntryBundleBytes
    && server(b, if |slice| == 256 then None else Some(|slice|)) == Some(Frames(slice))
  }

  lemma SliceFetched(server: Server, limits: Limits, log: seq<Bytes>, b: nat)
    requires ENTRIES_PER_BUNDLE * b < |log|
    ensures ServesSlice(server, limits, log, b) <==>
            Fits(Slice(log, b)) && Fetch(server, limits, |log|, b) == Some(Frames(Slice(log, b)))
  {
    hide Frames, Slice;
  }

  /** The same of every bundle from b on, whose bytes together stay within the budget. */
  ghost predicate Serves(server: Server, limits: Limits, log: seq<Bytes>, b: nat, total: nat) {
    var i := Start(|log|, b);
    && (forall c: nat | b <= c && ENTRIES_PER_BUNDLE * c < |log| :: ServesSlice(server, limits, log, c))
    && Fits(log[i..])
    && total + |Frames(log[i..])| <= limits.maxTotalEntryBytes
  }

  lemma ServesStep(server: Server, limits: Limits, log: seq<Bytes>, b: nat, total: nat)
    requires ENTRIES_PER_BUNDLE * b < |log|
    ensures Serves(server, limits, log, b, total) <==>
            ServesSlice(server, limits, log, b) &&
            Serves(server, limits, log, b + 1, total + |Frames(Slice(log, b))|)
  {
    hide Frames, Fetch, Want;
    var here, later := Slice(log, b), log[Start(|log|, b + 1)..];
    SliceRest(log, b);
    FitsConcat(here, later);
    if Fits(here) && Fits(later) {
      FramesConcat(here, later);
    }
  }

  lemma FitsConcat(a: seq<Bytes>, b: seq<Bytes>)
    ensures Fits(a + b) <==> Fits(a) && Fits(b)
  {
    if Fits(a + b) {
      assert forall i :: 0 <= i < |a| ==> (a + b)[i] == a[i];
      assert forall i :: 0 <= i < |b| ==> (a + b)[|a| + i] == b[i];
    }
  }

  /** One bundle: the loop goes on to return the log exactly when this bundle is
      the log's own and the rest of the loop returns the rest. */
  lemma ScanStep(server: Server, limits: Limits, log: seq<Bytes>, b: nat, total: nat)
    requires ENTRIES_PER_BUNDLE * b < |log|
    ensures Returns(server, limits, log, b, total) <==>
            && ServesSlice(server, limits, log, b)
            && total + |Frames(Slice(log, b))| <= limits.maxTotalEntryBytes
            && Returns(server, limits, log, b + 1, total + |Frames(Slice(log, b))|)
  {
    hide ParseBundle, Frames, Fetch, Want, ScanFrom, Numbered, Slice, Fits;
    var n, i := |log|, Start(|log|, b);
    var here, later := Slice(log, b), log[Start(|log|, b + 1)..];
    SliceRest(log, b);
    NumberedConcat(here, later, i);
    ScanUnfolds(server, limits, n, b, total);
    SliceFetched(server, limits, log, b);
    hide ServesSlice;
    var reply := Fetch(server, limits, n, b);
    if reply.Some? && total + |reply.value| <= limits.maxTotalEntryBytes && ParseBundle(reply.value).Ok?
       && |ParseBundle(reply.value).value| == Want(n, b) {
      CodecExact(reply.value, here, TruncatedEntry);
      var bundle, rest := ParseBundle(reply.value).value, ScanFrom(server, limits, n, b + 1, total + |reply.value|);
      if rest.Ok? {
        SamePrefix(bundle, here, i, rest.value, Numbered(later, i + |here|));
      }
    } else if ServesSlice(server, limits, log, b) {
      CodecExact(reply.value, here, TruncatedEntry);
    }
  }

  /** One round of the bundle loop. */
  lemma ScanUnfolds(server: Server, limits: Limits, n: nat, b: nat, total: nat)
    requires ENTRIES_PER_BUNDLE * b < n
    ensures
      var reply, r := Fetch(server, limits, n, b), ScanFrom(server, limits, n, b, total);
      if reply.Some? && total + |reply.value| <= limits.maxTotalEntryBytes && ParseBundle(reply.value).Ok?
         && |ParseBundle(reply.value).value| == Want(n, b)
      then r == AfterEntries(Numbered(ParseBundle(reply.value).value, ENTRIES_PER_BUNDLE * b),
                             ScanFrom(server, limits, n, b + 1, total + |reply.value|))
      else r.Err?
  {
    hide ParseBundle, Fetch, Want, Numbered;
  }

  lemma NumberedConcat(a: seq<Bytes>, b: seq<Bytes>, from: nat)
    ensures Numbered(a + b, from) == Numbered(a, from) + Numbered(b, from + |a|)
  {
  }

  lemma SamePrefix(a: seq<Bytes>, b: seq<Bytes>, from: nat, x: seq<Indexed<Bytes>>, y: seq<Indexed<Bytes>>)
    requires |a| == |b|
    ensures Numbered(a, from) + x == Numbered(b, from) + y <==> a == b && x == y
  {
    var s, t := Numbered(a, from) + x, Numbered(b, from) + y;
    if s == t {
      assert s[..|a|] == Numbered(a, from) && t[..|a|] == Numbered(b, from);
      assert s[|a|..] == x && t[|a|..] == y;
      forall i | 0 <= i < |a| ensures a[i] == b[i] {
        assert Numbered(a, from)[i].bytes == Numbered(b, from)[i].bytes;
      }
    }
  }

  /** The bundle loop returns the part of the log it is to read. */
  ghost predicate Returns(server: Server, limits: Limits, log: seq<Bytes>, b: nat, total: nat) {
    ScanFrom(server, limits, |log|, b, total) == Ok(Numbered(log[Start(|log|, b)..], Start(|log|, b)))
  }

  lemma {:induction false} ReturnsServed(server: Server, limits: Limits, log: seq<Bytes>, b: nat, total: nat)
    requires total <= limits.maxTotalEntryBytes
    ensures Returns(server, limits, log, b, total) <==> Serves(server, limits, log, b, total)
    decreases |log| - ENTRIES_PER_BUNDLE * b
  {
    hide Returns, Serves, Fetch, Frames, Slice, Want;
    if ENTRIES_PER_BUNDLE * b >= |log| {
      NothingServed(server, limits, log, b, total);
    } else {
      ScanStep(server, limits, log, b, total);
      ServesStep(server, limits, log, b, total);
      if ServesSlice(server, limits, log, b) {
        var total' := total + |Frames(Slice(log, b))|;
        ServedWithin(server, limits, log, b + 1, total');
        if total' <= limits.maxTotalEntryBytes {
          ReturnsServed(server, limits, log, b + 1, total');
        }
      }
    }
  }

  lemma NothingServed(server: Server, limits: Limits, log: seq<Bytes>, b: nat, total: nat)
    requires ENTRIES_PER_BUNDLE * b >= |log| && total <= limits.maxTotalEntryBytes
    ensures Returns(server, limits, log, b, total) && Serves(server, limits, log, b, total)
  {
  }

  lemma ServedWithin(server: Server, limits: Limits, log: seq<Bytes>, b: nat, total: nat)
    ensures Serves(server, limits, log, b, total) ==> total <= limits.maxTotalEntryBytes
  {
  }

  /** A scan returns every index of the log once, with its own entry, exactly when
      the log is small enough, every bundle served is the framed slice of at most
      256 entries that belongs there, and the framed log fits the byte budget. */
  lemma ScanExact(server: Server, limits: Limits, log: seq<Bytes>)
    ensures Scan(server, limits, |log|) == Ok(CheckpointTrust.IndexedEntries(log)) <==>
            |log| <= limits.maxTreeSize && Serves(server, limits, log, 0, 0)
  {
    hide ScanFrom, Serves;
    assert log[0..] == log && CheckpointTrust.IndexedEntries(log) == Numbered(log, 0);
    ReturnsServed(server, limits, log, 0, 0);
  }

  /** Whatever bytes were served, a scan whose entries hash to the root of a log of
      the scanned size is that log, index by index. */
  lemma ScanAuthenticated(server: Server, limits: Limits, log: seq<Bytes>)
    requires var r := Scan(server, limits, |log|);
             r.Ok? && Root(CheckpointTrust.EntryBytes(r.value)) == Root(log)
    ensures Scan(server, limits, |log|) == Ok(CheckpointTrust.IndexedEntries(log))
  {
    hide ScanFrom, Root;
    var es := Scan(server, limits, |log|).value;
    ScanShape(server, limits, |log|, 0, 0);
    RootInjective(CheckpointTrust.EntryBytes(es), log);
    assert es == CheckpointTrust.IndexedEntries(log);
  }

  /** The reader's own check of a scan, whoever supplied it: in index order the
      entries are 0 to n - 1, and they hash to the root of the checkpoint. */
  predicate CompleteScan(es: seq<Indexed<Bytes>>, n: nat, root: Hash) {
    var sorted := SortByIndex(es);
    && |sorted| == n
    && (forall i :: 0 <= i < n ==> sorted[i].index == i)
    && Root(CheckpointTrust.EntryBytes(sorted)) == root
  }

  method AssertCompleteScan(es: seq<Indexed<Bytes>>, n: nat, root: Hash) returns (ok: bool)
    ensures ok <==> CompleteScan(es, n, root)
  {
    hide Root;
    var sorted := SortByIndex(es);
    if |sorted| != n {
      return false;
    }
    for i := 0 to |sorted|
      invariant forall j :: 0 <= j < i ==> sorted[j].index == j
    {
      if sorted[i].index != i {
        return false;
      }
    }
    var computed := MerkleRootFromEntries(CheckpointTrust.EntryBytes(sorted));
    return computed == root;
  }

  /** The check accepts exactly the entries of the log the checkpoint commits to, in any order. */
  lemma CompleteScanExact(es: seq<Indexed<Bytes>>, log: seq<Bytes>)
    ensures CompleteScan(es, |log|, Root(log)) <==> multiset(es) == multiset(CheckpointTrust.IndexedEntries(log))
  {
    hide Root, SortByIndex;
    var sorted, own := SortByIndex(es), CheckpointTrust.IndexedEntries(log);
    SortKeeps(es);
    if multiset(es) == multiset(own) {
      CheckpointTrust.SortedScan(log, 0);
      assert own[0..] == own;
      CheckpointTrust.DistinctScan(log);
      SortedUnique(own, sorted);
      assert CheckpointTrust.EntryBytes(own) == log;
    }
    if CompleteScan(es, |log|, Root(log)) {
      RootInjective(CheckpointTrust.EntryBytes(sorted), log);
      assert sorted == own;
    }
  }

  /** `discoverEntry`: one entry out of the one bundle that holds it. */
  function Discover(server: Server, limits: Limits, n: nat, index: int): Result<Indexed<Bytes>, ScanError> {
    if !(0 <= index < n) then Err(OutOfRange)
    else
      var reply := Fetch(server, limits, n, index / ENTRIES_PER_BUNDLE);
      if reply.None? then Err(FetchFailed)
      else
        var bundle := ParseBundle(reply.value);
        if bundle.Err? then Err(BadBundle(bundle.error))
        else if |bundle.value| != Want(n, index / ENTRIES_PER_BUNDLE) then Err(WidthMismatch)
        else Ok(Indexed(index, bundle.value[index % ENTRIES_PER_BUNDLE]))
  }

  /** Looking up one index gives what the complete scan has there. */
  lemma DiscoverMatchesScan(server: Server, limits: Limits, n: nat, index: nat)
    requires index < n && Scan(server, limits, n).Ok?
    ensures var es := Scan(server, limits, n).value;
            index < |es| && Discover(server, limits, n, index) == Ok(es[index])
  {
    hide ScanFrom, Serves, Frames, ParseBundle, Fetch;
    ScanShape(server, limits, n, 0, 0);
    var log := CheckpointTrust.EntryBytes(Scan(server, limits, n).value);
    assert Scan(server, limits, n).value == CheckpointTrust.IndexedEntries(log);
    ScanExact(server, limits, log);
    ServedSlice(server, limits, log, index / ENTRIES_PER_BUNDLE);
    SliceFetched(server, limits, log, index / ENTRIES_PER_BUNDLE);
    var here := Slice(log, index / ENTRIES_PER_BUNDLE);
    CodecExact(Frames(here), here, TruncatedEntry);
    assert here[index % ENTRIES_PER_BUNDLE] == log[index];
  }

  lemma ServedSlice(server: Server, limits: Limits, log: seq<Bytes>, b: nat)
    requires Serves(server, limits, log, 0, 0) && ENTRIES_PER_BUNDLE * b < |log|
    ensures ServesSlice(server, limits, log, b)
  {
  }
}
