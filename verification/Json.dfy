/** The two lexical JSON scanners against the syntax tree of the text they scan.

    A document is a tree that keeps every space and every escape, so printing
    trees gives every well-formed text. */
module Json {
  import opened Common

  // ---- Texts ----

  /** The four white space characters of JSON. */
  predicate Space(c: char) {
    c == ' ' || c == '\t' || c == '\n' || c == '\r'
  }

  predicate Spaces(s: string) {
    forall i :: 0 <= i < |s| ==> Space(s[i])
  }

  predicate Structural(c: char) {
    c in {'{', '}', '[', ']', ',', ':', '"', '\\'} || Space(c) || Blank(c)
  }

  /** A number, true, false or null. */
  predicate Token(s: string) {
    s != "" && forall i :: 0 <= i < |s| ==> !Structural(s[i])
  }

  /** The inside of a string literal: every quote and backslash is escaped. */
  predicate Raw(s: string) {
    s == "" ||
    if s[0] == '\\' then |s| > 1 && Raw(s[2..]) else s[0] != '"' && Raw(s[1..])
  }

  datatype Value =
    | Scalar(token: string)
    | Text(raw: string)
    | Container(keyed: bool, gap: string, items: Items)

  /** Elements or members: white space, the member's name and colon when the
      container is an object, the value, white space. */
  datatype Items =
    | End
    | Item(lead: string, name: string, beforeColon: string, afterColon: string, value: Value, trail: string, next: Items)

  predicate WellFormed(v: Value) {
    match v
    case Scalar(token) => Token(token)
    case Text(raw) => Raw(raw)
    case Container(_, gap, items) => Spaces(gap) && WellFormedItems(items)
  }

  predicate WellFormedItems(items: Items) {
    items.Item? ==>
      && Spaces(items.lead) && Raw(items.name) && Spaces(items.beforeColon) && Spaces(items.afterColon)
      && WellFormed(items.value) && Spaces(items.trail) && WellFormedItems(items.next)
  }

  /** The text of a value, followed by the rest of the document. */
  function Print(v: Value, rest: string): string
    decreases v
  {
    match v
    case Scalar(token) => token + rest
    case Text(raw) => "\"" + (raw + ("\"" + rest))
    case Container(keyed, gap, items) =>
      [if keyed then '{' else '['] + (gap + PrintItems(items, keyed, "", [if keyed then '}' else ']'] + rest))
  }

  function PrintItems(items: Items, keyed: bool, separator: string, rest: string): string
    decreases items
  {
    match items
    case End => rest
    case Item(lead, name, beforeColon, afterColon, value, trail, next) =>
      var tail := Print(value, trail + PrintItems(next, keyed, ",", rest));
      separator + (lead + (if keyed then "\"" + (name + ("\"" + (beforeColon + (":" + (afterColon + tail))))) else tail))
  }

  /** A whole document. */
  function Document(lead: string, v: Value, trail: string): string {
    lead + Print(v, trail)
  }

  // ---- The depth scanner ----

  const MAX_JSON_DEPTH: int := 64

  /** The length of the rest of a string literal, its closing quote included. */
  function LiteralLength(s: string): (n: nat)
    ensures n <= |s|
  {
    if s == "" then 0
    else if s[0] == '"' then 1
    else if s[0] == '\\' then (if |s| == 1 then 1 else 2 + LiteralLength(s[2..]))
    else 1 + LiteralLength(s[1..])
  }

  /** The next character that the given class does not skip is a colon. */
  predicate ColonNext(s: string, skip: char -> bool) {
    s != "" && if skip(s[0]) then ColonNext(s[1..], skip) else s[0] == ':'
  }

  /** `assertJsonDepth` from a position on, at the given depth. */
  predicate DepthScan(s: string, depth: int)
    decreases |s|
  {
    if s == "" then true
    else
      var c := s[0];
      if c == '}' || c == ']' then DepthScan(s[1..], depth - 1)
      else if Space(c) || c == ',' || c == ':' then DepthScan(s[1..], depth)
      else if c == '"' then
        var rest := s[1 + LiteralLength(s[1..])..];
        (ColonNext(rest, Space) || depth <= MAX_JSON_DEPTH) && DepthScan(rest, depth)
      else depth <= MAX_JSON_DEPTH && DepthScan(s[1..], if c == '{' || c == '[' then depth + 1 else depth)
  }

  /** The depth of the deepest value inside, counted from this one. */
  function Height(v: Value): nat {
    match v
    case Container(_, _, items) => HeightItems(items)
    case _ => 0
  }

  function HeightItems(items: Items): nat {
    match items
    case End => 0
    case Item(_, _, _, _, value, _, next) =>
      var own, others := 1 + Height(value), HeightItems(next);
      if own >= others then own else others
  }

  // ---- Lexical steps ----

  lemma {:induction false} DepthSpaces(w: string, rest: string, depth: int)
    requires Spaces(w)
    ensures DepthScan(w + rest, depth) == DepthScan(rest, depth)
  {
    if w == "" {
      assert w + rest == rest;
    } else {
      DepthSpaces(w[1..], rest, depth);
      assert (w + rest)[1..] == w[1..] + rest;
    }
  }

  lemma {:induction false} DepthToken(t: string, rest: string, depth: int)
    requires Token(t)
    ensures DepthScan(t + rest, depth) <==> depth <= MAX_JSON_DEPTH && DepthScan(rest, depth)
  {
    assert !Structural(t[0]);
    assert (t + rest)[1..] == t[1..] + rest;
    if |t| == 1 {
      assert t[1..] + rest == rest;
    } else {
      DepthToken(t[1..], rest, depth);
    }
  }

  lemma {:induction false} LiteralEnds(raw: string, rest: string)
    requires Raw(raw)
    ensures LiteralLength(raw + ("\"" + rest)) == |raw| + 1
  {
    var s := raw + ("\"" + rest);
    if raw == "" {
      assert s[0] == '"';
    } else if raw[0] == '\\' {
      LiteralEnds(raw[2..], rest);
      assert s[2..] == raw[2..] + ("\"" + rest);
    } else {
      LiteralEnds(raw[1..], rest);
      assert s[1..] == raw[1..] + ("\"" + rest);
    }
  }

  lemma {:induction false} DepthLiteral(raw: string, rest: string, depth: int)
    requires Raw(raw)
    ensures DepthScan("\"" + (raw + ("\"" + rest)), depth) <==>
            (ColonNext(rest, Space) || depth <= MAX_JSON_DEPTH) && DepthScan(rest, depth)
  {
    LiteralEnds(raw, rest);
    var s := "\"" + (raw + ("\"" + rest));
    assert s[1..] == raw + ("\"" + rest);
    assert s[1 + (|raw| + 1)..] == rest;
  }

  lemma {:induction false} ColonAfterSpaces(w: string, rest: string, skip: char -> bool)
    requires forall i :: 0 <= i < |w| ==> skip(w[i])
    ensures ColonNext(w + rest, skip) == ColonNext(rest, skip)
  {
    if w == "" {
      assert w + rest == rest;
    } else {
      ColonAfterSpaces(w[1..], rest, skip);
      assert (w + rest)[1..] == w[1..] + rest;
    }
  }

  // ---- The depth scanner against the tree ----

  lemma {:induction false} DepthChar(c: char, rest: string, depth: int)
    ensures c == '}' || c == ']' ==> DepthScan([c] + rest, depth) == DepthScan(rest, depth - 1)
    ensures c == ',' || c == ':' ==> DepthScan([c] + rest, depth) == DepthScan(rest, depth)
    ensures c == '{' || c == '[' ==> (DepthScan([c] + rest, depth) <==> depth <= MAX_JSON_DEPTH && DepthScan(rest, depth + 1))
    ensures !Space(c) ==> ColonNext([c] + rest, Space) == (c == ':')
  {
    assert ([c] + rest)[1..] == rest;
  }

  lemma {:induction false} DepthOfValue(v: Value, rest: string, depth: int)
    requires WellFormed(v) && !ColonNext(rest, Space)
    ensures DepthScan(Print(v, rest), depth) <==> depth + Height(v) <= MAX_JSON_DEPTH && DepthScan(rest, depth)
    decreases v
  {
    hide DepthScan, ColonNext;
    match v
    case Scalar(token) => DepthToken(token, rest, depth);
    case Text(raw) => DepthLiteral(raw, rest, depth);
    case Container(keyed, gap, items) =>
      var close := [if keyed then '}' else ']'] + rest;
      var inside := PrintItems(items, keyed, "", close);
      DepthChar(if keyed then '{' else '[', gap + inside, depth);
      DepthSpaces(gap, inside, depth + 1);
      DepthChar(if keyed then '}' else ']', rest, depth + 1);
      DepthOfItems(items, keyed, "", close, depth + 1);
  }

  lemma {:induction false} DepthOfItems(items: Items, keyed: bool, separator: string, rest: string, depth: int)
    requires WellFormedItems(items) && !ColonNext(rest, Space) && separator in {"", ","}
    ensures DepthScan(PrintItems(items, keyed, separator, rest), depth) <==>
            (items.End? || depth - 1 + HeightItems(items) <= MAX_JSON_DEPTH) && DepthScan(rest, depth)
    ensures separator == "," ==> !ColonNext(PrintItems(items, keyed, separator, rest), Space)
    decreases items
  {
    if items.Item? {
      var more := PrintItems(items.next, keyed, ",", rest);
      DepthOfItems(items.next, keyed, ",", rest, depth);
      var after := items.trail + more;
      ColonAfterSpaces(items.trail, more, Space);
      DepthSpaces(items.trail, more, depth);
      var tail := Print(items.value, after);
      DepthOfValue(items.value, after, depth);
      DepthOfLead(items, keyed, separator, tail, depth);
    }
  }

  /** Everything before a value: separator, white space, member name and colon. */
  lemma {:induction false} DepthOfLead(items: Items, keyed: bool, separator: string, tail: string, depth: int)
    requires items.Item? && WellFormedItems(items) && separator in {"", ","}
    ensures
      var named := if keyed then "\"" + (items.name + ("\"" + (items.beforeColon + (":" + (items.afterColon + tail))))) else tail;
      && DepthScan(separator + (items.lead + named), depth) == DepthScan(tail, depth)
      && (separator == "," ==> !ColonNext(separator + (items.lead + named), Space))
  {
    var value := items.afterColon + tail;
    var colon := items.beforeColon + (":" + value);
    DepthSpaces(items.afterColon, tail, depth);
    DepthChar(':', value, depth);
    DepthSpaces(items.beforeColon, ":" + value, depth);
    ColonAfterSpaces(items.beforeColon, ":" + value, Space);
    DepthLiteral(items.name, colon, depth);
    var named := if keyed then "\"" + (items.name + ("\"" + colon)) else tail;
    DepthSpaces(items.lead, named, depth);
    var led := items.lead + named;
    if separator == "," {
      DepthChar(',', led, depth);
    } else {
      assert separator + led == led;
    }
  }

  lemma {:induction false} NoColonInSpaces(w: string)
    requires Spaces(w)
    ensures !ColonNext(w, Space) && !ColonNext(w, Blank)
    ensures forall depth: int :: DepthScan(w, depth)
  {
    if w != "" {
      NoColonInSpaces(w[1..]);
    }
  }

  /** The byte scan rejects a well-formed document exactly when some value lies deeper than 64. */
  lemma DepthScanExact(lead: string, v: Value, trail: string)
    requires Spaces(lead) && WellFormed(v) && Spaces(trail)
    ensures DepthScan(Document(lead, v, trail), 0) <==> Height(v) <= 64
  {
    NoColonInSpaces(trail);
    DepthSpaces(lead, Print(v, trail), 0);
    DepthOfValue(v, trail, 0);
  }

  /** The index loop itself. */
  method AssertJsonDepth(text: string) returns (ok: bool)
    ensures ok <==> DepthScan(text, 0)
  {
    hide DepthScan, ColonNext, LiteralLength;
    var depth := 0;
    var i := 0;
    assert text[0..] == text;
    DepthEnd(0);
    while i < |text|
      invariant 0 <= i <= |text|
      invariant DepthScan(text[i..], depth) <==> DepthScan(text, 0)
    {
      var c := text[i];
      DepthAt(text, i, depth);
      if c == '}' || c == ']' {
        depth, i := depth - 1, i + 1;
        continue;
      }
      if Space(c) || c == ',' || c == ':' {
        i := i + 1;
        continue;
      }
      if c == '"' {
        var end := SkipLiteral(text, i + 1);
        var colon := LookForColon(text, end);
        i := end;
        if colon { continue; }
        if depth > MAX_JSON_DEPTH { return false; }
        continue;
      }
      if depth > MAX_JSON_DEPTH { return false; }
      if c == '{' || c == '[' { depth := depth + 1; }
      i := i + 1;
    }
    DepthEnd(depth);
    assert text[i..] == "";
    return true;
  }

  lemma DepthEnd(depth: int)
    ensures DepthScan("", depth)
  {
  }

  /** One step of the scan, by positions in the text. */
  lemma DepthAt(text: string, i: nat, depth: int)
    requires i < |text|
    ensures
      var c, end := text[i], i + 1 + LiteralLength(text[i + 1..]);
      DepthScan(text[i..], depth) <==>
        if c == '}' || c == ']' then DepthScan(text[i + 1..], depth - 1)
        else if Space(c) || c == ',' || c == ':' then DepthScan(text[i + 1..], depth)
        else if c == '"' then (ColonNext(text[end..], Space) || depth <= MAX_JSON_DEPTH) && DepthScan(text[end..], depth)
        else depth <= MAX_JSON_DEPTH && DepthScan(text[i + 1..], if c == '{' || c == '[' then depth + 1 else depth)
  {
    hide ColonNext, LiteralLength;
    var here := text[i..];
    assert here[1..] == text[i + 1..];
    assert here[1 + LiteralLength(here[1..])..] == text[i + 1 + LiteralLength(text[i + 1..])..];
  }

  /** The inner loop over a string literal; returns the position after its closing quote. */
  method SkipLiteral(text: string, start: nat) returns (end: nat)
    requires start <= |text|
    ensures end == start + LiteralLength(text[start..])
    ensures start <= end <= |text|
  {
    var i := start;
    while i < |text| && text[i] != '"'
      invariant start <= i <= |text|
      invariant i + LiteralLength(text[i..]) == start + LiteralLength(text[start..])
    {
      assert text[i..][1..] == text[i + 1..];
      if text[i] == '\\' {
        if i + 1 == |text| {
          i := i + 1;
        } else {
          assert text[i..][2..] == text[i + 2..];
          i := i + 2;
        }
      } else {
        i := i + 1;
      }
    }
    end := if i < |text| then i + 1 else i;
  }

  method LookForColon(text: string, start: nat) returns (colon: bool)
    requires start <= |text|
    ensures colon <==> ColonNext(text[start..], Space)
  {
    var next := start;
    while next < |text| && Space(text[next])
      invariant start <= next <= |text|
      invariant ColonNext(text[next..], Space) <==> ColonNext(text[start..], Space)
    {
      assert text[next..][1..] == text[next + 1..];
      next := next + 1;
    }
    colon := next < |text| && text[next] == ':';
  }

  // ---- The explicit stack of canonicalJson ----

  function Size(v: Value): nat {
    match v
    case Container(_, _, items) => 1 + SizeItems(items)
    case _ => 1
  }

  function SizeItems(items: Items): nat {
    match items
    case End => 0
    case Item(_, _, _, _, value, _, next) => Size(value) + SizeItems(next)
  }

  /** The values directly inside. */
  function Children(items: Items): seq<Value> {
    match items
    case End => []
    case Item(_, _, _, _, value, _, next) => [value] + Children(next)
  }

  datatype Frame = Frame(value: Value, depth: int)

  function StackSize(stack: seq<Frame>): nat {
    if stack == [] then 0 else Size(stack[|stack| - 1].value) + StackSize(stack[..|stack| - 1])
  }

  predicate StackFits(stack: seq<Frame>) {
    stack == [] || (stack[|stack| - 1].depth + Height(stack[|stack| - 1].value) <= MAX_JSON_DEPTH && StackFits(stack[..|stack| - 1]))
  }

  method PushChildren(items: Items, depth: int, stack: seq<Frame>) returns (pushed: seq<Frame>)
    ensures StackSize(pushed) == StackSize(stack) + SizeItems(items)
    ensures StackFits(pushed) <==> StackFits(stack) && (items.End? || depth - 1 + HeightItems(items) <= MAX_JSON_DEPTH)
  {
    pushed := stack;
    var rest := items;
    while rest.Item?
      invariant StackSize(pushed) + SizeItems(rest) == StackSize(stack) + SizeItems(items)
      invariant (StackFits(pushed) && (rest.End? || depth - 1 + HeightItems(rest) <= MAX_JSON_DEPTH)) <==>
                (StackFits(stack) && (items.End? || depth - 1 + HeightItems(items) <= MAX_JSON_DEPTH))
      decreases rest
    {
      ghost var before := pushed;
      pushed := pushed + [Frame(rest.value, depth)];
      assert pushed[..|pushed| - 1] == before;
      rest := rest.next;
    }
  }

  lemma HeightOfItems(v: Value)
    requires v.Container?
    ensures Height(v) == HeightItems(v.items) && (v.items.End? ==> Height(v) == 0)
    ensures Size(v) == 1 + SizeItems(v.items)
  {
  }

  lemma EmptyFits()
    ensures StackFits([])
  {
  }

  lemma StackPopped(stack: seq<Frame>)
    requires stack != []
    ensures
      var top, rest := stack[|stack| - 1], stack[..|stack| - 1];
      && (StackFits(stack) <==> top.depth + Height(top.value) <= MAX_JSON_DEPTH && StackFits(rest))
      && StackSize(stack) == Size(top.value) + StackSize(rest) && Size(top.value) > 0
  {
  }

  /** The depth check of `canonicalJson` agrees with the byte scan: it is the same bound on the tree. */
  method CanonicalDepth(v: Value) returns (ok: bool)
    ensures ok <==> Height(v) <= 64
  {
    var pending := [Frame(v, 0)];
    assert pending[..0] == [];
    hide StackFits, StackSize, Height, HeightItems, Size, SizeItems;
    StackPopped(pending);
    EmptyFits();
    while pending != []
      invariant StackFits(pending) <==> Height(v) <= MAX_JSON_DEPTH
      decreases StackSize(pending)
    {
      var top := pending[|pending| - 1];
      StackPopped(pending);
      pending := pending[..|pending| - 1];
      if top.depth > MAX_JSON_DEPTH { return false; }
      if top.value.Container? {
        HeightOfItems(top.value);
        pending := PushChildren(top.value.items, top.depth + 1, pending);
      }
    }
    return true;
  }

  // ---- The duplicate-member scanner ----

  /** The open containers: the member names seen so far, or None for an array. */
  type Scopes = seq<Option<set<string>>>

  /** The scopes after a member name; None when it does not decode or repeats one. */
  function Seen(scopes: Scopes, key: Option<string>): Option<Scopes> {
    if key.None? then None
    else if scopes == [] then Some(scopes)
    else
      var top := scopes[|scopes| - 1];
      if top.None? then Some(scopes)
      else if key.value in top.value then None
      else Some(scopes[|scopes| - 1 := Some(top.value + {key.value})])
  }

  function With(seen: set<string>, key: Option<string>): set<string> {
    if key.None? then seen else seen + {key.value}
  }

  predicate NewKey(seen: set<string>, key: Option<string>) {
    key.Some? && key.value !in seen
  }

  function Pop(scopes: Scopes): Scopes {
    if scopes == [] then [] else scopes[..|scopes| - 1]
  }

  /** The loop of `parseJsonNoDuplicateMembers` from a position on; `decode` is what
      `JSON.parse` makes of a literal, None when it throws. */
  predicate DuplicateScan(s: string, scopes: Scopes, decode: string -> Option<string>)
    decreases |s|
  {
    if s == "" then true
    else
      var c := s[0];
      if c == '"' then
        var n := LiteralLength(s[1..]);
        var rest := s[1 + n..];
        if ColonNext(rest, Blank) then
          var next := Seen(scopes, decode(s[1..][..if n == 0 then 0 else n - 1]));
          next.Some? && DuplicateScan(rest, next.value, decode)
        else DuplicateScan(rest, scopes, decode)
      else
        DuplicateScan(s[1..],
                      if c == '{' then scopes + [Some({})] else if c == '[' then scopes + [None]
                      else if c == '}' || c == ']' then Pop(scopes) else scopes,
                      decode)
  }

  /** Every member name in the tree decodes, and no object repeats one. */
  predicate NoDuplicates(v: Value, decode: string -> Option<string>) {
    v.Container? ==> NoDuplicateItems(v.items, v.keyed, {}, decode)
  }

  predicate NoDuplicateItems(items: Items, keyed: bool, seen: set<string>, decode: string -> Option<string>) {
    items.Item? ==>
      && (keyed ==> NewKey(seen, decode(items.name)))
      && NoDuplicates(items.value, decode)
      && NoDuplicateItems(items.next, keyed, if keyed then With(seen, decode(items.name)) else seen, decode)
  }

  lemma {:induction false} DuplicateSpaces(w: string, rest: string, scopes: Scopes, decode: string -> Option<string>)
    requires Spaces(w)
    ensures DuplicateScan(w + rest, scopes, decode) == DuplicateScan(rest, scopes, decode)
  {
    if w == "" {
      assert w + rest == rest;
    } else {
      DuplicateSpaces(w[1..], rest, scopes, decode);
      assert Space(w[0]);
      assert (w + rest)[1..] == w[1..] + rest;
    }
  }

  lemma {:induction false} DuplicateToken(t: string, rest: string, scopes: Scopes, decode: string -> Option<string>)
    requires Token(t)
    ensures DuplicateScan(t + rest, scopes, decode) == DuplicateScan(rest, scopes, decode)
  {
    assert !Structural(t[0]);
    assert (t + rest)[1..] == t[1..] + rest;
    if |t| == 1 {
      assert t[1..] + rest == rest;
    } else {
      DuplicateToken(t[1..], rest, scopes, decode);
    }
  }

  lemma {:induction false} DuplicateLiteral(raw: string, rest: string, scopes: Scopes, decode: string -> Option<string>)
    requires Raw(raw)
    ensures DuplicateScan("\"" + (raw + ("\"" + rest)), scopes, decode) <==>
            if ColonNext(rest, Blank) then Seen(scopes, decode(raw)).Some? && DuplicateScan(rest, Seen(scopes, decode(raw)).value, decode)
            else DuplicateScan(rest, scopes, decode)
  {
    LiteralEnds(raw, rest);
    var s := "\"" + (raw + ("\"" + rest));
    assert s[1..] == raw + ("\"" + rest);
    assert s[1 + (|raw| + 1)..] == rest;
    assert s[1..][..|raw|] == raw;
  }

  lemma {:induction false} DuplicateChar(c: char, rest: string, scopes: Scopes, decode: string -> Option<string>)
    requires c != '"'
    ensures DuplicateScan([c] + rest, scopes, decode) ==
            DuplicateScan(rest, if c == '{' then scopes + [Some({})] else if c == '[' then scopes + [None]
                                else if c == '}' || c == ']' then Pop(scopes) else scopes, decode)
    ensures !Blank(c) ==> ColonNext([c] + rest, Blank) == (c == ':')
  {
    assert ([c] + rest)[1..] == rest;
  }

  lemma {:induction false} DuplicatesOfValue(v: Value, rest: string, scopes: Scopes, decode: string -> Option<string>)
    requires WellFormed(v) && !ColonNext(rest, Blank)
    ensures DuplicateScan(Print(v, rest), scopes, decode) <==> NoDuplicates(v, decode) && DuplicateScan(rest, scopes, decode)
    decreases v
  {
    match v
    case Scalar(token) => DuplicateToken(token, rest, scopes, decode);
    case Text(raw) => DuplicateLiteral(raw, rest, scopes, decode);
    case Container(keyed, gap, items) =>
      var close := if keyed then '}' else ']';
      var inside := PrintItems(items, keyed, "", [close] + rest);
      var scope: Option<set<string>> := if keyed then Some({}) else None;
      DuplicateChar(if keyed then '{' else '[', gap + inside, scopes, decode);
      DuplicateSpaces(gap, inside, scopes + [scope], decode);
      DuplicateChar(close, rest, scopes, decode);
      DuplicatesOfItems(items, keyed, "", close, rest, scopes, scope, decode);
  }

  lemma {:induction false} DuplicatesOfItems(items: Items, keyed: bool, separator: string, close: char, rest: string,
                                             scopes: Scopes, scope: Option<set<string>>, decode: string -> Option<string>)
    requires WellFormedItems(items) && separator in {"", ","} && close in {'}', ']'} && scope.Some? == keyed
    ensures DuplicateScan(PrintItems(items, keyed, separator, [close] + rest), scopes + [scope], decode) <==>
            NoDuplicateItems(items, keyed, if keyed then scope.value else {}, decode) && DuplicateScan(rest, scopes, decode)
    ensures separator == "," ==> !ColonNext(PrintItems(items, keyed, separator, [close] + rest), Blank)
    decreases items
  {
    if items.End? {
      DuplicateChar(close, rest, scopes + [scope], decode);
      assert Pop(scopes + [scope]) == scopes;
    } else {
      var more := PrintItems(items.next, keyed, ",", [close] + rest);
      var key := decode(items.name);
      var scope' := if keyed then Some(With(scope.value, key)) else None;
      DuplicatesOfItems(items.next, keyed, ",", close, rest, scopes, scope', decode);
      var after := items.trail + more;
      SpacesAreBlank(items.trail);
      ColonAfterSpaces(items.trail, more, Blank);
      DuplicateSpaces(items.trail, more, scopes + [scope'], decode);
      var tail := Print(items.value, after);
      DuplicatesOfValue(items.value, after, scopes + [scope'], decode);
      DuplicatesOfLead(items, keyed, separator, tail, scopes, scope, decode);
    }
  }

  lemma SpacesAreBlank(w: string)
    requires Spaces(w)
    ensures forall i :: 0 <= i < |w| ==> Blank(w[i])
  {
  }

  lemma {:induction false} DuplicatesOfLead(items: Items, keyed: bool, separator: string, tail: string,
                                            scopes: Scopes, scope: Option<set<string>>, decode: string -> Option<string>)
    requires items.Item? && WellFormedItems(items) && separator in {"", ","} && scope.Some? == keyed
    ensures
      var named := if keyed then "\"" + (items.name + ("\"" + (items.beforeColon + (":" + (items.afterColon + tail))))) else tail;
      var key := decode(items.name);
      && (DuplicateScan(separator + (items.lead + named), scopes + [scope], decode) <==>
            if keyed then NewKey(scope.value, key) && DuplicateScan(tail, scopes + [Some(With(scope.value, key))], decode)
            else DuplicateScan(tail, scopes + [scope], decode))
      && (separator == "," ==> !ColonNext(separator + (items.lead + named), Blank))
  {
    hide DuplicateScan, ColonNext;
    var value := items.afterColon + tail;
    var colon := items.beforeColon + (":" + value);
    var key := decode(items.name);
    SpacesAreBlank(items.beforeColon);
    DuplicateChar(':', value, scopes, decode);
    ColonAfterSpaces(items.beforeColon, ":" + value, Blank);
    DuplicateLiteral(items.name, colon, scopes + [scope], decode);
    if keyed {
      var open := scopes + [Some(With(scope.value, key))];
      assert (scopes + [scope])[|scopes| := Some(With(scope.value, key))] == open;
      DuplicateSpaces(items.beforeColon, ":" + value, open, decode);
      DuplicateChar(':', value, open, decode);
      DuplicateSpaces(items.afterColon, tail, open, decode);
    }
    var named := if keyed then "\"" + (items.name + ("\"" + colon)) else tail;
    var led := items.lead + named;
    DuplicateSpaces(items.lead, named, scopes + [scope], decode);
    if separator == "," {
      DuplicateChar(',', led, scopes + [scope], decode);
    } else {
      assert separator + led == led;
    }
  }

  lemma {:induction false} DuplicatesInSpaces(w: string, scopes: Scopes, decode: string -> Option<string>)
    requires Spaces(w)
    ensures DuplicateScan(w, scopes, decode)
  {
    DuplicateSpaces(w, "", scopes, decode);
    assert w + "" == w;
  }

  /** The scan rejects a well-formed document exactly when some member name in it
      does not decode or some object repeats a decoded one, at any nesting. */
  lemma DuplicateScanExact(lead: string, v: Value, trail: string, decode: string -> Option<string>)
    requires Spaces(lead) && WellFormed(v) && Spaces(trail)
    ensures DuplicateScan(Document(lead, v, trail), [], decode) <==> NoDuplicates(v, decode)
  {
    NoColonInSpaces(trail);
    DuplicateSpaces(lead, Print(v, trail), [], decode);
    DuplicatesOfValue(v, trail, [], decode);
    DuplicatesInSpaces(trail, [], decode);
  }

  /** The loop itself, with its index and its stack of sets. */
  method ScanDuplicateMembers(text: string, decode: string -> Option<string>) returns (ok: bool)
    ensures ok <==> DuplicateScan(text, [], decode)
  {
    hide ColonNext, LiteralLength;
    var stack: Scopes := [];
    var i := 0;
    assert text[0..] == text;
    while i < |text|
      invariant 0 <= i <= |text|
      invariant DuplicateScan(text[i..], stack, decode) <==> DuplicateScan(text, [], decode)
    {
      var c := text[i];
      ghost var here := text[i..];
      assert here[1..] == text[i + 1..];
      if c == '"' {
        var end := SkipLiteral(text, i + 1);
        ghost var n := LiteralLength(here[1..]);
        assert here[1 + n..] == text[end..];
        var colon := LookForColonBlank(text, end);
        if colon {
          var raw := text[i + 1..if end == i + 1 then i + 1 else end - 1];
          assert here[1..][..if n == 0 then 0 else n - 1] == raw;
          var next := Seen(stack, decode(raw));
          if next.None? { return false; }
          stack := next.value;
        }
        i := end;
      } else {
        if c == '{' {
          stack := stack + [Some({})];
        } else if c == '[' {
          stack := stack + [None];
        } else if c == '}' || c == ']' {
          stack := Pop(stack);
        }
        i := i + 1;
      }
    }
    return true;
  }

  method LookForColonBlank(text: string, start: nat) returns (colon: bool)
    requires start <= |text|
    ensures colon <==> ColonNext(text[start..], Blank)
  {
    var next := start;
    while next < |text| && Blank(text[next])
      invariant start <= next <= |text|
      invariant ColonNext(text[next..], Blank) <==> ColonNext(text[start..], Blank)
    {
      assert text[next..][1..] == text[next + 1..];
      next := next + 1;
    }
    colon := next < |text| && text[next] == ':';
  }
}
