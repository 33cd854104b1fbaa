/** The DNSid TXT record: reading a record, its serialized form and its canonical
    form, which leaves the signature out and is what gets signed. */
module TxtRecord {
  import opened Common

  datatype Tag = Tag(name: string, value: string)

  datatype TxtError =
    | MissingVersion
    | UnsupportedVersion
    | EmptyElement
    | MissingEquals
    | BadName
    | BadValue
    | DuplicateTag
    | UnexpectedSignature
    | MissingTag
    | NotCanonical

  // ---- Splitting and joining at semicolons ----

  function Split(s: string): (parts: seq<string>)
    ensures |parts| > 0
  {
    if s == [] then [[]]
    else
      var rest := Split(s[1..]);
      if s[0] == ';' then [[]] + rest else [[s[0]] + rest[0]] + rest[1..]
  }

  function Join(parts: seq<string>): string {
    if parts == [] then ""
    else if |parts| == 1 then parts[0]
    else parts[0] + ";" + Join(parts[1..])
  }

  lemma {:induction false} SplitPart(part: string, rest: string)
    requires ';' !in part
    ensures Split(part) == [part]
    ensures Split(part + ";" + rest) == [part] + Split(rest)
  {
    var s := part + ";" + rest;
    if part == [] {
      assert s[1..] == rest;
    } else {
      SplitPart(part[1..], rest);
      assert s[1..] == part[1..] + ";" + rest;
      assert part == [part[0]] + part[1..];
    }
  }

  lemma {:induction false} SplitJoin(parts: seq<string>)
    requires parts != [] && forall i :: 0 <= i < |parts| ==> ';' !in parts[i]
    ensures Split(Join(parts)) == parts
  {
    SplitPart(parts[0], Join(parts[1..]));
    if |parts| > 1 {
      SplitJoin(parts[1..]);
    }
  }

  lemma {:induction false} JoinSplit(s: string)
    ensures Join(Split(s)) == s
  {
    if s != [] {
      var rest := Split(s[1..]);
      JoinSplit(s[1..]);
      if s[0] == ';' {
        assert ([[]] + rest)[1..] == rest;
      } else {
        assert ([[s[0]] + rest[0]] + rest[1..])[1..] == rest[1..];
      }
    }
  }

  // ---- One element ----

  predicate Letter(c: char) {
    'A' <= c <= 'Z' || 'a' <= c <= 'z'
  }

  predicate ValidName(name: string) {
    && name != "" && Letter(name[0])
    && forall i :: 0 <= i < |name| ==> Letter(name[i]) || '0' <= name[i] <= '9' || name[i] == '_'
  }

  predicate ValidValue(value: string) {
    forall i :: 0 <= i < |value| ==> '!' <= value[i] <= '~' && value[i] != ';'
  }

  predicate ValidTag(t: Tag) {
    ValidName(t.name) && ValidValue(t.value)
  }

  function Render(t: Tag): string {
    t.name + "=" + t.value
  }

  /** The position of the first equals sign, or the length. */
  function EqualsAt(s: string): (i: nat)
    ensures i <= |s|
    ensures '=' !in s[..i]
    ensures i < |s| ==> s[i] == '='
  {
    if s == "" || s[0] == '=' then 0
    else
      var i := EqualsAt(s[1..]);
      assert s[..i + 1] == [s[0]] + s[1..][..i];
      i + 1
  }

  /** A name, the first equals sign and a value. */
  function ReadPair(pair: string): Result<Tag, TxtError> {
    var eq := EqualsAt(pair);
    if eq == |pair| then Err(MissingEquals)
    else if !ValidName(pair[..eq]) then Err(BadName)
    else if !ValidValue(pair[eq + 1..]) then Err(BadValue)
    else Ok(Tag(pair[..eq], pair[eq + 1..]))
  }

  /** One element; a single leading space is dropped everywhere but in the first one. */
  function ReadElement(element: string, first: bool): Result<Tag, TxtError> {
    ReadPair(if !first && element != "" && element[0] == ' ' then element[1..] else element)
  }

  function Spell(t: Tag, spaced: bool): string {
    if spaced then " " + Render(t) else Render(t)
  }

  lemma {:induction false} EqualsAfter(name: string, value: string)
    requires '=' !in name
    ensures EqualsAt(name + "=" + value) == |name|
  {
    if name != "" {
      EqualsAfter(name[1..], value);
      assert (name + "=" + value)[1..] == name[1..] + "=" + value;
    }
  }

  lemma RenderedText(t: Tag)
    requires ValidTag(t)
    ensures '=' !in t.name
    ensures Render(t) != "" && Render(t)[0] != ' ' && ';' !in Render(t)
  {
  }

  lemma PairExact(pair: string, t: Tag)
    ensures ReadPair(pair) == Ok(t) <==> ValidTag(t) && pair == Render(t)
  {
    hide ValidName, ValidValue;
    var eq := EqualsAt(pair);
    if eq < |pair| {
      assert pair == pair[..eq] + "=" + pair[eq + 1..];
    }
    if ValidTag(t) && pair == Render(t) {
      RenderedText(t);
      EqualsAfter(t.name, t.value);
      assert pair[..eq] == t.name && pair[eq + 1..] == t.value;
    }
  }

  /** An element reads as a tag exactly when it spells it, with or without the space. */
  lemma ElementExact(element: string, first: bool, t: Tag)
    ensures ReadElement(element, first) == Ok(t) <==>
            ValidTag(t) && (element == Spell(t, false) || (!first && element == Spell(t, true)))
  {
    hide ReadPair, ValidTag, Render;
    if ValidTag(t) {
      RenderedText(t);
    }
    PairExact(element, t);
    if !first && element != "" && element[0] == ' ' {
      PairExact(element[1..], t);
      assert element == " " + element[1..];
      assert (" " + Render(t))[1..] == Render(t);
    }
  }

  // ---- A list of elements ----

  function Names(tags: seq<Tag>): set<string> {
    set t | t in tags :: t.name
  }

  predicate Distinct(tags: seq<Tag>) {
    tags == [] || (tags[0].name !in Names(tags[1..]) && Distinct(tags[1..]))
  }

  /** The value of a tag, empty when it is absent. */
  function Get(tags: seq<Tag>, name: string): string {
    if tags == [] then ""
    else if tags[0].name == name then tags[0].value
    else Get(tags[1..], name)
  }

  function AfterTags(tags: seq<Tag>, rest: Result<seq<Tag>, TxtError>): Result<seq<Tag>, TxtError> {
    if rest.Ok? then Ok(tags + rest.value) else rest
  }

  function ReadElements(elements: seq<string>, first: bool, seen: set<string>, signed: bool): Result<seq<Tag>, TxtError> {
    if elements == [] then Ok([])
    else if elements[0] == "" then
      if |elements| == 1 then Ok([]) else Err(EmptyElement)
    else
      var tag := ReadElement(elements[0], first);
      if tag.Err? then Err(tag.error)
      else if tag.value.name in seen then Err(DuplicateTag)
      else if !signed && tag.value.name == "sg" then Err(UnexpectedSignature)
      else AfterTags([tag.value], ReadElements(elements[1..], false, seen + {tag.value.name}, signed))
  }

  /** The elements that spell some tags, with or without leading spaces, and with
      or without an empty element at the end. */
  function Elements(tags: seq<Tag>, spaces: seq<bool>, trailing: bool): seq<string>
    requires |spaces| == |tags|
  {
    if tags == [] then (if trailing then [""] else [])
    else [Spell(tags[0], spaces[0])] + Elements(tags[1..], spaces[1..], trailing)
  }

  predicate ValidTags(tags: seq<Tag>, seen: set<string>, signed: bool) {
    && (forall t | t in tags :: ValidTag(t) && t.name !in seen && (signed || t.name != "sg"))
    && Distinct(tags)
  }

  lemma ValidTagsCons(t: Tag, rest: seq<Tag>, seen: set<string>, signed: bool)
    ensures ValidTags([t] + rest, seen, signed) <==>
            && ValidTag(t) && t.name !in seen && (signed || t.name != "sg")
            && ValidTags(rest, seen + {t.name}, signed)
  {
    var tags := [t] + rest;
    assert tags[0] == t && tags[1..] == rest;
    assert forall x :: x in tags <==> x == t || x in rest;
    if ValidTags(tags, seen, signed) {
      forall x | x in rest ensures x.name != t.name {
        assert x.name in Names(rest);
      }
    }
  }

  /** Spelled tags are read back. */
  lemma {:induction false} ReadSpelled(tags: seq<Tag>, spaces: seq<bool>, trailing: bool, first: bool, seen: set<string>, signed: bool)
    requires |spaces| == |tags| && ValidTags(tags, seen, signed)
    requires first && tags != [] ==> !spaces[0]
    ensures ReadElements(Elements(tags, spaces, trailing), first, seen, signed) == Ok(tags)
  {
    hide ReadElement, ValidTags;
    if tags != [] {
      var t, rest := tags[0], tags[1..];
      assert tags == [t] + rest;
      ValidTagsCons(t, rest, seen, signed);
      ReadSpelled(rest, spaces[1..], trailing, false, seen + {t.name}, signed);
      ElementExact(Spell(t, spaces[0]), first, t);
      RenderedText(t);
      assert Elements(tags, spaces, trailing)[1..] == Elements(rest, spaces[1..], trailing);
    }
  }

  /** Elements that are read spell what was read. */
  lemma {:induction false} SpelledRead(elements: seq<string>, first: bool, seen: set<string>, signed: bool)
    returns (spaces: seq<bool>, trailing: bool)
    requires ReadElements(elements, first, seen, signed).Ok?
    ensures var tags := ReadElements(elements, first, seen, signed).value;
            && ValidTags(tags, seen, signed) && |spaces| == |tags|
            && elements == Elements(tags, spaces, trailing)
            && (first && tags != [] ==> !spaces[0])
  {
    hide ReadElement, ValidTags, ReadElements, Elements;
    if elements == [] || elements[0] == "" {
      spaces, trailing := [], elements != [];
      ReadNothing(elements, first, seen, signed);
      NoTags(seen, signed);
    } else {
      ReadFirst(elements, first, seen, signed);
      var t := ReadElement(elements[0], first).value;
      ElementExact(elements[0], first, t);
      var rest := ReadElements(elements[1..], false, seen + {t.name}, signed).value;
      spaces, trailing := SpelledRead(elements[1..], false, seen + {t.name}, signed);
      ValidTagsCons(t, rest, seen, signed);
      var spaced := elements[0] != Spell(t, false);
      ElementsCons(t, rest, spaced, spaces, trailing);
      assert elements == [elements[0]] + elements[1..];
      spaces := [spaced] + spaces;
    }
  }

  lemma ReadNothing(elements: seq<string>, first: bool, seen: set<string>, signed: bool)
    requires elements == [] || elements[0] == ""
    requires ReadElements(elements, first, seen, signed).Ok?
    ensures ReadElements(elements, first, seen, signed) == Ok([])
    ensures elements == Elements([], [], elements != [])
  {
  }

  lemma ReadFirst(elements: seq<string>, first: bool, seen: set<string>, signed: bool)
    requires elements != [] && elements[0] != "" && ReadElements(elements, first, seen, signed).Ok?
    ensures
      var tag := ReadElement(elements[0], first);
      && tag.Ok? && tag.value.name !in seen && (signed || tag.value.name != "sg")
      && var rest := ReadElements(elements[1..], false, seen + {tag.value.name}, signed);
         rest.Ok? && ReadElements(elements, first, seen, signed) == Ok([tag.value] + rest.value)
  {
    hide ReadElement;
  }

  lemma ElementsCons(t: Tag, rest: seq<Tag>, spaced: bool, spaces: seq<bool>, trailing: bool)
    requires |spaces| == |rest|
    ensures Elements([t] + rest, [spaced] + spaces, trailing) == [Spell(t, spaced)] + Elements(rest, spaces, trailing)
  {
    hide Spell;
    assert ([t] + rest)[1..] == rest && ([spaced] + spaces)[1..] == spaces;
  }

  lemma NoTags(seen: set<string>, signed: bool)
    ensures ValidTags([], seen, signed)
  {
  }

  // ---- The whole record ----

  const SUPPORTED_VERSIONS: set<string> := {"dnsid-draft-01", "DNSid1"}
  const REQUIRED_UNSIGNED: set<string> := {"v", "gi", "ek", "ku", "lr", "su"}

  function Required(signed: bool): set<string> {
    if signed then REQUIRED_UNSIGNED + {"sg"} else REQUIRED_UNSIGNED
  }

  predicate StartsVersion(element: string) {
    |element| >= 2 && element[0] == 'v' && element[1] == '='
  }

  function FindVersion(elements: seq<string>): Option<string> {
    if elements == [] then None
    else if StartsVersion(elements[0]) then Some(elements[0][2..])
    else FindVersion(elements[1..])
  }

  /** The version is read off the first element, or off the first element that carries one. */
  function Version(elements: seq<string>, vFirst: bool): Option<string>
    requires elements != []
  {
    if vFirst then FindVersion(elements[..1]) else FindVersion(elements)
  }

  /** `parseTagPairs`: the tags in the order they were read. */
  function Read(raw: string, signed: bool, vFirst: bool): Result<seq<Tag>, TxtError> {
    var elements := Split(raw);
    var version := Version(elements, vFirst);
    if version.None? then Err(MissingVersion)
    else if version.value !in SUPPORTED_VERSIONS then Err(UnsupportedVersion)
    else
      var tags := ReadElements(elements, true, {}, signed);
      if tags.Err? then tags
      else if exists name | name in Required(signed) :: Get(tags.value, name) == "" then Err(MissingTag)
      else tags
  }

  /** What a record may say, however it is spelled. */
  predicate Legal(tags: seq<Tag>, signed: bool) {
    && ValidTags(tags, {}, signed)
    && (forall name | name in Required(signed) :: Get(tags, name) != "")
    && Get(tags, "v") in SUPPORTED_VERSIONS
  }

  /** Where the version stands: first, or anywhere without a leading space. */
  predicate Placed(tags: seq<Tag>, spaces: seq<bool>, vFirst: bool)
    requires |spaces| == |tags|
  {
    if vFirst then tags != [] && tags[0].name == "v"
    else exists i :: 0 <= i < |tags| && tags[i].name == "v" && !spaces[i]
  }

  /** The text spells the tags. */
  predicate Spells(raw: string, tags: seq<Tag>, spaces: seq<bool>, trailing: bool, vFirst: bool) {
    && |spaces| == |tags| && tags != [] && !spaces[0]
    && Placed(tags, spaces, vFirst)
    && raw == Join(Elements(tags, spaces, trailing))
  }

  lemma StartsVersionExact(t: Tag, spaced: bool)
    requires ValidTag(t)
    ensures StartsVersion(Spell(t, spaced)) <==> t.name == "v" && !spaced
    ensures t.name == "v" && !spaced ==> Spell(t, spaced)[2..] == t.value
  {
    RenderedText(t);
    if !spaced {
      assert Spell(t, spaced)[0] == t.name[0];
      if |t.name| >= 2 {
        assert Spell(t, spaced)[1] == t.name[1];
      } else {
        assert t.name == [t.name[0]];
      }
    }
  }

  lemma {:induction false} FindVersionExact(tags: seq<Tag>, spaces: seq<bool>, trailing: bool, seen: set<string>, signed: bool)
    requires |spaces| == |tags| && ValidTags(tags, seen, signed)
    ensures FindVersion(Elements(tags, spaces, trailing)) ==
            if Placed(tags, spaces, false) then Some(Get(tags, "v")) else None
  {
    hide ValidTags, StartsVersion, Spell;
    var elements := Elements(tags, spaces, trailing);
    if tags == [] {
      NoVersion();
    } else {
      var t, rest := tags[0], tags[1..];
      assert tags == [t] + rest;
      ValidTagsCons(t, rest, seen, signed);
      FindVersionExact(rest, spaces[1..], trailing, seen + {t.name}, signed);
      StartsVersionExact(t, spaces[0]);
      assert elements[0] == Spell(t, spaces[0]) && elements[1..] == Elements(rest, spaces[1..], trailing);
      PlacedCons(tags, spaces);
      if t.name == "v" && Placed(rest, spaces[1..], false) {
        var i :| 0 <= i < |rest| && rest[i].name == "v";
        NotSeen(rest, seen + {t.name}, signed, rest[i]);
      }
    }
  }

  lemma PlacedCons(tags: seq<Tag>, spaces: seq<bool>)
    requires |spaces| == |tags| && tags != []
    ensures Placed(tags, spaces, false) <==>
            (tags[0].name == "v" && !spaces[0]) || Placed(tags[1..], spaces[1..], false)
  {
    var rest := tags[1..];
    assert forall i :: 0 <= i < |rest| ==> rest[i] == tags[i + 1] && spaces[1..][i] == spaces[i + 1];
    assert forall i :: 1 <= i < |tags| ==> tags[i] == rest[i - 1] && spaces[i] == spaces[1..][i - 1];
  }

  lemma NoVersion()
    ensures FindVersion([]) == None && FindVersion([""]) == None
  {
  }

  lemma NotSeen(tags: seq<Tag>, seen: set<string>, signed: bool, t: Tag)
    requires ValidTags(tags, seen, signed) && t in tags
    ensures t.name !in seen
  {
  }

  lemma VersionExact(tags: seq<Tag>, spaces: seq<bool>, trailing: bool, vFirst: bool, signed: bool)
    requires |spaces| == |tags| && ValidTags(tags, {}, signed)
    requires tags != [] ==> !spaces[0]
    requires Elements(tags, spaces, trailing) != []
    ensures Version(Elements(tags, spaces, trailing), vFirst) ==
            if Placed(tags, spaces, vFirst) then Some(Get(tags, "v")) else None
  {
    hide StartsVersion, Spell, ValidTag;
    var elements := Elements(tags, spaces, trailing);
    if !vFirst {
      FindVersionExact(tags, spaces, trailing, {}, signed);
    } else if tags == [] {
      NoVersion();
      assert elements[..1] == [""];
    } else {
      StartsVersionExact(tags[0], false);
      assert elements[..1][0] == Spell(tags[0], false) && elements[..1][1..] == [];
      NoVersion();
    }
  }

  lemma {:induction false} ElementsClean(tags: seq<Tag>, spaces: seq<bool>, trailing: bool, seen: set<string>, signed: bool)
    requires |spaces| == |tags| && ValidTags(tags, seen, signed)
    ensures forall i :: 0 <= i < |Elements(tags, spaces, trailing)| ==> ';' !in Elements(tags, spaces, trailing)[i]
  {
    hide ValidTags;
    if tags != [] {
      assert tags == [tags[0]] + tags[1..];
      ValidTagsCons(tags[0], tags[1..], seen, signed);
      ElementsClean(tags[1..], spaces[1..], trailing, seen + {tags[0].name}, signed);
      RenderedText(tags[0]);
    }
  }

  /** The parser accepts exactly the spellings of legal records, and returns what they spell. */
  lemma ReadExact(raw: string, signed: bool, vFirst: bool, tags: seq<Tag>)
    ensures Read(raw, signed, vFirst) == Ok(tags) <==>
            Legal(tags, signed) && exists spaces, trailing :: Spells(raw, tags, spaces, trailing, vFirst)
  {
    if Read(raw, signed, vFirst) == Ok(tags) {
      ReadIsSpelled(raw, signed, vFirst);
    }
    if Legal(tags, signed) {
      forall spaces, trailing | Spells(raw, tags, spaces, trailing, vFirst)
        ensures Read(raw, signed, vFirst) == Ok(tags)
      {
        SpelledIsRead(raw, signed, vFirst, tags, spaces, trailing);
      }
    }
  }

  lemma SpelledIsRead(raw: string, signed: bool, vFirst: bool, tags: seq<Tag>, spaces: seq<bool>, trailing: bool)
    requires Legal(tags, signed) && Spells(raw, tags, spaces, trailing, vFirst)
    ensures Read(raw, signed, vFirst) == Ok(tags)
  {
    hide ValidTags, Placed, Split, Join, ReadElements, FindVersion;
    var elements := Elements(tags, spaces, trailing);
    ElementsClean(tags, spaces, trailing, {}, signed);
    SplitJoin(elements);
    VersionExact(tags, spaces, trailing, vFirst, signed);
    ReadSpelled(tags, spaces, trailing, true, {}, signed);
  }

  lemma ReadIsSpelled(raw: string, signed: bool, vFirst: bool)
    requires Read(raw, signed, vFirst).Ok?
    ensures var tags := Read(raw, signed, vFirst).value;
            Legal(tags, signed) && exists spaces, trailing :: Spells(raw, tags, spaces, trailing, vFirst)
  {
    hide ValidTags, Placed, Split, Join, ReadElements, FindVersion;
    var tags := Read(raw, signed, vFirst).value;
    var elements := Split(raw);
    JoinSplit(raw);
    var spaces, trailing := SpelledRead(elements, true, {}, signed);
    VersionExact(tags, spaces, trailing, vFirst, signed);
    assert Get(tags, "v") != "" by {
      assert "v" in Required(signed);
    }
    assert Spells(raw, tags, spaces, trailing, vFirst);
  }

  // ---- What a record says ----

  /** The tag-to-value map. */
  function Meaning(tags: seq<Tag>): map<string, string> {
    if tags == [] then map[] else Meaning(tags[1..])[tags[0].name := tags[0].value]
  }

  lemma {:induction false} MeaningExact(tags: seq<Tag>)
    requires Distinct(tags)
    ensures Meaning(tags).Keys == Names(tags)
    ensures forall t :: t in tags <==> t.name in Meaning(tags) && Meaning(tags)[t.name] == t.value
    ensures forall name :: Get(tags, name) == if name in Meaning(tags) then Meaning(tags)[name] else ""
  {
    if tags != [] {
      MeaningExact(tags[1..]);
      assert forall t :: t in tags <==> t == tags[0] || t in tags[1..];
      assert forall t | t in tags[1..] :: t.name in Names(tags[1..]);
    }
  }

  /** Two lists say the same, but for the signature where `but` is "sg". */
  ghost predicate SameBut(a: seq<Tag>, b: seq<Tag>, but: set<string>) {
    forall t :: t in a <==> t in b && t.name !in but
  }

  lemma SameMeaning(a: seq<Tag>, b: seq<Tag>, but: set<string>)
    requires Distinct(a) && Distinct(b)
    ensures Meaning(a) == Meaning(b) - but <==> SameBut(a, b, but)
  {
    MeaningExact(a);
    MeaningExact(b);
    var x, y := Meaning(a), Meaning(b) - but;
    if SameBut(a, b, but) {
      forall name ensures (name in x <==> name in y) && (name in x ==> x[name] == y[name]) {
        if name in x {
          assert Tag(name, x[name]) in a;
        }
        if name in y {
          assert Tag(name, y[name]) in b;
          assert Tag(name, y[name]) in a;
        }
      }
    }
  }

  // ---- Sorting by name ----

  /** String order, character by character. */
  predicate Less(a: string, b: string) {
    b != "" && (a == "" || a[0] < b[0] || (a[0] == b[0] && Less(a[1..], b[1..])))
  }

  lemma {:induction false} LessTotal(a: string, b: string)
    ensures !(Less(a, b) && Less(b, a))
    ensures a != b ==> Less(a, b) || Less(b, a)
  {
    if a != "" && b != "" {
      LessTotal(a[1..], b[1..]);
      assert a == [a[0]] + a[1..] && b == [b[0]] + b[1..];
    }
  }

  lemma {:induction false} LessTransitive(a: string, b: string, c: string)
    requires Less(a, b) && Less(b, c)
    ensures Less(a, c)
  {
    if a != "" && a[0] == b[0] == c[0] {
      LessTransitive(a[1..], b[1..], c[1..]);
    }
  }

  function Insert(t: Tag, tags: seq<Tag>): seq<Tag> {
    if tags == [] || Less(t.name, tags[0].name) then [t] + tags else [tags[0]] + Insert(t, tags[1..])
  }

  function SortTags(tags: seq<Tag>): seq<Tag> {
    if tags == [] then [] else Insert(tags[0], SortTags(tags[1..]))
  }

  /** Names increase strictly. */
  predicate Increasing(tags: seq<Tag>) {
    |tags| <= 1 || (Less(tags[0].name, tags[1].name) && Increasing(tags[1..]))
  }

  lemma {:induction false} HeadIsLeast(tags: seq<Tag>, t: Tag)
    requires Increasing(tags) && tags != [] && t in tags[1..]
    ensures Less(tags[0].name, t.name)
  {
    if t != tags[1] {
      assert tags[1..] == [tags[1]] + tags[1..][1..];
      HeadIsLeast(tags[1..], t);
      LessTransitive(tags[0].name, tags[1].name, t.name);
    }
  }

  lemma {:induction false} InsertKeeps(t: Tag, tags: seq<Tag>)
    ensures forall x :: x in Insert(t, tags) <==> x == t || x in tags
    ensures Increasing(tags) && t.name !in Names(tags) ==> Increasing(Insert(t, tags))
  {
    hide Less;
    if tags != [] {
      assert forall x :: x in tags <==> x == tags[0] || x in tags[1..];
      if Less(t.name, tags[0].name) {
        assert ([t] + tags)[1..] == tags;
      } else {
        InsertKeeps(t, tags[1..]);
        LessTotal(t.name, tags[0].name);
        assert tags[0].name in Names(tags);
        var rest := Insert(t, tags[1..]);
        assert ([tags[0]] + rest)[1..] == rest;
        assert Names(tags[1..]) <= Names(tags);
      }
    }
  }

  lemma {:induction false} SortKeeps(tags: seq<Tag>)
    ensures forall t :: t in SortTags(tags) <==> t in tags
    ensures Distinct(tags) ==> Increasing(SortTags(tags))
  {
    hide Less, Increasing, Insert;
    if tags == [] {
      NothingIncreases();
    } else {
      SortKeeps(tags[1..]);
      InsertKeeps(tags[0], SortTags(tags[1..]));
      assert forall t :: t in tags <==> t == tags[0] || t in tags[1..];
      assert Names(SortTags(tags[1..])) == Names(tags[1..]);
    }
  }

  lemma NothingIncreases()
    ensures Increasing([])
  {
  }

  lemma {:induction false} IncreasingDistinct(tags: seq<Tag>)
    requires Increasing(tags)
    ensures Distinct(tags)
  {
    hide Less;
    if tags != [] {
      IncreasingDistinct(tags[1..]);
      forall t | t in tags[1..] ensures t.name != tags[0].name {
        HeadIsLeast(tags, t);
        LessTotal(t.name, t.name);
      }
    }
  }

  /** An increasing list is determined by what it contains. */
  lemma {:induction false} IncreasingUnique(a: seq<Tag>, b: seq<Tag>)
    requires Increasing(a) && Increasing(b) && forall t :: t in a <==> t in b
    ensures a == b
  {
    hide Less;
    assert a == [] <==> b == [] by {
      if a != [] {
        assert a[0] in a;
      }
      if b != [] {
        assert b[0] in b;
      }
    }
    if a != [] {
      assert a[0] in b && b[0] in a;
      SameHead(a, b);
      SameTail(a, b);
      IncreasingUnique(a[1..], b[1..]);
      assert a == [a[0]] + a[1..] && b == [b[0]] + b[1..];
    }
  }

  lemma SameHead(a: seq<Tag>, b: seq<Tag>)
    requires Increasing(a) && Increasing(b) && a != [] && b != [] && a[0] in b && b[0] in a
    ensures a[0] == b[0]
  {
    hide Less;
    if a[0] != b[0] {
      assert a[0] in b[1..] && b[0] in a[1..];
      HeadIsLeast(a, b[0]);
      HeadIsLeast(b, a[0]);
      LessTotal(a[0].name, b[0].name);
    }
  }

  lemma SameTail(a: seq<Tag>, b: seq<Tag>)
    requires Increasing(a) && Increasing(b) && a != [] && b != [] && a[0] == b[0] && forall t :: t in a <==> t in b
    ensures Increasing(a[1..]) && Increasing(b[1..]) && forall t :: t in a[1..] <==> t in b[1..]
  {
    hide Less;
    IncreasingDistinct(a);
    IncreasingDistinct(b);
    assert forall t | t in a[1..] :: t.name in Names(a[1..]);
    assert forall t | t in b[1..] :: t.name in Names(b[1..]);
    assert forall t :: t in a <==> t == a[0] || t in a[1..];
    assert forall t :: t in b <==> t == b[0] || t in b[1..];
  }

  // ---- Serialized and canonical forms ----

  /** The tags a record has fields for, in the order in which it writes them. */
  const KNOWN_ORDER: seq<string> := ["v", "gi", "ek", "ku", "lr", "su", "sg", "fl", "ka", "cu"]
  const CANONICAL_ORDER: seq<string> := KNOWN_ORDER[..6] + KNOWN_ORDER[7..]

  /** The tag of a name, if there is one. */
  function Pick(tags: seq<Tag>, name: string): seq<Tag> {
    if name in Names(tags) then [Tag(name, Get(tags, name))] else []
  }

  function PickAll(tags: seq<Tag>, names: seq<string>): seq<Tag> {
    if names == [] then [] else Pick(tags, names[0]) + PickAll(tags, names[1..])
  }

  function Unknown(tags: seq<Tag>): seq<Tag> {
    if tags == [] then []
    else if tags[0].name in KNOWN_ORDER then Unknown(tags[1..])
    else [tags[0]] + Unknown(tags[1..])
  }

  function Arranged(tags: seq<Tag>, order: seq<string>): seq<Tag> {
    PickAll(tags, order) + Unknown(tags)
  }

  function Rendered(tags: seq<Tag>): seq<string> {
    if tags == [] then [] else [Render(tags[0])] + Rendered(tags[1..])
  }

  function SerializeOf(tags: seq<Tag>): string {
    Join(Rendered(Arranged(tags, KNOWN_ORDER)))
  }

  function CanonicalOf(tags: seq<Tag>): string {
    Join(Rendered(SortTags(Arranged(tags, CANONICAL_ORDER))))
  }

  predicate NoRepeats(names: seq<string>) {
    forall i, j :: 0 <= i < j < |names| ==> names[i] != names[j]
  }

  lemma PickExact(tags: seq<Tag>, name: string)
    requires Distinct(tags)
    ensures forall t :: t in Pick(tags, name) <==> t in tags && t.name == name
  {
    MeaningExact(tags);
  }

  lemma {:induction false} PickAllExact(tags: seq<Tag>, names: seq<string>)
    requires Distinct(tags) && NoRepeats(names)
    ensures forall t :: t in PickAll(tags, names) <==> t in tags && t.name in names
    ensures Distinct(PickAll(tags, names))
  {
    if names != [] {
      PickExact(tags, names[0]);
      PickAllExact(tags, names[1..]);
      var rest := PickAll(tags, names[1..]);
      var one := Pick(tags, names[0]);
      assert one != [] ==> (one + rest)[1..] == rest;
      assert one == [] ==> one + rest == rest;
      assert forall name :: name in names <==> name == names[0] || name in names[1..];
    }
  }

  lemma {:induction false} UnknownExact(tags: seq<Tag>)
    requires Distinct(tags)
    ensures forall t :: t in Unknown(tags) <==> t in tags && t.name !in KNOWN_ORDER
    ensures Distinct(Unknown(tags))
  {
    if tags != [] {
      UnknownExact(tags[1..]);
      assert forall t :: t in tags <==> t == tags[0] || t in tags[1..];
      assert ([tags[0]] + Unknown(tags[1..]))[1..] == Unknown(tags[1..]);
    }
  }

  lemma {:induction false} DistinctConcat(a: seq<Tag>, b: seq<Tag>)
    requires Distinct(a) && Distinct(b) && Names(a) !! Names(b)
    ensures Distinct(a + b)
  {
    hide Names, Distinct;
    if a == [] {
      assert a + b == b;
    } else {
      var t, rest := a[0], a[1..];
      assert a == [t] + rest && a + b == [t] + (rest + b);
      TagCons(t, rest);
      NamesConcat(rest, b);
      TagCons(t, rest + b);
      DistinctConcat(rest, b);
    }
  }

  lemma TagCons(t: Tag, rest: seq<Tag>)
    ensures Distinct([t] + rest) <==> t.name !in Names(rest) && Distinct(rest)
    ensures Names([t] + rest) == {t.name} + Names(rest)
  {
    assert ([t] + rest)[1..] == rest;
    NamesConcat([t], rest);
  }

  lemma NamesConcat(a: seq<Tag>, b: seq<Tag>)
    ensures Names(a + b) == Names(a) + Names(b)
  {
    assert forall t :: t in a + b <==> t in a || t in b;
  }

  lemma NamesOfOne(t: Tag)
    ensures Names([t]) == {t.name} && Distinct([t])
  {
  }

  lemma OrdersKnown()
    ensures NoRepeats(KNOWN_ORDER) && NoRepeats(CANONICAL_ORDER)
    ensures forall name :: name in CANONICAL_ORDER <==> name in KNOWN_ORDER && name != "sg"
  {
    NamesDiffer();
    assert KNOWN_ORDER[6] == "sg";
    hide KNOWN_ORDER;
  }

  lemma NamesDiffer()
    ensures |KNOWN_ORDER| == 10 && NoRepeats(KNOWN_ORDER)
  {
    var initials := ['v', 'g', 'e', 'k', 'l', 's', 's', 'f', 'k', 'c'];
    assert forall i :: 0 <= i < 10 ==> |KNOWN_ORDER[i]| > 0 && KNOWN_ORDER[i][0] == initials[i];
    assert KNOWN_ORDER[3][1] != KNOWN_ORDER[8][1] && KNOWN_ORDER[5][1] != KNOWN_ORDER[6][1];
  }

  lemma ArrangedMembers(tags: seq<Tag>, order: seq<string>)
    requires Distinct(tags) && NoRepeats(order) && forall name :: name in order ==> name in KNOWN_ORDER
    ensures Distinct(Arranged(tags, order))
    ensures forall t :: t in Arranged(tags, order) <==> t in tags && (t.name in order || t.name !in KNOWN_ORDER)
  {
    hide Distinct, KNOWN_ORDER, NoRepeats, PickAll, Unknown;
    PickAllExact(tags, order);
    UnknownExact(tags);
    var known, unknown := PickAll(tags, order), Unknown(tags);
    assert Names(known) !! Names(unknown);
    DistinctConcat(known, unknown);
    assert forall t :: t in known + unknown <==> t in known || t in unknown;
  }

  /** Arranging keeps every tag, or every tag but the signature. */
  lemma ArrangedExact(tags: seq<Tag>)
    requires Distinct(tags)
    ensures Distinct(Arranged(tags, KNOWN_ORDER)) && SameBut(Arranged(tags, KNOWN_ORDER), tags, {})
    ensures Distinct(Arranged(tags, CANONICAL_ORDER)) && SameBut(Arranged(tags, CANONICAL_ORDER), tags, {"sg"})
  {
    hide Distinct, KNOWN_ORDER, CANONICAL_ORDER, Arranged, NoRepeats;
    OrdersKnown();
    ArrangedMembers(tags, KNOWN_ORDER);
    ArrangedMembers(tags, CANONICAL_ORDER);
    SignatureKnown();
  }

  lemma SignatureKnown()
    ensures "sg" in KNOWN_ORDER
  {
    assert KNOWN_ORDER[6] == "sg";
  }

  lemma GetSame(a: seq<Tag>, tags: seq<Tag>, but: set<string>, name: string)
    requires Distinct(a) && Distinct(tags) && SameBut(a, tags, but) && name !in but
    ensures Get(a, name) == Get(tags, name)
    ensures name in Names(a) <==> name in Names(tags)
  {
    hide Get, Distinct;
    MeaningExact(a);
    MeaningExact(tags);
    SameMeaning(a, tags, but);
  }

  lemma LegalAgain(a: seq<Tag>, tags: seq<Tag>, signed: bool, but: set<string>)
    requires Legal(tags, signed) && Distinct(a) && SameBut(a, tags, but)
    requires but == {} || but == {"sg"}
    ensures Legal(a, signed && but == {})
  {
    hide Distinct, ValidTag, Get;
    var signed' := signed && but == {};
    assert ValidTags(a, {}, signed');
    forall name | name in Required(signed') ensures Get(a, name) != "" {
      assert name !in but && name in Required(signed);
      GetSame(a, tags, but, name);
    }
    GetSame(a, tags, but, "v");
  }

  function Plain(n: nat): (spaces: seq<bool>)
    ensures |spaces| == n && forall i :: 0 <= i < n ==> !spaces[i]
  {
    seq(n, _ => false)
  }

  lemma {:induction false} RenderedElements(tags: seq<Tag>)
    ensures Rendered(tags) == Elements(tags, Plain(|tags|), false)
  {
    if tags != [] {
      RenderedElements(tags[1..]);
      assert Plain(|tags|)[1..] == Plain(|tags| - 1);
    }
  }

  lemma VersionPresent(tags: seq<Tag>, signed: bool)
    requires Legal(tags, signed)
    ensures tags != [] && "v" in Names(tags)
  {
    assert "v" in Required(signed);
    MeaningExact(tags);
  }

  /** Legal tags, rendered and joined, are read back as they are. */
  lemma RenderedReads(tags: seq<Tag>, signed: bool, vFirst: bool)
    requires Legal(tags, signed)
    requires vFirst ==> tags != [] && tags[0].name == "v"
    ensures Read(Join(Rendered(tags)), signed, vFirst) == Ok(tags)
  {
    hide Legal, Join, Read;
    VersionPresent(tags, signed);
    RenderedElements(tags);
    assert Placed(tags, Plain(|tags|), vFirst) by {
      var t :| t in tags && t.name == "v";
      var i :| 0 <= i < |tags| && tags[i] == t;
      assert !Plain(|tags|)[i];
    }
    SpelledIsRead(Join(Rendered(tags)), signed, vFirst, tags, Plain(|tags|), false);
  }

  lemma {:induction false} PickAllSame(a: seq<Tag>, b: seq<Tag>, names: seq<string>)
    requires forall name :: Pick(a, name) == Pick(b, name)
    ensures PickAll(a, names) == PickAll(b, names)
  {
    if names != [] {
      PickAllSame(a, b, names[1..]);
    }
  }

  lemma {:induction false} UnknownAfterKnown(a: seq<Tag>, b: seq<Tag>)
    requires forall t | t in a :: t.name in KNOWN_ORDER
    ensures Unknown(a + b) == Unknown(b)
  {
    hide KNOWN_ORDER;
    if a == [] {
      assert a + b == b;
    } else {
      assert a[0] in a;
      UnknownAfterKnown(a[1..], b);
      assert (a + b)[1..] == a[1..] + b;
    }
  }

  lemma {:induction false} UnknownTwice(tags: seq<Tag>)
    ensures Unknown(Unknown(tags)) == Unknown(tags)
  {
    hide KNOWN_ORDER;
    if tags != [] {
      UnknownTwice(tags[1..]);
      assert ([tags[0]] + Unknown(tags[1..]))[1..] == Unknown(tags[1..]);
    }
  }

  /** Arranging an arranged record changes nothing. */
  lemma ArrangedTwice(tags: seq<Tag>)
    requires Distinct(tags)
    ensures Arranged(Arranged(tags, KNOWN_ORDER), KNOWN_ORDER) == Arranged(tags, KNOWN_ORDER)
    ensures Unknown(Arranged(tags, KNOWN_ORDER)) == Unknown(tags)
  {
    var known := PickAll(tags, KNOWN_ORDER);
    OrdersKnown();
    hide KNOWN_ORDER, Distinct, Unknown;
    PickAllExact(tags, KNOWN_ORDER);
    UnknownAfterKnown(known, Unknown(tags));
    UnknownTwice(tags);
    PickAllAgain(tags);
  }

  lemma PickAllAgain(tags: seq<Tag>)
    requires Distinct(tags)
    ensures PickAll(Arranged(tags, KNOWN_ORDER), KNOWN_ORDER) == PickAll(tags, KNOWN_ORDER)
  {
    var again := Arranged(tags, KNOWN_ORDER);
    ArrangedExact(tags);
    hide KNOWN_ORDER, Distinct, Arranged, Names, Get;
    forall name ensures Pick(again, name) == Pick(tags, name) {
      GetSame(again, tags, {}, name);
    }
    PickAllSame(again, tags, KNOWN_ORDER);
  }

  lemma ArrangedFirst(tags: seq<Tag>)
    requires "v" in Names(tags)
    ensures Arranged(tags, KNOWN_ORDER) != [] && Arranged(tags, KNOWN_ORDER)[0].name == "v"
  {
    assert KNOWN_ORDER[0] == "v";
    hide Names, Get, Unknown, KNOWN_ORDER;
  }

  /** Reading what was serialized gives the whole map back, with the tags that have
      no field of their own in their order; serializing once more changes nothing. */
  lemma SerializeRoundTrip(tags: seq<Tag>, signed: bool, vFirst: bool)
    requires Legal(tags, signed)
    ensures var r := Read(SerializeOf(tags), signed, vFirst);
            r.Ok? && Meaning(r.value) == Meaning(tags) && Unknown(r.value) == Unknown(tags) &&
            SerializeOf(r.value) == SerializeOf(tags)
  {
    hide Legal, Read, Arranged, Names, Distinct, KNOWN_ORDER, SameBut, Unknown, Meaning;
    var again := Arranged(tags, KNOWN_ORDER);
    LegalDistinct(tags, signed);
    ArrangedExact(tags);
    ArrangedTwice(tags);
    LegalAgain(again, tags, signed, {});
    SameMeaning(again, tags, {});
    VersionPresent(tags, signed);
    ArrangedFirst(tags);
    NothingLeftOut(tags);
    RenderedReads(again, signed, vFirst);
  }

  lemma NothingLeftOut(tags: seq<Tag>)
    ensures Meaning(tags) - {} == Meaning(tags)
  {
  }

  /** What the canonical form lists. */
  lemma CanonicalTags(tags: seq<Tag>, signed: bool)
    requires Legal(tags, signed)
    ensures var sorted := SortTags(Arranged(tags, CANONICAL_ORDER));
            && Increasing(sorted) && Distinct(sorted) && Legal(sorted, false)
            && SameBut(sorted, tags, {"sg"}) && Meaning(sorted) == Meaning(tags) - {"sg"}
            && Read(CanonicalOf(tags), false, false) == Ok(sorted)
  {
    var arranged := Arranged(tags, CANONICAL_ORDER);
    var sorted := SortTags(arranged);
    ArrangedExact(tags);
    SortKeeps(arranged);
    IncreasingDistinct(sorted);
    LegalAgain(sorted, tags, signed, {"sg"});
    hide Legal, Read, Distinct, Increasing, Arranged;
    assert SameBut(sorted, tags, {"sg"});
    RenderedReads(sorted, false, false);
    assert Distinct(tags) by {
      LegalDistinct(tags, signed);
    }
    SameMeaning(sorted, tags, {"sg"});
  }

  lemma LegalDistinct(tags: seq<Tag>, signed: bool)
    requires Legal(tags, signed)
    ensures Distinct(tags)
  {
  }

  lemma CanonicalSame(a: seq<Tag>, signedA: bool, b: seq<Tag>, signedB: bool)
    requires Legal(a, signedA) && Legal(b, signedB)
    ensures CanonicalOf(a) == CanonicalOf(b) <==> Meaning(a) - {"sg"} == Meaning(b) - {"sg"}
  {
    CanonicalTags(a, signedA);
    CanonicalTags(b, signedB);
    hide Legal, Read, Distinct, Increasing, Arranged;
    var s, t := SortTags(Arranged(a, CANONICAL_ORDER)), SortTags(Arranged(b, CANONICAL_ORDER));
    if Meaning(s) == Meaning(t) {
      MeaningExact(s);
      MeaningExact(t);
      IncreasingUnique(s, t);
    }
  }

  /** Two accepted records have the same canonical form exactly when they agree on
      every tag but the signature. */
  lemma CanonicalExact(x: string, signedX: bool, y: string, signedY: bool)
    requires Read(x, signedX, signedX).Ok? && Read(y, signedY, signedY).Ok?
    ensures var a, b := Read(x, signedX, signedX).value, Read(y, signedY, signedY).value;
            CanonicalOf(a) == CanonicalOf(b) <==> Meaning(a) - {"sg"} == Meaning(b) - {"sg"}
  {
    hide Legal, Read, CanonicalOf, Meaning;
    ReadIsSpelled(x, signedX, signedX);
    ReadIsSpelled(y, signedY, signedY);
    CanonicalSame(Read(x, signedX, signedX).value, signedX, Read(y, signedY, signedY).value, signedY);
  }

  /** `parseUnsignedCanonical`, without the host-name checks. */
  function ReadUnsignedCanonical(raw: string): Result<seq<Tag>, TxtError> {
    var tags := Read(raw, false, false);
    if tags.Ok? && CanonicalOf(tags.value) != raw then Err(NotCanonical) else tags
  }

  /** The canonical reader accepts exactly the canonical forms of legal records,
      signed or not, and returns all they say but the signature. */
  lemma UnsignedCanonicalExact(raw: string, tags: seq<Tag>, signed: bool)
    requires Legal(tags, signed)
    ensures var r := ReadUnsignedCanonical(raw);
            r.Ok? && Meaning(r.value) == Meaning(tags) - {"sg"} <==> raw == CanonicalOf(tags)
  {
    hide Legal, Read, CanonicalOf, Distinct, Increasing;
    CanonicalTags(tags, signed);
    if Read(raw, false, false).Ok? {
      var found := Read(raw, false, false).value;
      ReadIsSpelled(raw, false, false);
      CanonicalSame(found, false, tags, signed);
      Unsigned(found);
    }
  }

  lemma Unsigned(tags: seq<Tag>)
    requires Legal(tags, false)
    ensures Meaning(tags) - {"sg"} == Meaning(tags)
  {
    MeaningExact(tags);
    assert "sg" !in Names(tags);
  }

  // ---- The record object ----

  /** The fields of the known tags; an optional tag with an empty value leaves its field unset. */
  datatype Fields = Fields(v: string, gi: string, ek: string, ku: string, lr: string, su: string, sg: string,
                           fl: Option<string>, ka: Option<string>, cu: Option<string>)

  const NO_FIELDS := Fields("", "", "", "", "", "", "", None, None, None)

  function NonEmpty(value: string): Option<string> {
    if value == "" then None else Some(value)
  }

  function SetKnownTag(fields: Fields, name: string, value: string): Fields {
    match name
    case "v" => fields.(v := value)
    case "gi" => fields.(gi := value)
    case "ek" => fields.(ek := value)
    case "ku" => fields.(ku := value)
    case "lr" => fields.(lr := value)
    case "su" => fields.(su := value)
    case "sg" => fields.(sg := value)
    case "fl" => if value != "" then fields.(fl := Some(value)) else fields
    case "ka" => if value != "" then fields.(ka := Some(value)) else fields
    case "cu" => if value != "" then fields.(cu := Some(value)) else fields
    case _ => fields
  }

  /** The fields that a list of tags fills. */
  function FieldsOf(tags: seq<Tag>): Fields {
    Fields(Get(tags, "v"), Get(tags, "gi"), Get(tags, "ek"), Get(tags, "ku"), Get(tags, "lr"), Get(tags, "su"), Get(tags, "sg"),
           NonEmpty(Get(tags, "fl")), NonEmpty(Get(tags, "ka")), NonEmpty(Get(tags, "cu")))
  }

  /** Each known tag has a field of its own. */
  lemma SetKnownTagExact(f: Fields, name: string, value: string)
    ensures var r := SetKnownTag(f, name, value);
            && r.v == (if name == "v" then value else f.v)
            && r.gi == (if name == "gi" then value else f.gi)
            && r.ek == (if name == "ek" then value else f.ek)
            && r.ku == (if name == "ku" then value else f.ku)
            && r.lr == (if name == "lr" then value else f.lr)
            && r.su == (if name == "su" then value else f.su)
            && r.sg == (if name == "sg" then value else f.sg)
            && r.fl == (if name == "fl" && value != "" then Some(value) else f.fl)
            && r.ka == (if name == "ka" && value != "" then Some(value) else f.ka)
            && r.cu == (if name == "cu" && value != "" then Some(value) else f.cu)
  {
    if name in KNOWN_ORDER {
      assert name[0] in ['v', 'g', 'e', 'k', 'l', 's', 'f', 'c'];
    }
  }

  lemma FieldsOfAdded(tags: seq<Tag>, t: Tag)
    requires Distinct(tags) && t.name !in Names(tags)
    ensures FieldsOf(tags + [t]) == SetKnownTag(FieldsOf(tags), t.name, t.value)
  {
    hide Get, Distinct, Names, SetKnownTag, Unknown, KNOWN_ORDER;
    var f, g := FieldsOf(tags), FieldsOf(tags + [t]);
    forall name ensures Get(tags + [t], name) == if name == t.name then t.value else Get(tags, name) {
      GetAdded(tags, t, name);
    }
    Absent(tags, t.name);
    SetKnownTagExact(f, t.name, t.value);
    assert g.v == (if t.name == "v" then t.value else f.v);
    assert g.fl == (if t.name == "fl" && t.value != "" then Some(t.value) else f.fl);
  }

  /** A field written only when it is not empty. */
  function Field(name: string, value: string): seq<Tag> {
    if value == "" then [] else [Tag(name, value)]
  }

  /** A field written when it has a value or was parsed, even if it was empty. */
  function OptionalField(name: string, value: Option<string>, parsed: set<string>): seq<Tag> {
    if value.Some? then [Tag(name, value.value)] else if name in parsed then [Tag(name, "")] else []
  }

  function KnownCanonicalPairs(f: Fields, parsed: set<string>): seq<Tag> {
    Field("v", f.v) + Field("gi", f.gi) + Field("ek", f.ek) + Field("ku", f.ku) + Field("lr", f.lr) + Field("su", f.su) +
    OptionalField("fl", f.fl, parsed) + OptionalField("ka", f.ka, parsed) + OptionalField("cu", f.cu, parsed)
  }

  function KnownPairs(f: Fields, parsed: set<string>): seq<Tag> {
    [Tag("v", f.v)] + Field("gi", f.gi) + Field("ek", f.ek) + Field("ku", f.ku) + Field("lr", f.lr) + Field("su", f.su) +
    Field("sg", f.sg) +
    OptionalField("fl", f.fl, parsed) + OptionalField("ka", f.ka, parsed) + OptionalField("cu", f.cu, parsed)
  }

  class DnsIdTxtRecord {
    var fields: Fields
    var unknownTags: seq<Tag>
    var parsedTags: set<string>
    ghost var tags: seq<Tag>

    /** The record holds what the tags read so far say. */
    ghost predicate Valid()
      reads this
    {
      && Distinct(tags)
      && fields == FieldsOf(tags) && unknownTags == Unknown(tags) && parsedTags == Names(tags)
    }

    /** A record that a parser returned. */
    ghost predicate Complete()
      reads this
    {
      Valid() && exists signed :: Legal(tags, signed)
    }

    constructor ()
      ensures Valid() && tags == [] && parsedTags == {}
    {
      fields, unknownTags, parsedTags, tags := NO_FIELDS, [], {}, [];
    }

    /** Notes a tag as seen and stores its value. */
    method Add(t: Tag)
      requires Valid() && t.name !in parsedTags
      modifies this
      ensures Valid() && tags == old(tags) + [t] && parsedTags == old(parsedTags) + {t.name}
    {
      hide FieldsOf, SetKnownTag, Unknown, Distinct, KNOWN_ORDER;
      NamesAdded(tags, t);
      UnknownAdded(tags, t);
      FieldsOfAdded(tags, t);
      parsedTags := parsedTags + {t.name};
      if t.name in KNOWN_ORDER {
        fields := SetKnownTag(fields, t.name, t.value);
      } else {
        KeepsFields(fields, t);
        unknownTags := unknownTags + [t];
      }
      tags := tags + [t];
    }

    function Canonical(): (text: string)
      requires Complete()
      reads this
      ensures text == CanonicalOf(tags)
    {
      var pairs := KnownCanonicalPairs(fields, parsedTags);
      FieldsArePicked(tags);
      Join(Rendered(SortTags(pairs + unknownTags)))
    }

    function Serialize(): (text: string)
      requires Complete()
      reads this
      ensures text == SerializeOf(tags)
    {
      var pairs := KnownPairs(fields, parsedTags);
      FieldsArePicked(tags);
      Join(Rendered(pairs + unknownTags))
    }
  }

  lemma KeepsFields(fields: Fields, t: Tag)
    requires t.name !in KNOWN_ORDER
    ensures SetKnownTag(fields, t.name, t.value) == fields
  {
  }

  lemma {:induction false} Absent(tags: seq<Tag>, name: string)
    requires name !in Names(tags)
    ensures Get(tags, name) == ""
  {
    if tags != [] {
      assert tags[0].name in Names(tags) && Names(tags[1..]) <= Names(tags);
      Absent(tags[1..], name);
    }
  }

  /** What the fields write is the known tags in their order. */
  lemma FieldsArePicked(tags: seq<Tag>)
    requires exists signed :: Legal(tags, signed)
    ensures KnownCanonicalPairs(FieldsOf(tags), Names(tags)) == PickAll(tags, CANONICAL_ORDER)
    ensures KnownPairs(FieldsOf(tags), Names(tags)) == PickAll(tags, KNOWN_ORDER)
  {
    hide Get, Field, OptionalField, Pick, Names, PickAll, KNOWN_ORDER, CANONICAL_ORDER;
    var signed :| Legal(tags, signed);
    hide Legal;
    LegalFields(tags, signed);
    PickedInOrder(tags);
    FieldOfVersion(tags, signed);
  }

  lemma FieldOfVersion(tags: seq<Tag>, signed: bool)
    requires Legal(tags, signed)
    ensures Field("v", Get(tags, "v")) == [Tag("v", Get(tags, "v"))]
  {
    assert "v" in Required(signed);
  }

  lemma NamesAdded(tags: seq<Tag>, t: Tag)
    requires Distinct(tags) && t.name !in Names(tags)
    ensures Distinct(tags + [t]) && Names(tags + [t]) == Names(tags) + {t.name}
  {
    hide Names, Distinct;
    NamesOfOne(t);
    NamesConcat(tags, [t]);
    DistinctConcat(tags, [t]);
  }

  lemma {:induction false} UnknownAdded(tags: seq<Tag>, t: Tag)
    ensures Unknown(tags + [t]) == Unknown(tags) + if t.name in KNOWN_ORDER then [] else [t]
  {
    hide KNOWN_ORDER;
    if tags == [] {
      assert tags + [t] == [t] && [t][1..] == [];
    } else {
      UnknownAdded(tags[1..], t);
      assert (tags + [t])[1..] == tags[1..] + [t];
    }
  }

  lemma {:induction false} GetAdded(tags: seq<Tag>, t: Tag, name: string)
    requires t.name !in Names(tags)
    ensures Get(tags + [t], name) == if name == t.name then t.value else Get(tags, name)
  {
    if tags == [] {
      assert tags + [t] == [t];
    } else {
      assert tags[0].name in Names(tags) && Names(tags[1..]) <= Names(tags);
      hide Names;
      GetAdded(tags[1..], t, name);
      assert (tags + [t])[1..] == tags[1..] + [t];
    }
  }

  lemma LegalField(tags: seq<Tag>, signed: bool, name: string)
    requires Legal(tags, signed) && name in Required(true)
    ensures Field(name, Get(tags, name)) == Pick(tags, name)
  {
    MeaningExact(tags);
    assert !signed ==> "sg" !in Names(tags);
  }

  lemma LegalFields(tags: seq<Tag>, signed: bool)
    requires Legal(tags, signed)
    ensures Field("v", Get(tags, "v")) == Pick(tags, "v")
    ensures Field("gi", Get(tags, "gi")) == Pick(tags, "gi")
    ensures Field("ek", Get(tags, "ek")) == Pick(tags, "ek")
    ensures Field("ku", Get(tags, "ku")) == Pick(tags, "ku")
    ensures Field("lr", Get(tags, "lr")) == Pick(tags, "lr")
    ensures Field("su", Get(tags, "su")) == Pick(tags, "su")
    ensures Field("sg", Get(tags, "sg")) == Pick(tags, "sg")
    ensures forall name :: OptionalField(name, NonEmpty(Get(tags, name)), Names(tags)) == Pick(tags, name)
  {
    forall name | name in Required(true) ensures Field(name, Get(tags, name)) == Pick(tags, name) {
      LegalField(tags, signed, name);
    }
    forall name ensures OptionalField(name, NonEmpty(Get(tags, name)), Names(tags)) == Pick(tags, name) {
      if name !in Names(tags) {
        Absent(tags, name);
      }
    }
  }

  lemma {:induction false} PickAllSnoc(tags: seq<Tag>, names: seq<string>, k: nat)
    requires k < |names|
    ensures PickAll(tags, names[..k + 1]) == PickAll(tags, names[..k]) + Pick(tags, names[k])
  {
    hide Pick;
    if k > 0 {
      PickAllSnoc(tags, names[1..], k - 1);
      assert names[..k + 1][1..] == names[1..][..k] && names[..k][1..] == names[1..][..k - 1];
    }
  }

  lemma PickedInOrder(tags: seq<Tag>)
    ensures PickAll(tags, KNOWN_ORDER) ==
            Pick(tags, "v") + Pick(tags, "gi") + Pick(tags, "ek") + Pick(tags, "ku") + Pick(tags, "lr") + Pick(tags, "su") +
            Pick(tags, "sg") + Pick(tags, "fl") + Pick(tags, "ka") + Pick(tags, "cu")
    ensures PickAll(tags, CANONICAL_ORDER) ==
            Pick(tags, "v") + Pick(tags, "gi") + Pick(tags, "ek") + Pick(tags, "ku") + Pick(tags, "lr") + Pick(tags, "su") +
            Pick(tags, "fl") + Pick(tags, "ka") + Pick(tags, "cu")
  {
    PickedNine(tags, KNOWN_ORDER);
    PickAllSnoc(tags, KNOWN_ORDER, 9);
    assert KNOWN_ORDER[..10] == KNOWN_ORDER;
    PickedNine(tags, CANONICAL_ORDER);
    assert CANONICAL_ORDER[..9] == CANONICAL_ORDER;
    hide Pick, PickAll;
  }

  lemma PickedNine(tags: seq<Tag>, names: seq<string>)
    requires |names| >= 9
    ensures PickAll(tags, names[..9]) ==
            Pick(tags, names[0]) + Pick(tags, names[1]) + Pick(tags, names[2]) + Pick(tags, names[3]) + Pick(tags, names[4]) +
            Pick(tags, names[5]) + Pick(tags, names[6]) + Pick(tags, names[7]) + Pick(tags, names[8])
  {
    hide Pick, PickAll;
    PickedNone(tags, names[..0]);
    PickAllSnoc(tags, names, 0);
    PickAllSnoc(tags, names, 1);
    PickAllSnoc(tags, names, 2);
    PickAllSnoc(tags, names, 3);
    PickAllSnoc(tags, names, 4);
    PickAllSnoc(tags, names, 5);
    PickAllSnoc(tags, names, 6);
    PickAllSnoc(tags, names, 7);
    PickAllSnoc(tags, names, 8);
  }

  lemma PickedNone(tags: seq<Tag>, names: seq<string>)
    requires names == []
    ensures PickAll(tags, names) == []
  {
  }

  lemma AfterTagsConcat(a: seq<Tag>, b: seq<Tag>, rest: Result<seq<Tag>, TxtError>)
    ensures AfterTags(a, AfterTags(b, rest)) == AfterTags(a + b, rest)
    ensures AfterTags([], rest) == rest
  {
    if rest.Ok? {
      assert a + (b + rest.value) == a + b + rest.value;
      assert [] + rest.value == rest.value;
    }
  }

  predicate MissingRequired(f: Fields, signed: bool) {
    f.v == "" || f.gi == "" || f.ek == "" || f.ku == "" || f.lr == "" || f.su == "" || (signed && f.sg == "")
  }

  lemma MissingRequiredExact(tags: seq<Tag>, signed: bool)
    ensures MissingRequired(FieldsOf(tags), signed) <==> exists name | name in Required(signed) :: Get(tags, name) == ""
  {
    hide Get;
    assert Required(signed) == {"v", "gi", "ek", "ku", "lr", "su"} + if signed then {"sg"} else {};
    if MissingRequired(FieldsOf(tags), signed) {
      var name := if Get(tags, "v") == "" then "v" else if Get(tags, "gi") == "" then "gi"
                  else if Get(tags, "ek") == "" then "ek" else if Get(tags, "ku") == "" then "ku"
                  else if Get(tags, "lr") == "" then "lr" else if Get(tags, "su") == "" then "su" else "sg";
      assert name in Required(signed) && Get(tags, name) == "";
    }
  }

  lemma ReadNone(first: bool, seen: set<string>, signed: bool)
    ensures ReadElements([], first, seen, signed) == ReadElements([""], first, seen, signed) == Ok([])
  {
  }

  /** The loop over the elements. */
  method ParseElements(elements: seq<string>, signed: bool) returns (r: Result<DnsIdTxtRecord, TxtError>)
    ensures r.Err? ==> ReadElements(elements, true, {}, signed) == Err(r.error)
    ensures r.Ok? ==> fresh(r.value) && r.value.Valid() && ReadElements(elements, true, {}, signed) == Ok(r.value.tags)
  {
    hide FieldsOf, Distinct, Unknown, ReadElement;
    var record := new DnsIdTxtRecord();
    ghost var all := ReadElements(elements, true, {}, signed);
    AfterTagsConcat([], [], all);
    assert elements[0..] == elements;
    for i := 0 to |elements|
      invariant fresh(record) && record.Valid()
      invariant all == AfterTags(record.tags, ReadElements(elements[i..], i == 0, record.parsedTags, signed))
    {
      var element := elements[i];
      ghost var rest := elements[i + 1..];
      assert elements[i..] == [element] + rest;
      if element == "" {
        if i == |elements| - 1 {
          ReadNone(i == 0, record.parsedTags, signed);
          ReadNone(false, record.parsedTags, signed);
          continue;
        }
        return Err(EmptyElement);
      }
      var tag := ReadElement(element, i == 0);
      if tag.Err? {
        return Err(tag.error);
      }
      if tag.value.name in record.parsedTags {
        return Err(DuplicateTag);
      }
      if !signed && tag.value.name == "sg" {
        return Err(UnexpectedSignature);
      }
      AfterTagsConcat(record.tags, [tag.value], ReadElements(rest, false, record.parsedTags + {tag.value.name}, signed));
      assert elements[i..][1..] == rest;
      record.Add(tag.value);
    }
    ReadNone(elements == [], record.parsedTags, signed);
    assert elements[|elements|..] == [] && record.tags + [] == record.tags;
    return Ok(record);
  }

  method ParseTagPairs(raw: string, signed: bool, vFirst: bool) returns (r: Result<DnsIdTxtRecord, TxtError>)
    ensures r.Err? ==> Read(raw, signed, vFirst) == Err(r.error)
    ensures r.Ok? ==> fresh(r.value) && r.value.Complete() && Read(raw, signed, vFirst) == Ok(r.value.tags)
  {
    hide Split, FieldsOf, Distinct, Unknown, ReadElements, FindVersion, Legal, MissingRequired, Required;
    var elements := Split(raw);
    var version := Version(elements, vFirst);
    if version.None? {
      return Err(MissingVersion);
    }
    if version.value !in SUPPORTED_VERSIONS {
      return Err(UnsupportedVersion);
    }
    r := ParseElements(elements, signed);
    if r.Ok? {
      MissingRequiredExact(r.value.tags, signed);
      if MissingRequired(r.value.fields, signed) {
        return Err(MissingTag);
      }
      ReadIsSpelled(raw, signed, vFirst);
    }
  }

  method ParseUnsignedCanonical(raw: string) returns (r: Result<DnsIdTxtRecord, TxtError>)
    ensures r.Err? ==> ReadUnsignedCanonical(raw) == Err(r.error)
    ensures r.Ok? ==> fresh(r.value) && r.value.Complete() && ReadUnsignedCanonical(raw) == Ok(r.value.tags)
  {
    r := ParseTagPairs(raw, false, false);
    if r.Ok? && r.value.Canonical() != raw {
      return Err(NotCanonical);
    }
  }
}
