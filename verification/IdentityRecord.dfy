/** The record of managed accounts that survives a container: one "name:verifier" line per account. */
module IdentityRecord {
  import opened Basics
  import opened Text
  import opened Sorting

  datatype Identity = Identity(name: string, hash: string)

  /** A verifier someone can authenticate against: not empty, locked or disabled. */
  predicate UsableHash(h: string) {
    h != "" && h[0] != '!' && h[0] != '*'
  }

  predicate Restorable(id: Identity) {
    && id.name != "" && UsableHash(id.hash)
    && ':' !in id.name && '\n' !in id.name && ':' !in id.hash && '\n' !in id.hash
  }

  function Kept(ids: seq<Identity>): seq<Identity> {
    if ids == [] then [] else (if Restorable(ids[0]) then [ids[0]] else []) + Kept(ids[1..])
  }

  function Line(id: Identity): string {
    id.name + ":" + id.hash
  }

  function Record(ids: seq<Identity>): string {
    if ids == [] then "" else Line(ids[0]) + "\n" + Record(ids[1..])
  }

  // ---- Order

  predicate Before(a: string, b: string) {
    a == [] || (b != [] && (a[0] < b[0] || (a[0] == b[0] && Before(a[1..], b[1..]))))
  }

  predicate ByName(a: Identity, b: Identity) {
    Before(a.name, b.name)
  }

  /** Names are ordered by their first difference, and a name comes before its extensions. */
  lemma {:induction false} BeforeIsLexicographic(p: string, c: char, a: string, d: char, b: string)
    ensures Before(p, p + [c] + a) && !Before(p + [c] + a, p)
    ensures c != d ==> (Before(p + [c] + a, p + [d] + b) <==> c < d)
  {
    if p == [] {
      assert p + [c] + a == [c] + a && p + [d] + b == [d] + b;
    } else {
      assert (p + [c] + a)[1..] == p[1..] + [c] + a && (p + [d] + b)[1..] == p[1..] + [d] + b;
      BeforeIsLexicographic(p[1..], c, a, d, b);
    }
  }

  lemma {:induction false} BeforeIsTotal(a: string, b: string)
    ensures Before(a, b) || Before(b, a)
    ensures Before(a, b) && Before(b, a) ==> a == b
  {
    if a != [] && b != [] {
      BeforeIsTotal(a[1..], b[1..]);
      assert a[0] == b[0] && a[1..] == b[1..] ==> a == [a[0]] + a[1..] == b;
    }
  }

  lemma {:induction false} BeforeIsTransitive(a: string, b: string, c: string)
    requires Before(a, b) && Before(b, c)
    ensures Before(a, c)
  {
    if a != [] && a[0] == b[0] == c[0] {
      BeforeIsTransitive(a[1..], b[1..], c[1..]);
    }
  }

  lemma ByNameIsPreorder()
    ensures TotalPreorder(ByName)
  {
    forall a, b ensures ByName(a, b) || ByName(b, a) {
      BeforeIsTotal(a.name, b.name);
    }
    forall a, b, c | ByName(a, b) && ByName(b, c) ensures ByName(a, c) {
      BeforeIsTransitive(a.name, b.name, c.name);
    }
  }

  // ---- Printing

  /** sort.Slice by name, in place. */
  method SortByName(ids: array<Identity>)
    modifies ids
    ensures ids[..] == Sort(old(ids[..]), ByName)
  {
    ghost var was := ids[..];
    var sorted := Sort(ids[..], ByName);
    SortPermutes(was, ByName);
    for i := 0 to ids.Length
      invariant forall k :: 0 <= k < i ==> ids[k] == sorted[k]
    {
      ids[i] := sorted[i];
    }
  }

  method RenderIdentityRecord(ids: array<Identity>) returns (record: string)
    modifies ids
    ensures ids[..] == Sort(old(ids[..]), ByName)
    ensures record == Record(Kept(Sort(old(ids[..]), ByName)))
  {
    SortByName(ids);
    ghost var sorted := ids[..];
    record := "";
    ghost var done: seq<Identity> := [];
    for i := 0 to ids.Length
      invariant ids[..] == sorted
      invariant done == Kept(sorted[..i]) && record == Record(done)
    {
      var id := ids[i];
      assert sorted[..i + 1] == sorted[..i] + [id];
      KeptAppend(sorted[..i], id);
      if id.name == "" || !UsableHash(id.hash) {
        continue;
      }
      if ':' in id.name || '\n' in id.name || ':' in id.hash || '\n' in id.hash {
        continue;
      }
      RecordAppend(done, id);
      done := done + [id];
      record := record + Line(id) + "\n";
    }
    assert sorted[..ids.Length] == sorted;
  }

  lemma {:induction false} KeptAppend(ids: seq<Identity>, id: Identity)
    ensures Kept(ids + [id]) == Kept(ids) + (if Restorable(id) then [id] else [])
  {
    var last := if Restorable(id) then [id] else [];
    if ids == [] {
      assert ids + [id] == [id] && [id][1..] == [] && Kept([]) == [];
      assert last + [] == last && [] + last == last;
    } else {
      KeptAppend(ids[1..], id);
      assert (ids + [id])[0] == ids[0] && (ids + [id])[1..] == ids[1..] + [id];
      var head := if Restorable(ids[0]) then [ids[0]] else [];
      assert Kept(ids + [id]) == head + Kept(ids[1..] + [id]);
      assert head + (Kept(ids[1..]) + last) == (head + Kept(ids[1..])) + last;
    }
  }

  lemma {:induction false} RecordAppend(ids: seq<Identity>, id: Identity)
    ensures Record(ids + [id]) == Record(ids) + id.name + ":" + id.hash + "\n"
  {
    if ids == [] {
      assert ids + [id] == [id] && [id][1..] == [];
    } else {
      assert (ids + [id])[1..] == ids[1..] + [id];
      RecordAppend(ids[1..], id);
    }
  }

  /** Kept are exactly the accounts with a name and a verifier that is neither empty, locked nor disabled, and without
      a colon or line break in either. */
  lemma {:induction false} KeptIsExact(ids: seq<Identity>, id: Identity)
    ensures id in Kept(ids) <==>
            && id in ids && id.name != "" && id.hash != "" && id.hash[0] != '!' && id.hash[0] != '*'
            && ':' !in id.name && '\n' !in id.name && ':' !in id.hash && '\n' !in id.hash
  {
    if ids != [] {
      KeptIsExact(ids[1..], id);
      assert ids == [ids[0]] + ids[1..];
    }
  }

  // ---- Parsing

  /** strings.Split(s, "\n") */
  function Lines(s: string): seq<string> {
    var i := Find(s, '\n');
    if i == |s| then [s] else [s[..i]] + Lines(s[i + 1..])
  }

  /** strings.Cut at the colon, and what the parser accepts of it. */
  function ParseText(text: string): Option<Identity> {
    var i := Find(text, ':');
    if i == |text| || i == 0 || !UsableHash(text[i + 1..]) then None else Some(Identity(text[..i], text[i + 1..]))
  }

  function ParseLine(line: string): Option<Identity> {
    ParseText(TrimSpace(line))
  }

  function Found(o: Option<Identity>): seq<Identity> {
    if o.Some? then [o.value] else []
  }

  /** What `parse` finds in the lines, in order. */
  function Collect(lines: seq<string>, parse: string -> Option<Identity>): seq<Identity> {
    if lines == [] then [] else Found(parse(lines[0])) + Collect(lines[1..], parse)
  }

  function ParseAll(lines: seq<string>): seq<Identity> {
    Collect(lines, ParseLine)
  }

  lemma {:induction false} CollectAppend(lines: seq<string>, line: string, parse: string -> Option<Identity>)
    ensures Collect(lines + [line], parse) == Collect(lines, parse) + Found(parse(line))
  {
    if lines == [] {
      assert lines + [line] == [line] && [line][1..] == [];
    } else {
      assert (lines + [line])[1..] == lines[1..] + [line];
      CollectAppend(lines[1..], line, parse);
    }
  }

  lemma CollectNext(lines: seq<string>, k: nat, parse: string -> Option<Identity>)
    requires k < |lines|
    ensures Collect(lines[..k + 1], parse) == Collect(lines[..k], parse) + Found(parse(lines[k]))
  {
    CollectAppend(lines[..k], lines[k], parse);
    assert lines[..k + 1] == lines[..k] + [lines[k]];
  }

  method ParseIdentityRecord(raw: string) returns (ids: seq<Identity>)
    ensures ids == ParseAll(Lines(raw))
  {
    var lines := Lines(raw);
    ids := ParseLines(lines);
  }

  method ParseLines(lines: seq<string>) returns (ids: seq<Identity>)
    ensures ids == ParseAll(lines)
  {
    ids := [];
    for k := 0 to |lines|
      invariant ids == Collect(lines[..k], ParseLine)
    {
      CollectNext(lines, k, ParseLine);
      var found := Split(lines[k]);
      if found.Some? {
        ids := ids + [found.value];
      }
    }
    assert lines[..|lines|] == lines;
  }

  /** The body of the loop: trim, cut, and skip what is not an account. */
  method Split(line: string) returns (found: Option<Identity>)
    ensures found == ParseLine(line)
  {
    var text := TrimSpace(line);
    var i := Find(text, ':');
    if i == |text| || text[..i] == "" || !UsableHash(text[i + 1..]) {
      return None;
    }
    return Some(Identity(text[..i], text[i + 1..]));
  }

  // ---- Round trip

  lemma {:induction false} FindAppend(a: string, c: char, b: string)
    requires c !in a
    ensures Find(a + [c] + b, c) == |a| && Find(a, c) == |a|
  {
    if a == [] {
      assert a + [c] + b == [c] + b;
    } else {
      assert (a + [c] + b)[1..] == a[1..] + [c] + b;
      FindAppend(a[1..], c, b);
    }
  }

  lemma {:induction false} FirstLine(line: string, rest: string, parse: string -> Option<Identity>)
    requires '\n' !in line
    ensures Collect(Lines(line + "\n" + rest), parse) == Found(parse(line)) + Collect(Lines(rest), parse)
  {
    FindAppend(line, '\n', rest);
    var all := line + "\n" + rest;
    assert all[..|line|] == line && all[|line| + 1..] == rest;
  }

  lemma {:induction false} OnlyLine(line: string, parse: string -> Option<Identity>)
    requires '\n' !in line
    ensures Collect(Lines(line), parse) == Found(parse(line))
  {
    FindAppend(line, '\n', []);
    assert Lines(line) == [line];
    assert Lines(line)[1..] == [];
  }

  lemma {:induction false} EmptyRecord()
    ensures ParseAll(Lines("")) == []
  {
    OnlyLine("", ParseLine);
    assert TrimLeft("") == "" && TrimRight("") == "";
  }

  lemma {:induction false} LineHasNoBreak(id: Identity)
    requires Restorable(id)
    ensures '\n' !in Line(id)
  {
  }

  /** A trimmed line is an account exactly when it has a colon, a name before it, and behind it a verifier that is
      neither empty, locked nor disabled. */
  lemma {:induction false} TextRoundTrip(name: string, hash: string)
    requires ':' !in name
    ensures ParseText(name) == None
    ensures ParseText(name + ":" + hash) ==
            if name != "" && hash != "" && hash[0] != '!' && hash[0] != '*' then Some(Identity(name, hash)) else None
  {
    var text := name + ":" + hash;
    FindAppend(name, ':', hash);
    assert text[..|name|] == name && text[|name| + 1..] == hash;
  }

  lemma {:induction false} ParsedIsWhole(text: string)
    requires ParseText(text).Some?
    ensures Line(ParseText(text).value) == text
  {
    var i := Find(text, ':');
    assert text == text[..i] + ":" + text[i + 1..];
  }

  lemma {:induction false} CleanLine(id: Identity)
    requires Restorable(id)
    ensures Clean(Line(id)) <==> Leading(id.name) == 0 && Trailing(id.hash) == 0
  {
    VisibleIsNoSpace(":");
    assert Line(id) == id.name + [':'] + id.hash;
    LeadingBefore(id.name, ':', id.hash);
    TrailingBehind(id.name, ':', id.hash);
  }

  /** A line comes back exactly when it has no outer white space: none before the name, none after the verifier. */
  lemma {:induction false} LineRoundTrip(id: Identity)
    requires Restorable(id)
    ensures ParseLine(Line(id)) == Some(id) <==> Leading(id.name) == 0 && Trailing(id.hash) == 0
  {
    var line := Line(id);
    CleanLine(id);
    TrimIsClean(line);
    if Clean(line) {
      TrimDropsLineEnd(line);
      TextRoundTrip(id.name, id.hash);
    } else if ParseLine(line) == Some(id) {
      ParsedIsWhole(TrimSpace(line));
    }
  }

  ghost predicate Plain(id: Identity) {
    Restorable(id) && Leading(id.name) == 0 && Trailing(id.hash) == 0
  }

  lemma {:induction false} AtMostOnePerLine(ids: seq<Identity>)
    requires forall id <- ids :: Restorable(id)
    ensures |ParseAll(Lines(Record(ids)))| <= |ids|
  {
    if ids == [] {
      EmptyRecord();
    } else {
      assert ids[0] in ids;
      LineHasNoBreak(ids[0]);
      FirstLine(Line(ids[0]), Record(ids[1..]), ParseLine);
      AtMostOnePerLine(ids[1..]);
    }
  }

  lemma {:induction false} HeadsMatch(first: seq<Identity>, others: seq<Identity>, id: Identity, rest: seq<Identity>)
    requires |first| <= 1 && |others| <= |rest|
    ensures first + others == [id] + rest <==> first == [id] && others == rest
  {
    if first + others == [id] + rest {
      assert |first| == 1;
      assert first[0] == (first + others)[0] && others == (first + others)[1..];
      assert rest == ([id] + rest)[1..];
    }
  }

  /** Reading a record back gives exactly its accounts if and only if none of them has outer white space. */
  lemma {:induction false} RecordRoundTripExactlyWhen(ids: seq<Identity>)
    requires forall id <- ids :: Restorable(id)
    ensures ParseAll(Lines(Record(ids))) == ids <==> forall id <- ids :: Plain(id)
  {
    if ids == [] {
      EmptyRecord();
    } else {
      var id, rest := ids[0], ids[1..];
      assert id in ids;
      LineHasNoBreak(id);
      FirstLine(Line(id), Record(rest), ParseLine);
      LineRoundTrip(id);
      RecordRoundTripExactlyWhen(rest);
      AtMostOnePerLine(rest);
      assert ids == [id] + rest;
      HeadsMatch(Found(ParseLine(Line(id))), ParseAll(Lines(Record(rest))), id, rest);
    }
  }

  /** What parsing returns for what rendering wrote: the sorted, restorable accounts. */
  lemma RestoredAccounts(ids: seq<Identity>)
    requires forall id <- ids :: Restorable(id) ==> Plain(id)
    ensures ParseAll(Lines(Record(Kept(Sort(ids, ByName))))) == Kept(Sort(ids, ByName))
  {
    var kept := Kept(Sort(ids, ByName));
    forall id | id in kept ensures Plain(id) {
      KeptIsExact(Sort(ids, ByName), id);
      SortPermutes(ids, ByName);
      assert id in multiset(ids);
    }
    RecordRoundTripExactlyWhen(kept);
  }

  // ---- Truncation

  lemma {:induction false} ColonKeepsTrailing(a: string, b: string)
    ensures Trailing(a + ":" + b) == Trailing(b)
  {
    VisibleIsNoSpace(":");
    assert a + ":" + b == a + [':'] + b;
    TrailingBehind(a, ':', b);
  }

  lemma {:induction false} TrimRightBehindColon(a: string, b: string)
    ensures TrimRight(a + ":" + b) == a + ":" + TrimRight(b)
  {
    forall t ensures Trailing(a + ":" + t) == Trailing(t) {
      ColonKeepsTrailing(a, t);
    }
    ShortenBehind(a + ":", b, Trailing);
    TrimRightShortens(a + ":" + b);
    TrimRightShortens(b);
  }

  lemma {:induction false} CutBeforeColon(name: string)
    requires ':' !in name
    ensures ParseLine(name) == None
  {
    TrimLeftKeepsOut(name, ':');
    TrimRightKeepsOut(TrimLeft(name), ':');
    FindAppend(TrimSpace(name), ':', []);
  }

  lemma {:induction false} CutBehindColon(name: string, part: string)
    requires name != "" && ':' !in name && Leading(name) == 0
    ensures
      var o := ParseLine(name + ":" + part);
      o.None? || (o.value.name == name && o.value.hash <= part)
  {
    TrimRightIsPrefix(part);
    var cut := name + ":" + part;
    assert cut == name + [':'] + part;
    LeadingBefore(name, ':', part);
    assert TrimLeft(cut) == cut;
    TrimRightBehindColon(name, part);
    TextRoundTrip(name, TrimRight(part));
  }

  /** A cut line gives nothing or the right name with a prefix of its verifier. */
  predicate CutFits(o: Option<Identity>, id: Identity) {
    o.None? || (o.value.name == id.name && o.value.hash <= id.hash)
  }

  /** The first `k` bytes of an account's line. */
  function Cut(id: Identity, k: nat): string
    requires k <= |Line(id)|
  {
    Line(id)[..k]
  }

  lemma {:induction false} CutInName(id: Identity, k: nat)
    requires ':' !in id.name && k <= |id.name|
    ensures CutFits(ParseLine(Cut(id, k)), id)
  {
    assert Cut(id, k) == id.name[..k];
    assert ':' !in Cut(id, k);
    CutBeforeColon(Cut(id, k));
  }

  lemma {:induction false} CutInHash(id: Identity, k: nat)
    requires id.name != "" && ':' !in id.name && Leading(id.name) == 0 && |id.name| < k <= |Line(id)|
    ensures CutFits(ParseLine(Cut(id, k)), id)
  {
    var part := id.hash[..k - |id.name| - 1];
    assert Cut(id, k) == id.name + ":" + part;
    CutBehindColon(id.name, part);
    assert part <= id.hash;
  }

  lemma {:induction false} CutLine(id: Identity, k: nat)
    requires Restorable(id) && Leading(id.name) == 0 && k <= |Line(id)|
    ensures CutFits(ParseLine(Cut(id, k)), id)
  {
    if k <= |id.name| {
      CutInName(id, k);
    } else {
      CutInHash(id, k);
    }
  }

  /** What a parser of lines has to do for the record: read whole lines back and fit on cut ones. */
  ghost predicate Faithful(parse: string -> Option<Identity>, id: Identity) {
    && Restorable(id) && parse(Line(id)) == Some(id)
    && forall k: nat :: k <= |Line(id)| ==> CutFits(parse(Cut(id, k)), id)
  }

  lemma {:induction false} ParserIsFaithful(id: Identity)
    requires Plain(id)
    ensures Faithful(ParseLine, id)
  {
    LineRoundTrip(id);
    forall k: nat | k <= |Line(id)| ensures CutFits(ParseLine(Cut(id, k)), id) {
      CutLine(id, k);
    }
  }

  /** `got` is a prefix of `ids`, perhaps followed by the next account with a shortened verifier. */
  ghost predicate CutShort(got: seq<Identity>, ids: seq<Identity>) {
    || got <= ids
    || (0 < |got| <= |ids|
        && got[..|got| - 1] == ids[..|got| - 1]
        && got[|got| - 1].name == ids[|got| - 1].name
        && got[|got| - 1].hash <= ids[|got| - 1].hash)
  }

  lemma {:induction false} CutInFirstLine(ids: seq<Identity>, k: nat, parse: string -> Option<Identity>)
    requires ids != [] && Faithful(parse, ids[0]) && k <= |Line(ids[0])|
    ensures CutShort(Collect(Lines(Line(ids[0])[..k]), parse), ids)
  {
    LineHasNoBreak(ids[0]);
    var cut := Line(ids[0])[..k];
    assert '\n' !in cut;
    OnlyLine(cut, parse);
    assert CutFits(parse(Cut(ids[0], k)), ids[0]);
  }

  lemma {:induction false} CutRecord(ids: seq<Identity>, k: nat, parse: string -> Option<Identity>)
    requires parse("") == None && (forall id <- ids :: Faithful(parse, id)) && k <= |Record(ids)|
    ensures CutShort(Collect(Lines(Record(ids)[..k]), parse), ids)
    decreases |ids|
  {
    var cut := Record(ids)[..k];
    if ids == [] {
      assert cut == "";
      OnlyLine(cut, parse);
    } else {
      var id, line, rest := ids[0], Line(ids[0]), Record(ids[1..]);
      assert id in ids;
      if k <= |line| {
        assert cut == line[..k];
        CutInFirstLine(ids, k, parse);
      } else {
        var j := k - |line| - 1;
        assert cut == line + "\n" + rest[..j];
        LineHasNoBreak(id);
        FirstLine(line, rest[..j], parse);
        CutRecord(ids[1..], j, parse);
        CutShortAfter(id, Collect(Lines(rest[..j]), parse), ids[1..]);
        assert ids == [id] + ids[1..];
      }
    }
  }

  /** Any truncation of a record, at any byte, loses accounts only at the end. */
  lemma {:induction false} TruncationKeepsPrefix(ids: seq<Identity>, k: nat)
    requires (forall id <- ids :: Plain(id)) && k <= |Record(ids)|
    ensures CutShort(ParseAll(Lines(Record(ids)[..k])), ids)
  {
    forall id | id in ids ensures Faithful(ParseLine, id) {
      ParserIsFaithful(id);
    }
    CutBeforeColon("");
    CutRecord(ids, k, ParseLine);
  }

  lemma CutShortAfter(id: Identity, got: seq<Identity>, ids: seq<Identity>)
    requires CutShort(got, ids)
    ensures CutShort([id] + got, [id] + ids)
  {
    if !(got <= ids) {
      var n := |got|;
      assert ([id] + got)[..n] == [id] + got[..n - 1] && ([id] + ids)[..n] == [id] + ids[..n - 1];
    }
  }

  /** With distinct names there is only one way to sort, so the record does not depend on the order
      the accounts came in or on how equal names would be arranged. */
  lemma SortIsDetermined(ids: seq<Identity>, sorted: seq<Identity>)
    requires multiset(ids) == multiset(sorted) && Sorted(sorted, ByName)
    requires forall i, j :: 0 <= i < |sorted| && 0 <= j < |sorted| && sorted[i].name == sorted[j].name ==> sorted[i] == sorted[j]
    ensures sorted == Sort(ids, ByName)
  {
    ByNameIsPreorder();
    SortPermutes(ids, ByName);
    SortSorts(ids, ByName);
    forall i, j | 0 <= i < |sorted| && 0 <= j < |sorted| && ByName(sorted[i], sorted[j]) && ByName(sorted[j], sorted[i])
      ensures sorted[i] == sorted[j]
    {
      BeforeIsTotal(sorted[i].name, sorted[j].name);
    }
    SortedIsUnique(sorted, Sort(ids, ByName), ByName);
  }
}
