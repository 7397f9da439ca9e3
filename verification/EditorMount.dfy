/** The editor's mount point on the proxy: stripping it from requests, adding it to what the editor
    sends back, and why the result cannot leave the mount. */
module EditorMount {
  import opened Basics
  import opened PercentEncoding

  const MOUNT: Bytes := "/vscode"

  /** A path and, where it differs from the standard one, its spelling. */
  datatype Link = Link(path: Bytes, raw: Bytes)

  predicate Mounted(path: Bytes) {
    MOUNT + "/" <= path
  }

  /** A spelling without the units of its first `n` decoded bytes. */
  function Rest(s: Bytes, n: nat): Bytes
    requires Unescape(s).Some? && n <= |Unescape(s).value|
    decreases n
  {
    if n == 0 then s else Rest(s[Unit(s)..], n - 1)
  }

  /** It is a suffix that spells the rest, behind a prefix that spells the first `n` bytes. */
  lemma {:induction false} RestDecodes(s: Bytes, n: nat) returns (cut: nat)
    requires Unescape(s).Some? && n <= |Unescape(s).value|
    ensures cut <= |s| && Rest(s, n) == s[cut..]
    ensures Unescape(s[cut..]) == Some(Unescape(s).value[n..]) && Unescape(s[..cut]) == Some(Unescape(s).value[..n])
    decreases n
  {
    if n == 0 {
      cut := 0;
      assert s[..0] == [] && s[0..] == s;
    } else {
      var u := Unit(s);
      var k := RestDecodes(s[u..], n - 1);
      RestJoins(s, u, k, n);
      cut := u + k;
    }
  }

  lemma {:induction false} RestJoins(s: Bytes, u: nat, k: nat, n: nat)
    requires s != [] && Unescape(s).Some? && u == Unit(s) && u + k <= |s| && 0 < n <= |Unescape(s).value|
    requires Unescape(s[u..][..k]) == Some(Unescape(s[u..]).value[..n - 1])
    ensures Unescape(s[..u + k]) == Some(Unescape(s).value[..n])
    ensures Unescape(s[u..]).value[n - 1..] == Unescape(s).value[n..] && s[u..][k..] == s[u + k..]
  {
    var head, tail := s[..u], s[u..];
    var first, others := Unescape(head).value, Unescape(tail).value;
    assert s[..u + k] == head + tail[..k];
    UnescapeAppend(head, tail[..k]);
    assert Unescape(s).value == first + others;
    assert (first + others)[..n] == first + others[..n - 1] && (first + others)[n..] == others[n - 1..];
  }

  /** One turn of the cutting loop. */
  lemma {:induction false} CutAdvances(s: Bytes, cut: nat, left: Bytes, n: nat)
    requires cut <= |s| && Unescape(s[cut..]) == Some(left) && 0 < n <= |left|
    ensures cut < |s|
    ensures
      var next := cut + (if s[cut] == '%' then 3 else 1);
      next <= |s| && Unescape(s[next..]) == Some(left[1..]) && Rest(s[next..], n - 1) == Rest(s[cut..], n)
  {
    var here := s[cut..];
    var u := Unit(here);
    assert here[u..] == s[cut + u..];
  }

  function Strip(l: Link): Link {
    if !Mounted(l.path) then l
    else if l.raw == [] then Link(l.path[|MOUNT|..], [])
    else
      EscapedPathDecodes(l.path, l.raw);
      Link(l.path[|MOUNT|..], Rest(EscapedPath(l.path, l.raw), |MOUNT|))
  }

  predicate NoDots(path: Bytes) {
    forall segment <- Segments(path) :: segment != "." && segment != ".."
  }

  predicate Rooted(path: Bytes) {
    "/" <= path
  }

  predicate Accepts(path: Bytes) {
    Rooted(path) && NoDots(Slashed(path))
  }

  function Prefix(l: Link): Link {
    Link(MOUNT + l.path, if l.raw == [] then [] else MOUNT + l.raw)
  }

  /** The cutting loop: where the spelling of the first `n` bytes ends. Every index stays in bounds. */
  method CutMount(escaped: Bytes, n: nat) returns (cut: nat)
    requires Unescape(escaped).Some? && n <= |Unescape(escaped).value|
    ensures cut <= |escaped| && escaped[cut..] == Rest(escaped, n)
    ensures Unescape(escaped[cut..]) == Some(Unescape(escaped).value[n..])
  {
    ghost var p := Unescape(escaped).value;
    cut := 0;
    assert escaped[0..] == escaped;
    for i := 0 to n
      invariant 0 <= cut <= |escaped| && Unescape(escaped[cut..]) == Some(p[i..])
      invariant Rest(escaped[cut..], n - i) == Rest(escaped, n)
    {
      CutAdvances(escaped, cut, p[i..], n - i);
      assert p[i..][1..] == p[i + 1..];
      if escaped[cut] == '%' {
        cut := cut + 3;
      } else {
        cut := cut + 1;
      }
    }
  }

  class Url {
    var path: Bytes
    var rawPath: Bytes

    function View(): Link
      reads this
    {
      Link(path, rawPath)
    }

    constructor (path: Bytes, rawPath: Bytes)
      ensures View() == Link(path, rawPath)
    {
      this.path, this.rawPath := path, rawPath;
    }

    method StripEditorMount()
      modifies this
      // only what is under the mount loses it, and its seven bytes exactly
      ensures "/vscode/" <= old(path) ==> path == old(path)[7..] && (old(rawPath) == [] ==> rawPath == [])
      ensures "/vscode/" <= old(path) && old(rawPath) != [] ==> Unescape(rawPath) == Some(path)
      ensures !("/vscode/" <= old(path)) ==> path == old(path) && rawPath == old(rawPath)
      ensures View() == Strip(old(View()))
    {
      if !Mounted(path) {
        return;
      }
      assert |path| >= |MOUNT + "/"| == |MOUNT| + 1;
      if rawPath != [] {
        var escaped := EscapedPath(path, rawPath);
        EscapedPathDecodes(path, rawPath);
        var cut := CutMount(escaped, |MOUNT|);
        rawPath := escaped[cut..];
      }
      path := path[|MOUNT|..];
    }

    method PrefixEditorMount() returns (ok: bool)
      modifies this
      // accepted are exactly the rooted paths that dot-segment removal leaves alone, backslashes read as slashes
      ensures ok <==> Rooted(old(path)) && RemoveDots(Slashed(old(path)), []) == Slashed(old(path))
      ensures ok ==> path == "/vscode" + old(path) && rawPath == if old(rawPath) == [] then [] else "/vscode" + old(rawPath)
      ensures ok <==> Accepts(old(path))
      ensures View() == if ok then Prefix(old(View())) else old(View())
    {
      if !Rooted(path) {
        return false;
      }
      RootStaysInFront(path);
      NormalExactlyWhenFixed(Slashed(path));
      var segments := Segments(Slashed(path));
      for k := 0 to |segments|
        invariant forall i :: 0 <= i < k ==> segments[i] != "." && segments[i] != ".."
      {
        if segments[k] == "." || segments[k] == ".." {
          assert segments[k] in segments;
          return false;
        }
      }
      path := MOUNT + path;
      if rawPath != [] {
        rawPath := MOUNT + rawPath;
      }
      return true;
    }
  }

  // ---- Stripping

  /** For any spelling of the mount, the stripped spelling is a suffix of what was there and still
      spells the stripped path. */
  lemma {:induction false} StrippedSpellingDecodes(l: Link)
    requires Mounted(l.path) && l.raw != []
    ensures
      var escaped, s := EscapedPath(l.path, l.raw), Strip(l);
      && s.path == l.path[|MOUNT|..] && Unescape(s.raw) == Some(s.path)
      && |s.raw| <= |escaped| && escaped[|escaped| - |s.raw|..] == s.raw
      && Unescape(escaped[..|escaped| - |s.raw|]) == Some(MOUNT)
  {
    EscapedPathDecodes(l.path, l.raw);
    var cut := RestDecodes(EscapedPath(l.path, l.raw), |MOUNT|);
    assert l.path[..|MOUNT|] == MOUNT;
  }

  lemma {:induction false} RestOfPlain(a: Bytes, t: Bytes)
    requires '%' !in a && Unescape(a + t).Some? && |a| <= |Unescape(a + t).value|
    ensures Rest(a + t, |a|) == t
  {
    if a == [] {
      assert a + t == t;
    } else {
      assert (a + t)[1..] == a[1..] + t;
      RestOfPlain(a[1..], t);
    }
  }

  lemma {:induction false} PlainPrefix(a: Bytes, b: Bytes, path: Bytes)
    requires '%' !in a
    ensures Unescape(a + b) == Some(a + path) <==> Unescape(b) == Some(path)
  {
    if a == [] {
      assert a + b == b && a + path == path;
    } else {
      PlainPrefix(a[1..], b, path);
      assert (a + b)[1..] == a[1..] + b && (a + path)[1..] == a[1..] + path;
      if Unescape(a[1..] + b).Some? {
        var v := Unescape(a[1..] + b).value;
        assert ([a[0]] + v)[1..] == v;
        assert a + path == [a[0]] + (a[1..] + path);
      }
    }
  }

  lemma {:induction false} MountedSpelling(path: Bytes, raw: Bytes)
    requires Rooted(path) && raw != []
    ensures EscapedPath(MOUNT + path, MOUNT + raw) == MOUNT + EscapedPath(path, raw)
  {
    PlainPrefix(MOUNT, raw, path);
    assert ValidEncoded(MOUNT + raw) <==> ValidEncoded(raw) by {
      assert ValidEncoded(MOUNT);
      assert forall i :: 0 <= i < |raw| ==> (MOUNT + raw)[|MOUNT| + i] == raw[i];
    }
    EscapeAppend(MOUNT, path);
    MountEscapesToItself();
    assert (MOUNT + path)[0] == '/';
  }

  lemma {:induction false} Unreserved(a: Bytes)
    requires forall i :: 0 <= i < |a| ==> !ShouldEscape(a[i])
    ensures Escape(a) == a
  {
    if a != [] {
      Unreserved(a[1..]);
      assert a == [a[0]] + a[1..];
    }
  }

  lemma MountEscapesToItself()
    ensures Escape(MOUNT) == MOUNT
  {
    Unreserved(MOUNT);
  }

  /** What stripping makes of a prefixed link: the path comes back, and its spelling as far as it is valid. */
  lemma {:induction false} StripAfterPrefix(l: Link)
    requires Rooted(l.path)
    ensures Strip(Prefix(l)) == Link(l.path, if l.raw == [] then [] else EscapedPath(l.path, l.raw))
  {
    var m := Prefix(l);
    assert Mounted(m.path) && m.path[|MOUNT|..] == l.path;
    if l.raw != [] {
      MountedSpelling(l.path, l.raw);
      EscapedPathDecodes(m.path, m.raw);
      RestOfPlain(MOUNT, EscapedPath(l.path, l.raw));
    }
  }

  /** Stripping undoes prefixing for exactly the links whose spelling uses only bytes a spelling may contain. */
  lemma {:induction false} StripUndoesPrefixExactlyWhen(l: Link)
    requires Rooted(l.path) && (l.raw == [] || Unescape(l.raw) == Some(l.path))
    ensures Strip(Prefix(l)) == l <==> ValidEncoded(l.raw)
    ensures Strip(Prefix(l)).path == l.path
    ensures l.raw != [] ==> Unescape(Strip(Prefix(l)).raw) == Some(l.path)
  {
    StripAfterPrefix(l);
    assert l.path[0] == '/';
    EscapedPathDecodes(l.path, l.raw);
    EscapeIsValid(l.path);
  }

  /** A link it does not restore: an unescaped space. */
  lemma UnescapedSpaceIsRespelled()
    ensures
      var l := Link("/a b", "/a b");
      Rooted(l.path) && Unescape(l.raw) == Some(l.path) && Strip(Prefix(l)) != l
  {
    var l := Link("/a b", "/a b");
    PlainIsItself(l.raw);
    assert l.raw[2] == ' ' && !Spellable(l.raw[2]);
    StripUndoesPrefixExactlyWhen(l);
  }

  // ---- Dot segments

  /** Without the last segment and the slash before it, if any. */
  function DropLast(output: Bytes): Bytes {
    if output == [] then [] else if output[|output| - 1] == '/' then output[..|output| - 1] else DropLast(output[..|output| - 1])
  }

  /** Section 5.2.4 of RFC 3986, rule by rule. */
  function RemoveDots(input: Bytes, output: Bytes): Bytes
    decreases |input|
  {
    if input == [] then output
    else if "../" <= input then RemoveDots(input[3..], output)
    else if "./" <= input then RemoveDots(input[2..], output)
    else if "/./" <= input then RemoveDots(input[2..], output)
    else if input == "/." then RemoveDots("/", output)
    else if "/../" <= input then RemoveDots(input[3..], DropLast(output))
    else if input == "/.." then RemoveDots("/", DropLast(output))
    else if input == "." || input == ".." then output
    else
      var n := if input[0] == '/' then 1 + Index(input[1..]) else Index(input);
      RemoveDots(input[n..], output + input[..n])
  }

  lemma {:induction false} RootedSegments(rest: Bytes)
    ensures Segments("/" + rest) == [[]] + Segments(rest)
  {
    FirstSegment([], rest);
    assert [] + "/" + rest == "/" + rest;
  }

  lemma {:induction false} TailHasNoDots(rest: Bytes)
    ensures NoDots("/" + rest) <==> NoDots(rest)
  {
    RootedSegments(rest);
    var all := Segments("/" + rest);
    assert forall segment <- Segments(rest) :: segment in all;
  }

  /** A rooted path starts with a whole segment that is no dot segment. */
  lemma {:induction false} FirstIsNoDot(rest: Bytes)
    requires NoDots(rest)
    ensures
      var i := Index(rest);
      rest[..i] != "." && rest[..i] != ".." && NoDots(rest[i..])
  {
    var i, all := Index(rest), Segments(rest);
    if i < |rest| {
      var tail := rest[i + 1..];
      assert all[0] == rest[..i] && all[1..] == Segments(tail);
      assert all[0] in all;
      assert NoDots(tail) by {
        assert forall segment <- Segments(tail) :: segment in all;
      }
      assert rest[i..] == "/" + tail;
      TailHasNoDots(tail);
    } else {
      assert rest[..i] == rest && all[0] == rest && all[0] in all;
      assert rest[i..] == [];
    }
  }

  lemma {:induction false} IndexOfDots(rest: Bytes, n: nat)
    requires n <= |rest| && (forall k :: 0 <= k < n ==> rest[k] == '.') && (n == |rest| || rest[n] == '/')
    ensures Index(rest) == n
  {
    if n > 0 {
      IndexOfDots(rest[1..], n - 1);
    }
  }

  /** No rule of the algorithm but the last fits a path whose first segment is no dot segment. */
  lemma {:induction false} NoRuleApplies(input: Bytes, rest: Bytes)
    requires input == "/" + rest && rest[..Index(rest)] != "." && rest[..Index(rest)] != ".."
    ensures !("/./" <= input) && input != "/." && !("/../" <= input) && input != "/.."
  {
    assert forall k :: 0 <= k < |rest| ==> rest[k] == input[k + 1];
    if "/./" <= input || input == "/." {
      IndexOfDots(rest, 1);
      assert false;
    }
    if "/../" <= input || input == "/.." {
      IndexOfDots(rest, 2);
      assert false;
    }
  }

  lemma {:induction false} LastRule(input: Bytes, rest: Bytes, output: Bytes)
    requires input == "/" + rest && rest[..Index(rest)] != "." && rest[..Index(rest)] != ".."
    ensures
      var n := 1 + Index(rest);
      RemoveDots(input, output) == RemoveDots(input[n..], output + input[..n])
  {
    NoRuleApplies(input, rest);
    assert input[0] == '/' && input[1..] == rest;
  }

  lemma {:induction false} NormalStep(input: Bytes, output: Bytes) returns (n: nat)
    requires Rooted(input) && NoDots(input)
    ensures 0 < n <= |input| && (input[n..] == [] || Rooted(input[n..])) && NoDots(input[n..])
    ensures RemoveDots(input, output) == RemoveDots(input[n..], output + input[..n])
  {
    var rest := input[1..];
    assert input == "/" + rest;
    TailHasNoDots(rest);
    FirstIsNoDot(rest);
    LastRule(input, rest, output);
    n := 1 + Index(rest);
    assert input[n..] == rest[n - 1..];
  }

  /** A rooted path without dot segments is left alone. */
  lemma {:induction false} NormalPathIsFixed(input: Bytes, output: Bytes)
    requires (input == [] || Rooted(input)) && NoDots(input)
    ensures RemoveDots(input, output) == output + input
    decreases |input|
  {
    if input == [] {
      assert output + input == output;
    } else {
      var n := NormalStep(input, output);
      NormalPathIsFixed(input[n..], output + input[..n]);
      assert (output + input[..n]) + input[n..] == output + input;
    }
  }

  /** Removing dot segments never lengthens a path, and shortens a rooted one that has any. */
  lemma {:induction false} RemoveDotsShortens(input: Bytes, output: Bytes)
    ensures |RemoveDots(input, output)| <= |output| + |input|
    ensures Rooted(input) && !NoDots(input) ==> |RemoveDots(input, output)| < |output| + |input|
    decreases |input|
  {
    if input == [] || input == "." || input == ".." {
    } else if "../" <= input {
      RemoveDotsShortens(input[3..], output);
    } else if "./" <= input || "/./" <= input {
      RemoveDotsShortens(input[2..], output);
    } else if input == "/." {
      RemoveDotsShortens("/", output);
    } else if "/../" <= input {
      DropLastShortens(output);
      RemoveDotsShortens(input[3..], DropLast(output));
    } else if input == "/.." {
      DropLastShortens(output);
      RemoveDotsShortens("/", DropLast(output));
    } else {
      var n := if input[0] == '/' then 1 + Index(input[1..]) else Index(input);
      RemoveDotsShortens(input[n..], output + input[..n]);
      if Rooted(input) && !NoDots(input) {
        DotsComeLater(input);
      }
    }
  }

  lemma {:induction false} DropLastShortens(output: Bytes)
    ensures |DropLast(output)| <= |output|
  {
    if output != [] {
      DropLastShortens(output[..|output| - 1]);
    }
  }

  /** A rooted path whose first segment is no dot segment has them in the rest. */
  lemma {:induction false} DotsComeLater(input: Bytes)
    requires Rooted(input) && !NoDots(input)
    requires !("/./" <= input) && input != "/." && !("/../" <= input) && input != "/.."
    ensures
      var n := 1 + Index(input[1..]);
      Rooted(input[n..]) && !NoDots(input[n..])
  {
    var rest := input[1..];
    assert input == "/" + rest;
    TailHasNoDots(rest);
    FirstSegmentIsNoDot(input, rest);
    DotsBehindFirst(rest);
    var tail := rest[Index(rest) + 1..];
    assert input[1 + Index(rest)..] == "/" + tail;
    TailHasNoDots(tail);
  }

  lemma {:induction false} DotsBehindFirst(rest: Bytes)
    requires !NoDots(rest) && rest[..Index(rest)] != "." && rest[..Index(rest)] != ".."
    ensures Index(rest) < |rest| && !NoDots(rest[Index(rest) + 1..])
  {
    var i := Index(rest);
    var segment :| segment in Segments(rest) && (segment == "." || segment == "..");
    if i < |rest| {
      assert Segments(rest) == [rest[..i]] + Segments(rest[i + 1..]);
      assert segment in Segments(rest[i + 1..]);
    }
  }

  lemma {:induction false} FirstSegmentIsNoDot(input: Bytes, rest: Bytes)
    requires input == "/" + rest && !("/./" <= input) && input != "/." && !("/../" <= input) && input != "/.."
    ensures rest[..Index(rest)] != "." && rest[..Index(rest)] != ".."
  {
    var i := Index(rest);
    var first := rest[..i];
    assert i < |rest| ==> input[..i + 2] == "/" + first + "/" && input[..i + 2] <= input;
    assert i == |rest| ==> input == "/" + first;
  }

  /** A rooted path has no dot segments exactly when removing them changes nothing. */
  lemma {:induction false} NormalExactlyWhenFixed(path: Bytes)
    requires Rooted(path)
    ensures NoDots(path) <==> RemoveDots(path, []) == path
  {
    if NoDots(path) {
      NormalIsFixed(path);
    } else {
      RemoveDotsShortens(path, []);
    }
  }

  lemma {:induction false} MountHasNoDots(path: Bytes)
    requires Accepts(path)
    ensures NoDots(Slashed(MOUNT + path)) && NoDots(MOUNT + path)
  {
    var rest := path[1..];
    assert path == "/" + rest;
    assert Slashed(path) == "/" + Slashed(rest);
    TailHasNoDots(Slashed(rest));
    NoDotsBehindMount(Slashed(rest));
    assert Slashed(MOUNT + path) == MOUNT + "/" + Slashed(rest);
    SlashedNoDots(MOUNT + path);
  }

  lemma {:induction false} NoDotsBehind(name: Bytes, rest: Bytes)
    requires NoDots(rest) && Index(name) == |name| > 2
    ensures NoDots("/" + (name + "/" + rest))
  {
    FirstSegment(name, rest);
    TailHasNoDots(name + "/" + rest);
  }

  lemma {:induction false} NoDotsBehindMount(rest: Bytes)
    requires NoDots(rest)
    ensures NoDots(MOUNT + "/" + rest)
  {
    var name := MOUNT[1..];
    PlainIndex(name);
    NoDotsBehind(name, rest);
    assert MOUNT + "/" + rest == "/" + (name + "/" + rest);
  }

  lemma {:induction false} PlainIndex(a: Bytes)
    requires '/' !in a
    ensures Index(a) == |a|
  {
  }

  lemma {:induction false} SlashedNoDots(path: Bytes)
    requires NoDots(Slashed(path))
    ensures NoDots(path)
  {
    forall segment | segment in Segments(path) ensures segment != "." && segment != ".." {
      if segment == "." || segment == ".." {
        SlashingKeepsSegment(path, segment);
      }
    }
  }

  /** An accepted path stays under the mount however its dot segments are resolved, with backslashes
      read as slashes or not. */
  lemma {:induction false} AcceptedPathIsNormal(path: Bytes)
    requires Accepts(path)
    ensures Mounted(MOUNT + path) && Mounted(Slashed(MOUNT + path))
    ensures RemoveDots(MOUNT + path, []) == MOUNT + path
    ensures RemoveDots(Slashed(MOUNT + path), []) == Slashed(MOUNT + path)
  {
    MountHasNoDots(path);
    MountStaysInFront(path);
    NormalIsFixed(MOUNT + path);
    NormalIsFixed(Slashed(MOUNT + path));
  }

  lemma {:induction false} MountStaysInFront(path: Bytes)
    requires Rooted(path)
    ensures Mounted(MOUNT + path) && Mounted(Slashed(MOUNT + path)) && Rooted(MOUNT + path) && Rooted(Slashed(MOUNT + path))
  {
    var full := MOUNT + path;
    assert full[..|MOUNT| + 1] == MOUNT + "/" && Slashed(full)[..|MOUNT| + 1] == MOUNT + "/";
  }

  lemma RootStaysInFront(path: Bytes)
    requires Rooted(path)
    ensures Rooted(Slashed(path))
  {
  }

  lemma {:induction false} NormalIsFixed(path: Bytes)
    requires Rooted(path) && NoDots(path)
    ensures RemoveDots(path, []) == path
  {
    NormalPathIsFixed(path, []);
    assert [] + path == path;
  }

  /** So does its spelling: no segment even decodes to a dot segment. The spelling itself starts with
      the mount and a slash exactly when it is rooted by a literal slash. */
  lemma {:induction false} AcceptedSpellingIsNormal(path: Bytes, raw: Bytes)
    requires Accepts(path) && Unescape(raw) == Some(path)
    ensures forall segment <- Segments(Slashed(MOUNT + raw)) :: Unescape(segment) != Some(".") && Unescape(segment) != Some("..")
    ensures RemoveDots(MOUNT + raw, []) == MOUNT + raw
    ensures RemoveDots(Slashed(MOUNT + raw), []) == Slashed(MOUNT + raw)
    ensures Mounted(MOUNT + raw) <==> Rooted(raw)
  {
    var full, spelling := MOUNT + path, MOUNT + raw;
    MountHasNoDots(path);
    PlainPrefix(MOUNT, raw, path);
    SlashedSpelling(spelling);
    var slashed := Unescape(Slashed(spelling)).value;
    forall segment, text | segment in Segments(Slashed(spelling)) && Unescape(segment) == Some(text)
      ensures text != "." && text != ".."
    {
      if text == "." || text == ".." {
        DecodedSegment(Slashed(spelling), segment, text);
        SlashingKeepsSegment(slashed, text);
      }
    }
    PlainIsItself(".");
    PlainIsItself("..");
    SlashedNoDots(spelling);
    NormalIsFixed(spelling);
    NormalIsFixed(Slashed(spelling));
    assert raw != [] ==> spelling[|MOUNT|] == raw[0];
  }

  /** Spellings rooted by an encoded slash exist for every accepted path, and leave the mount's own segment. */
  lemma {:induction false} EncodedSlashLeavesMount(path: Bytes)
    requires Accepts(path)
    ensures
      var raw := "%2F" + Escape(path[1..]);
      Unescape(raw) == Some(path) && ValidEncoded(raw) && !Mounted(MOUNT + raw) && Mounted(Prefix(Link(path, raw)).path)
  {
    var rest := path[1..];
    var raw := "%2F" + Escape(rest);
    UnescapeEscape(rest);
    EscapeIsValid(rest);
    assert raw[3..] == Escape(rest);
    assert [Decoded('2', 'F')] + rest == path;
    AcceptedSpellingIsNormal(path, raw);
    MountStaysInFront(path);
  }

  /** What a prefixed link is printed as. */
  function Printed(l: Link): Bytes {
    EscapedPath(Prefix(l).path, Prefix(l).raw)
  }

  lemma {:induction false} PrintedForm(l: Link)
    requires Rooted(l.path)
    ensures Printed(l) == MOUNT + EscapedPath(l.path, l.raw)
  {
    assert l.path[0] == '/' && (MOUNT + l.path)[0] == '/';
    if l.raw == [] {
      EscapeAppend(MOUNT, l.path);
      MountEscapesToItself();
    } else {
      MountedSpelling(l.path, l.raw);
    }
  }

  /** The browser sees the printed spelling. It has no dot segments to resolve, encoded ones included, and is
      under the mount except for valid spellings that are rooted by an encoded slash. */
  lemma {:induction false} PrintedStaysMountedExactlyWhen(l: Link)
    requires Accepts(l.path) && (l.raw == [] || Unescape(l.raw) == Some(l.path))
    ensures Mounted(Printed(l)) <==> l.raw == [] || Rooted(l.raw) || !ValidEncoded(l.raw)
    ensures RemoveDots(Printed(l), []) == Printed(l) && RemoveDots(Slashed(Printed(l)), []) == Slashed(Printed(l))
    ensures forall segment <- Segments(Slashed(Printed(l))) :: Unescape(segment) != Some(".") && Unescape(segment) != Some("..")
  {
    var spelling := EscapedPath(l.path, l.raw);
    PrintedForm(l);
    assert l.path[0] == '/';
    EscapedPathDecodes(l.path, l.raw);
    AcceptedSpellingIsNormal(l.path, spelling);
    assert Rooted(Escape(l.path)) by {
      assert Escaped('/') == "/" && Escape(l.path)[0] == '/';
    }
  }

  // ---- Response headers

  /** A parsed header value; `extra` stands for its query and fragment. */
  datatype Reference = Reference(scheme: string, host: string, user: bool, link: Link, extra: string)

  predicate Local(r: Reference) {
    r.host == "" && r.scheme == ""
  }

  predicate Loopback(r: Reference, target: string) {
    r.host == target && r.scheme in {"", "http", "https"}
  }

  /** An empty path of the editor itself is its root. */
  function Completed(r: Reference, target: string): Link {
    if Loopback(r, target) && r.link.path == [] then r.link.(path := "/") else r.link
  }

  predicate OwnRoot(r: Reference, target: string) {
    (Local(r) || Loopback(r, target)) && Rooted(Completed(r, target).path)
  }

  /** The Location of a response: None leaves the header as it was. */
  method RewriteLocation(target: string, location: Option<Reference>) returns (err: bool, rewritten: Option<Reference>)
    // only a reference without scheme and host, or one to the editor over http, https or no scheme, is touched, and
    // only if its path is rooted or, for the latter, empty
    ensures rewritten.Some? || err ==>
              && location.Some?
              && ((location.value.host == "" && location.value.scheme == "")
                  || (location.value.host == target && location.value.scheme in {"", "http", "https"}))
              && ("/" <= location.value.link.path || (location.value.host == target && location.value.link.path == []))
    ensures location.Some? && "/" <= location.value.link.path && !location.value.user
            && ((location.value.host == "" && location.value.scheme == "")
                || (location.value.host == target && location.value.scheme in {"", "http", "https"}))
            ==> err || (rewritten.Some? && rewritten.value.link.path == "/vscode" + location.value.link.path)
    ensures location.Some? && location.value.link.path == [] && !location.value.user
            && location.value.host == target && location.value.scheme in {"", "http", "https"}
            ==> rewritten.Some? && rewritten.value.link.path == "/vscode/"
    ensures location.None? || !OwnRoot(location.value, target) ==> !err && rewritten.None?
    ensures location.Some? && OwnRoot(location.value, target) ==>
              (err <==> location.value.user || !NoDots(Slashed(Completed(location.value, target).path)))
    ensures location.Some? && OwnRoot(location.value, target) ==> (rewritten.Some? <==> !err)
    // never another host, always under the mount, and stripping leads back to what the editor meant
    ensures rewritten.Some? ==>
              && Local(rewritten.value) && rewritten.value.extra == location.value.extra && !rewritten.value.user
              && Mounted(rewritten.value.link.path)
              && RemoveDots(Slashed(rewritten.value.link.path), []) == Slashed(rewritten.value.link.path)
              && rewritten.value.link == Prefix(Completed(location.value, target))
              && Strip(rewritten.value.link).path == Completed(location.value, target).path
  {
    err, rewritten := false, None;
    if location.None? {
      return;
    }
    var r := location.value;
    var link := Completed(r, target);
    if (Local(r) || Loopback(r, target)) && Rooted(link.path) {
      if r.user {
        err := true;
        return;
      }
      var u := new Url(link.path, link.raw);
      var ok := u.PrefixEditorMount();
      if !ok {
        err := true;
        return;
      }
      AcceptedPathIsNormal(link.path);
      StripAfterPrefix(link);
      rewritten := Some(Reference("", "", false, u.View(), r.extra));
    }
  }

  /** Service-Worker-Allowed: None removes the header. */
  method RewriteWorkerScope(scope: Option<Reference>) returns (rewritten: Option<Reference>)
    ensures rewritten.Some? <==>
            scope.Some? && Local(scope.value) && !scope.value.user && scope.value.extra == "" && Accepts(scope.value.link.path)
    ensures rewritten.Some? ==>
              && rewritten.value == scope.value.(link := Prefix(scope.value.link)) && Mounted(rewritten.value.link.path)
              && RemoveDots(Slashed(rewritten.value.link.path), []) == Slashed(rewritten.value.link.path)
  {
    rewritten := None;
    if scope.Some? && Local(scope.value) && !scope.value.user && scope.value.extra == "" {
      var u := new Url(scope.value.link.path, scope.value.link.raw);
      var ok := u.PrefixEditorMount();
      if ok {
        AcceptedPathIsNormal(scope.value.link.path);
        rewritten := Some(scope.value.(link := u.View()));
      }
    }
  }
}
