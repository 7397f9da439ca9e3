/** strings.TrimSpace on Go strings, whose characters are single bytes: white space is a code point and can
    take up to three of them. */
module Text {

  predicate IsAsciiSpace(c: char) {
    '\t' <= c <= '\r' || c == ' '
  }

  /** The white space beyond ASCII: U+0085, U+00A0, U+1680, U+2000 to U+200A, U+2028, U+2029, U+202F, U+205F, U+3000. */
  predicate IsWideSpace(w: string) {
    w in {
      "\U{C2}\U{85}", "\U{C2}\U{A0}", "\U{E1}\U{9A}\U{80}",
      "\U{E2}\U{80}\U{80}", "\U{E2}\U{80}\U{81}", "\U{E2}\U{80}\U{82}", "\U{E2}\U{80}\U{83}",
      "\U{E2}\U{80}\U{84}", "\U{E2}\U{80}\U{85}", "\U{E2}\U{80}\U{86}", "\U{E2}\U{80}\U{87}",
      "\U{E2}\U{80}\U{88}", "\U{E2}\U{80}\U{89}", "\U{E2}\U{80}\U{8A}", "\U{E2}\U{80}\U{A8}",
      "\U{E2}\U{80}\U{A9}", "\U{E2}\U{80}\U{AF}", "\U{E2}\U{81}\U{9F}", "\U{E3}\U{80}\U{80}"}
  }

  /** The UTF-8 encoding of a code point that unicode.IsSpace accepts. */
  predicate IsSpace(w: string) {
    if |w| == 1 then IsAsciiSpace(w[0]) else IsWideSpace(w)
  }

  predicate SpaceFirst(s: string, n: nat) {
    n <= |s| && IsSpace(s[..n])
  }

  predicate SpaceLast(s: string, n: nat) {
    n <= |s| && IsSpace(s[|s| - n..])
  }

  /** The length of the white space a text starts with, or 0. */
  function Leading(s: string): (n: nat)
    ensures n <= |s|
  {
    if SpaceFirst(s, 1) then 1 else if SpaceFirst(s, 2) then 2 else if SpaceFirst(s, 3) then 3 else 0
  }

  /** The length of the white space a text ends with, or 0. */
  function Trailing(s: string): (n: nat)
    ensures n <= |s|
  {
    if SpaceLast(s, 1) then 1 else if SpaceLast(s, 2) then 2 else if SpaceLast(s, 3) then 3 else 0
  }

  function TrimLeft(s: string): string {
    if Leading(s) == 0 then s else TrimLeft(s[Leading(s)..])
  }

  function TrimRight(s: string): string {
    if Trailing(s) == 0 then s else TrimRight(s[..|s| - Trailing(s)])
  }

  function TrimSpace(s: string): string {
    TrimRight(TrimLeft(s))
  }

  predicate Clean(s: string) {
    Leading(s) == 0 && Trailing(s) == 0
  }

  // ---- The table is the one of Unicode

  /** The UTF-8 encoding of a code point, byte by byte. */
  function Utf8(cp: int): string
    requires 0 <= cp < 0x1_0000
  {
    if cp < 0x80 then [cp as char]
    else if cp < 0x800 then [(0xC0 + cp / 64) as char, (0x80 + cp % 64) as char]
    else [(0xE0 + cp / 64 / 64) as char, (0x80 + cp / 64 % 64) as char, (0x80 + cp % 64) as char]
  }

  /** White_Space in the Latin-1 range as unicode.IsSpace has it, and the property's other code points. */
  predicate IsWhiteSpace(cp: int) {
    || 0x09 <= cp <= 0x0D || cp == 0x20 || cp == 0x85 || cp == 0xA0 || cp == 0x1680 || 0x2000 <= cp <= 0x200A
    || cp == 0x2028 || cp == 0x2029 || cp == 0x202F || cp == 0x205F || cp == 0x3000
  }

  lemma SpacesAreUnicode(cp: int)
    requires 0 <= cp < 0x1_0000
    ensures IsSpace(Utf8(cp)) <==> IsWhiteSpace(cp)
  {
  }

  // ---- White space of several bytes has no byte in the ASCII range

  predicate OneByteOrHigh(w: string) {
    |w| == 1 || ((|w| == 2 || |w| == 3) && forall i :: 0 <= i < |w| ==> w[i] >= '\U{80}')
  }

  lemma SpaceFits(w: string)
    requires IsSpace(w)
    ensures OneByteOrHigh(w)
  {
  }

  lemma LineEndIsSpace()
    ensures IsSpace("\n")
  {
  }

  // ---- How a text starts and ends

  lemma {:induction false} LeadingIs(s: string, n: nat)
    requires SpaceFirst(s, n)
    ensures Leading(s) > 0
  {
    SpaceFits(s[..n]);
  }

  /** A prefix starts with white space only if the whole does. */
  lemma {:induction false} LeadingOfPrefix(p: string, s: string)
    requires p <= s && Leading(s) == 0
    ensures Leading(p) == 0
  {
    if n :| 0 < n <= 3 && SpaceFirst(p, n) {
      var w := p[..n];
      assert w == s[..n];
      LeadingIs(s, n);
    }
  }

  /** An ASCII byte behind a text does not change whether it starts with white space. */
  lemma {:induction false} LeadingBefore(a: string, c: char, rest: string)
    requires a != [] && c < '\U{80}'
    ensures Leading(a + [c] + rest) == 0 <==> Leading(a) == 0
  {
    var s := a + [c] + rest;
    assert a == s[..|a|];
    if Leading(s) == 0 {
      LeadingOfPrefix(a, s);
    } else {
      var n :| 0 < n <= 3 && SpaceFirst(s, n);
      FirstWithin(a, c, rest, n);
      LeadingIs(a, n);
    }
  }

  lemma {:induction false} FirstWithin(a: string, c: char, rest: string, n: nat)
    requires a != [] && c < '\U{80}' && SpaceFirst(a + [c] + rest, n)
    ensures SpaceFirst(a, n)
  {
    var w := (a + [c] + rest)[..n];
    assert n <= |a| ==> w == a[..n];
    assert n > |a| ==> w[|a|] == c;
    SpaceFits(w);
  }

  /** Nor does one in front of a text change how it ends. */
  lemma {:induction false} LastWithin(a: string, c: char, b: string, n: nat)
    requires c < '\U{80}' && !IsSpace([c])
    ensures SpaceLast(a + [c] + b, n) <==> SpaceLast(b, n)
  {
    var s := a + [c] + b;
    if n <= |b| {
      assert s[|s| - n..] == b[|b| - n..];
    } else if n <= |s| {
      var w := s[|s| - n..];
      assert w[n - |b| - 1] == c;
      assert n == 1 ==> w == [c];
      if IsSpace(w) {
        SpaceFits(w);
      }
    }
  }

  lemma {:induction false} TrailingBehind(a: string, c: char, b: string)
    requires c < '\U{80}' && !IsSpace([c])
    ensures Trailing(a + [c] + b) == Trailing(b)
  {
    LastWithin(a, c, b, 1);
    LastWithin(a, c, b, 2);
    LastWithin(a, c, b, 3);
  }

  /** A text of visible ASCII characters has nothing to trim. */
  lemma {:induction false} VisibleIsClean(s: string)
    requires forall i :: 0 <= i < |s| ==> '!' <= s[i] <= '~'
    ensures Clean(s)
  {
    if n :| 0 < n <= 3 && SpaceFirst(s, n) {
      VisibleIsNoSpace(s[..n]);
    }
    if n :| 0 < n <= 3 && SpaceLast(s, n) {
      VisibleIsNoSpace(s[|s| - n..]);
    }
  }

  lemma {:induction false} VisibleIsNoSpace(w: string)
    requires w != [] && '!' <= w[0] <= '~'
    ensures !IsSpace(w)
  {
    if IsSpace(w) {
      SpaceFits(w);
    }
  }

  // ---- What trimming leaves

  lemma {:induction false} TrimLeftStarts(s: string)
    ensures Leading(TrimLeft(s)) == 0
  {
    if Leading(s) > 0 {
      TrimLeftStarts(s[Leading(s)..]);
    }
  }

  lemma {:induction false} TrimRightIsPrefix(s: string)
    ensures TrimRight(s) <= s && Trailing(TrimRight(s)) == 0
  {
    if Trailing(s) > 0 {
      TrimRightIsPrefix(s[..|s| - Trailing(s)]);
    }
  }

  /** TrimRight for any measure of what to cut off the end. */
  ghost function Shorten(s: string, trailing: string -> nat): string {
    if 0 < trailing(s) <= |s| then Shorten(s[..|s| - trailing(s)], trailing) else s
  }

  lemma {:induction false} TrimRightShortens(s: string)
    ensures TrimRight(s) == Shorten(s, Trailing)
  {
    if Trailing(s) > 0 {
      TrimRightShortens(s[..|s| - Trailing(s)]);
    }
  }

  lemma {:induction false} ShortenBehind(a: string, b: string, trailing: string -> nat)
    requires forall t :: trailing(a + t) == trailing(t) <= |t|
    ensures Shorten(a + b, trailing) == a + Shorten(b, trailing)
    decreases |b|
  {
    var n := trailing(b);
    if n > 0 {
      assert (a + b)[..|a + b| - n] == a + b[..|b| - n];
      ShortenBehind(a, b[..|b| - n], trailing);
    }
  }

  lemma {:induction false} TrimLeftKeepsOut(s: string, c: char)
    requires c !in s
    ensures c !in TrimLeft(s)
  {
    if Leading(s) > 0 {
      TrimLeftKeepsOut(s[Leading(s)..], c);
    }
  }

  lemma {:induction false} TrimRightKeepsOut(s: string, c: char)
    requires c !in s
    ensures c !in TrimRight(s)
  {
    TrimRightIsPrefix(s);
    var t := TrimRight(s);
    assert forall i :: 0 <= i < |t| ==> t[i] == s[i];
  }

  lemma {:induction false} TrimIsClean(s: string)
    ensures Clean(TrimSpace(s))
  {
    TrimLeftStarts(s);
    TrimRightIsPrefix(TrimLeft(s));
    LeadingOfPrefix(TrimSpace(s), TrimLeft(s));
  }

  /** A clean text survives the line break written after it. */
  lemma {:induction false} TrimDropsLineEnd(s: string)
    requires Clean(s)
    ensures TrimSpace(s) == s && TrimSpace(s + "\n") == s
  {
    var line := s + "\n";
    LineEndIsSpace();
    assert line[|s|..] == "\n" && line[..|s|] == s;
    if s == [] {
      assert line[..1] == "\n" && line[1..] == [];
      assert SpaceFirst(line, 1);
      assert TrimLeft(line) == TrimLeft([]);
    } else {
      assert line == s + ['\n'] + [];
      LeadingBefore(s, '\n', []);
      assert SpaceLast(line, 1);
      assert TrimRight(line) == TrimRight(s);
    }
  }
}
