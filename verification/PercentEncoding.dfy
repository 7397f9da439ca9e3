/** Percent-encoding of URL paths as Go's net/url does it, and path segments. */
module PercentEncoding {
  import opened Basics

  function UpperHex(n: int): (c: Byte)
    requires 0 <= n < 16
    ensures IsHex(c) && HexValue(c) == n && !ShouldEscape(c)
  {
    if n < 10 then ('0' as int + n) as char else ('A' as int + n - 10) as char
  }

  predicate ShouldEscape(c: Byte) {
    && !('a' <= c <= 'z' || 'A' <= c <= 'Z' || '0' <= c <= '9')
    && c !in {'-', '_', '.', '~', '$', '&', '+', ',', '/', ':', ';', '=', '@'}
  }

  /** Bytes a spelling of a path may contain. */
  predicate ValidEncoded(s: Bytes) {
    forall i :: 0 <= i < |s| ==> Spellable(s[i])
  }

  predicate Spellable(c: Byte) {
    c in {'!', '\'', '(', ')', '*', '[', ']', '%'} || !ShouldEscape(c)
  }

  /** Section 2.3 of RFC 3986. */
  predicate IsUnreserved(c: Byte) {
    'a' <= c <= 'z' || 'A' <= c <= 'Z' || '0' <= c <= '9' || c in {'-', '.', '_', '~'}
  }

  /** Section 2.2 of RFC 3986. */
  predicate IsSubDelim(c: Byte) {
    c in {'!', '$', '&', '\'', '(', ')', '*', '+', ',', ';', '='}
  }

  /** A spelling may contain what a path of section 3.3 of RFC 3986 may contain, and square brackets; the standard
      spelling escapes all of it but unreserved characters, the slash, and seven of the delimiters. */
  lemma SpellableIsPathCharacter(c: Byte)
    ensures Spellable(c) <==> IsUnreserved(c) || IsSubDelim(c) || c in {':', '@', '/', '%', '[', ']'}
    ensures !ShouldEscape(c) <==> IsUnreserved(c) || c in {'/', '$', '&', '+', ',', ':', ';', '=', '@'}
  {
  }

  function Unescape(s: Bytes): Option<Bytes> {
    if s == [] then Some([])
    else if s[0] != '%' then Prepend(s[0], Unescape(s[1..]))
    else if |s| >= 3 && IsHex(s[1]) && IsHex(s[2]) then Prepend(Decoded(s[1], s[2]), Unescape(s[3..]))
    else None
  }

  function Decoded(hi: Byte, lo: Byte): Byte
    requires IsHex(hi) && IsHex(lo)
  {
    (HexValue(hi) * 16 + HexValue(lo)) as char
  }

  function Prepend(c: Byte, rest: Option<Bytes>): Option<Bytes> {
    if rest.Some? then Some([c] + rest.value) else None
  }

  function Escaped(c: Byte): Bytes {
    if ShouldEscape(c) then ['%', UpperHex(c as int / 16), UpperHex(c as int % 16)] else [c]
  }

  function Escape(s: Bytes): Bytes {
    if s == [] then [] else Escaped(s[0]) + Escape(s[1..])
  }

  /** The spelling of a path: the raw one if it is a valid spelling of it, else the standard one. */
  function EscapedPath(path: Bytes, raw: Bytes): Bytes {
    if raw != [] && ValidEncoded(raw) && Unescape(raw) == Some(path) then raw
    else if path == "*" then path
    else Escape(path)
  }

  lemma {:induction false} UnescapeEscape(s: Bytes)
    ensures Unescape(Escape(s)) == Some(s)
  {
    if s != [] {
      UnescapeEscape(s[1..]);
      var head, tail := Escaped(s[0]), Escape(s[1..]);
      assert (head + tail)[|head|..] == tail;
      assert [s[0]] + s[1..] == s;
    }
  }

  lemma {:induction false} EscapeIsValid(s: Bytes)
    ensures ValidEncoded(Escape(s))
  {
    if s != [] {
      EscapeIsValid(s[1..]);
      assert ValidEncoded(Escaped(s[0]));
    }
  }

  lemma {:induction false} EscapedPathDecodes(path: Bytes, raw: Bytes)
    requires path != "*"
    ensures Unescape(EscapedPath(path, raw)) == Some(path)
  {
    UnescapeEscape(path);
  }

  /** How many bytes the first unit of a spelling takes. */
  function Unit(s: Bytes): (n: nat)
    requires s != [] && Unescape(s).Some?
    ensures 1 <= n <= |s| && Unescape(s[n..]).Some?
    ensures Unescape(s[..n]).Some? && |Unescape(s[..n]).value| == 1
    ensures Unescape(s).value == Unescape(s[..n]).value + Unescape(s[n..]).value
  {
    if s[0] == '%' then assert s[..3][3..] == []; 3 else assert s[..1][1..] == []; 1
  }

  lemma {:induction false} UnescapeAppend(a: Bytes, b: Bytes)
    requires Unescape(a).Some? && Unescape(b).Some?
    ensures Unescape(a + b) == Some(Unescape(a).value + Unescape(b).value)
    decreases |a|
  {
    if a == [] {
      assert a + b == b && Unescape(a).value + Unescape(b).value == Unescape(b).value;
    } else {
      var n := if a[0] == '%' then 3 else 1;
      assert (a + b)[n..] == a[n..] + b;
      UnescapeAppend(a[n..], b);
      var x, y := Unescape(a[n..]).value, Unescape(b).value;
      var head: Bytes := [Unescape(a).value[0]];
      assert head + (x + y) == (head + x) + y;
      assert Unescape(a).value == head + x;
      assert Unescape(a + b) == Some(head + (x + y));
    }
  }

  lemma {:induction false} PlainIsItself(a: Bytes)
    requires '%' !in a
    ensures Unescape(a) == Some(a)
  {
    if a != [] {
      PlainIsItself(a[1..]);
      assert [a[0]] + a[1..] == a;
    }
  }

  lemma {:induction false} EscapeAppend(a: Bytes, b: Bytes)
    ensures Escape(a + b) == Escape(a) + Escape(b)
  {
    if a == [] {
      assert a + b == b;
    } else {
      assert (a + b)[1..] == a[1..] + b;
      EscapeAppend(a[1..], b);
    }
  }

  // ---- Segments

  /** The position of the first slash, or the length. */
  function Index(s: Bytes): nat {
    Find(s, '/')
  }

  /** strings.Split(s, "/") */
  function Segments(s: Bytes): seq<Bytes> {
    var i := Index(s);
    if i == |s| then [s] else [s[..i]] + Segments(s[i + 1..])
  }

  /** strings.ReplaceAll(s, "\\", "/") */
  function Slashed(s: Bytes): Bytes {
    seq(|s|, i requires 0 <= i < |s| => if s[i] == '\\' then '/' else s[i])
  }

  /** strings.Join(segments, "/") */
  function Join(segments: seq<Bytes>): Bytes {
    if segments == [] then []
    else if |segments| == 1 then segments[0]
    else segments[0] + "/" + Join(segments[1..])
  }

  /** Segments are slash-free and make up the path again. */
  lemma {:induction false} SegmentsJoin(s: Bytes)
    ensures Segments(s) != [] && Join(Segments(s)) == s && forall segment <- Segments(s) :: '/' !in segment
    decreases |s|
  {
    var i := Index(s);
    if i < |s| {
      SegmentsJoin(s[i + 1..]);
      assert Segments(s)[1..] == Segments(s[i + 1..]);
      assert s == s[..i] + "/" + s[i + 1..];
    } else {
      assert s[..i] == s;
    }
  }

  /** Backslashes, and only they, become slashes. */
  lemma SlashedAt(s: Bytes, i: nat)
    requires i < |s|
    ensures |Slashed(s)| == |s| && Slashed(s)[i] == if s[i] == '\\' then '/' else s[i]
  {
  }

  lemma {:induction false} IndexAppend(a: Bytes, b: Bytes)
    ensures Index(a) < |a| ==> Index(a + b) == Index(a)
    ensures Index(a) == |a| ==> Index(a + b) == |a| + Index(b)
  {
    if a == [] {
      assert a + b == b;
    } else {
      assert (a + b)[1..] == a[1..] + b;
      if a[0] != '/' {
        IndexAppend(a[1..], b);
      }
    }
  }

  lemma {:induction false} FirstSegment(a: Bytes, rest: Bytes)
    requires Index(a) == |a|
    ensures Segments(a + "/" + rest) == [a] + Segments(rest)
  {
    var all := a + "/" + rest;
    assert all == a + ("/" + rest);
    IndexAppend(a, "/" + rest);
    assert all[..|a|] == a && all[|a| + 1..] == rest;
  }

  lemma {:induction false} SegmentsAppend(a: Bytes, b: Bytes)
    ensures Segments(a + "/" + b) == Segments(a) + Segments(b)
    decreases |a|
  {
    var i := Index(a);
    if i == |a| {
      FirstSegment(a, b);
    } else {
      var head, tail := a[..i], a[i + 1..];
      assert a == head + "/" + tail;
      assert a + "/" + b == head + "/" + (tail + "/" + b);
      assert Index(head) == |head|;
      FirstSegment(head, tail + "/" + b);
      SegmentsAppend(tail, b);
    }
  }

  lemma {:induction false} SlashedSplit(a: Bytes, rest: Bytes)
    ensures Slashed(a + "/" + rest) == Slashed(a) + "/" + Slashed(rest)
  {
  }

  /** Reading backslashes as slashes splits segments further but keeps those without one. */
  lemma {:induction false} SlashingKeepsSegment(s: Bytes, segment: Bytes)
    requires segment in Segments(s) && '\\' !in segment
    ensures segment in Segments(Slashed(s))
    decreases |s|
  {
    var i := Index(s);
    if i == |s| {
      assert segment == s && Slashed(s) == s;
    } else {
      var a, rest := s[..i], s[i + 1..];
      assert s == a + "/" + rest;
      SlashedSplit(a, rest);
      SegmentsAppend(Slashed(a), Slashed(rest));
      assert Segments(Slashed(s)) == Segments(Slashed(a)) + Segments(Slashed(rest));
      if segment == a {
        assert Slashed(a) == a;
        assert Index(a) == |a|;
        assert Segments(a) == [a];
      } else {
        assert segment in Segments(rest);
        SlashingKeepsSegment(rest, segment);
      }
    }
  }

  /** Cutting a spelling at its first literal slash never cuts an escape. */
  lemma {:induction false} HeadDecodes(raw: Bytes)
    requires Unescape(raw).Some?
    ensures Unescape(raw[..Index(raw)]).Some? && Unescape(raw[Index(raw)..]).Some?
    decreases |raw|
  {
    if raw != [] && raw[0] != '/' {
      var n := Unit(raw);
      HeadDecodes(raw[n..]);
      var i := Index(raw[n..]);
      if n == 3 {
        assert raw[1..][1..] == raw[2..] && raw[2..][1..] == raw[3..];
      }
      assert Index(raw) == n + i;
      assert raw[..n + i] == raw[..n] + raw[n..][..i];
      UnescapeAppend(raw[..n], raw[n..][..i]);
      assert raw[n..][i..] == raw[n + i..];
    }
  }

  /** A literal slash of a spelling is a slash of the path. */
  lemma {:induction false} UnescapeSplits(raw: Bytes)
    requires Unescape(raw).Some? && Index(raw) < |raw|
    ensures Unescape(raw[..Index(raw)]).Some? && Unescape(raw[Index(raw) + 1..]).Some?
    ensures Unescape(raw).value == Unescape(raw[..Index(raw)]).value + "/" + Unescape(raw[Index(raw) + 1..]).value
  {
    HeadDecodes(raw);
    var i := Index(raw);
    var head, tail := raw[..i], raw[i..];
    assert raw == head + tail;
    UnescapeAppend(head, tail);
    assert tail[0] == '/' && tail[1..] == raw[i + 1..];
    assert Unescape(tail).value == "/" + Unescape(tail[1..]).value;
  }

  /** A segment of the spelling that decodes to a slash-free text is a segment of the path. */
  lemma {:induction false} DecodedSegment(raw: Bytes, segment: Bytes, text: Bytes)
    requires Unescape(raw).Some? && segment in Segments(raw) && Unescape(segment) == Some(text) && '/' !in text
    ensures text in Segments(Unescape(raw).value)
    decreases |raw|
  {
    var i := Index(raw);
    assert Index(text) == |text|;
    assert Segments(text) == [text];
    if i < |raw| {
      UnescapeSplits(raw);
      var head, rest := Unescape(raw[..i]).value, raw[i + 1..];
      SegmentsAppend(head, Unescape(rest).value);
      if segment == raw[..i] {
        assert text in Segments(head);
      } else {
        DecodedSegment(rest, segment, text);
      }
    }
  }

  lemma SlashedAppend(a: Bytes, b: Bytes)
    ensures Slashed(a + b) == Slashed(a) + Slashed(b)
  {
  }

  lemma {:induction false} SlashedUnit(head: Bytes)
    requires |head| == 1 || (|head| == 3 && head[0] == '%')
    requires Unescape(head).Some? && |Unescape(head).value| == 1
    ensures Unescape(Slashed(head)).Some? && Slashed(Unescape(Slashed(head)).value) == Slashed(Unescape(head).value)
  {
    if |head| == 1 {
      assert head[1..] == [] && Slashed(head)[1..] == [];
    } else {
      assert Slashed(head) == head;
    }
  }

  /** Reading backslashes as slashes in the spelling and then in the path is reading them in the path. */
  lemma {:induction false} SlashedSpelling(raw: Bytes)
    requires Unescape(raw).Some?
    ensures Unescape(Slashed(raw)).Some? && Slashed(Unescape(Slashed(raw)).value) == Slashed(Unescape(raw).value)
    decreases |raw|
  {
    if raw != [] {
      var n := Unit(raw);
      var head, tail := raw[..n], raw[n..];
      SlashedSpelling(tail);
      assert raw == head + tail && Slashed(raw) == Slashed(head) + Slashed(tail);
      SlashedUnit(head);
      UnescapeAppend(Slashed(head), Slashed(tail));
      SlashedAppend(Unescape(Slashed(head)).value, Unescape(Slashed(tail)).value);
      SlashedAppend(Unescape(head).value, Unescape(tail).value);
    }
  }
}
