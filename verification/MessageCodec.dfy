/** A text as a canonical user message: what encoding/json prints for it, and reading it back. Texts are
    sequences of code points, since only valid UTF-8 is ever printed. */
module MessageCodec {
  import opened Basics

  const HEAD := "{\"role\":\"user\",\"blocks\":[{\"type\":\"text\",\"text\":\""
  const TAIL := "\"}]}"

  function LowerHex(n: int): (c: char)
    requires 0 <= n < 16
    ensures IsHex(c) && HexValue(c) == n
  {
    if n < 10 then ('0' as int + n) as char else ('a' as int + n - 10) as char
  }

  /** The characters a backslash and one letter stand for. */
  function Short(c: char): Option<char> {
    match c
    case '\"' => Some('\"')
    case '\\' => Some('\\')
    case '\U{08}' => Some('b')
    case '\U{0C}' => Some('f')
    case '\n' => Some('n')
    case '\r' => Some('r')
    case '\t' => Some('t')
    case _ => None
  }

  function Long(letter: char): Option<char> {
    match letter
    case '\"' => Some('\"')
    case '\\' => Some('\\')
    case '/' => Some('/')
    case 'b' => Some('\U{08}')
    case 'f' => Some('\U{0C}')
    case 'n' => Some('\n')
    case 'r' => Some('\r')
    case 't' => Some('\t')
    case _ => None
  }

  /** Control characters, the characters HTML cares about, and the two JavaScript line separators. */
  predicate NeedsHex(c: char) {
    c < ' ' || c == '<' || c == '>' || c == '&' || c == '\U{2028}' || c == '\U{2029}'
  }

  function Hex(n: int): string
    requires 0 <= n < 0x1_0000
  {
    [LowerHex(n / 16 / 16 / 16), LowerHex(n / 16 / 16 % 16), LowerHex(n / 16 % 16), LowerHex(n % 16)]
  }

  function Quoted(c: char): string {
    if Short(c).Some? then ['\\', Short(c).value]
    else if NeedsHex(c) then ['\\', 'u'] + Hex(c as int)
    else [c]
  }

  function Quote(text: string): string {
    if text == [] then [] else Quoted(text[0]) + Quote(text[1..])
  }

  /** json.Marshal of a user message with this one text block. */
  function Marshal(text: string): string {
    HEAD + Quote(text) + TAIL
  }

  // ---- Reading back

  function Prepend(c: char, rest: Option<(string, string)>): Option<(string, string)> {
    if rest.Some? then Some(([c] + rest.value.0, rest.value.1)) else None
  }

  predicate AllHex(s: string) {
    |s| == 4 && IsHex(s[0]) && IsHex(s[1]) && IsHex(s[2]) && IsHex(s[3])
  }

  function HexNumber(s: string): (n: int)
    requires AllHex(s)
    ensures 0 <= n < 0x1_0000
  {
    HexValue(s[0]) * 0x1000 + HexValue(s[1]) * 0x100 + HexValue(s[2]) * 16 + HexValue(s[3])
  }

  predicate Surrogate(n: int) {
    0xD800 <= n < 0xE000
  }

  /** A JSON string up to its closing quote, and what follows (section 7 of RFC 8259, without surrogate pairs). */
  function Unquote(s: string): Option<(string, string)> {
    if s == [] || s[0] < ' ' then None
    else if s[0] == '\"' then Some(([], s[1..]))
    else if s[0] != '\\' then Prepend(s[0], Unquote(s[1..]))
    else if |s| >= 2 && Long(s[1]).Some? then Prepend(Long(s[1]).value, Unquote(s[2..]))
    else if |s| >= 6 && s[1] == 'u' && AllHex(s[2..6]) && !Surrogate(HexNumber(s[2..6]))
    then Prepend(HexNumber(s[2..6]) as char, Unquote(s[6..]))
    else None
  }

  /** The text of a canonical message with exactly one text block. */
  function Unmarshal(message: string): Option<string> {
    if !(HEAD <= message) then None
    else
      var r := Unquote(message[|HEAD|..]);
      if r.Some? && "\"" + r.value.1 == TAIL then Some(r.value.0) else None
  }

  /** The escapes of section 7 of RFC 8259 as the printer uses them, and what it escapes beyond them. */
  lemma EscapesAreStandard()
    ensures Quoted('\"') == "\\\"" && Quoted('\\') == "\\\\"
    ensures Quoted('\n') == "\\n" && Quoted('\r') == "\\r" && Quoted('\t') == "\\t"
    ensures Quoted('\U{08}') == "\\b" && Quoted('\U{0C}') == "\\f" && Quoted('\U{1F}') == "\\u001f"
    ensures Quoted('<') == "\\u003c" && Quoted('>') == "\\u003e" && Quoted('&') == "\\u0026"
    ensures Quoted('\U{2028}') == "\\u2028" && Quoted('\U{2029}') == "\\u2029"
  {
  }

  /** Everything else but control characters is printed as it is; no escape contains anything to escape. */
  lemma QuotedIsPrintable(c: char)
    ensures ' ' <= c && c !in {'\"', '\\', '<', '>', '&', '\U{2028}', '\U{2029}'} <==> Quoted(c) == [c]
    ensures forall k :: 0 <= k < |Quoted(c)| ==> ' ' <= Quoted(c)[k] && Quoted(c)[k] !in {'<', '>', '&', '\U{2028}', '\U{2029}'}
  {
  }

  /** The whole message around a text. */
  lemma MarshalShape(text: string)
    ensures Marshal(text) == "{\"role\":\"user\",\"blocks\":[{\"type\":\"text\",\"text\":\"" + Quote(text) + "\"}]}"
  {
  }

  lemma {:induction false} HexRoundTrip(n: int)
    requires 0 <= n < 0x1_0000
    ensures AllHex(Hex(n)) && HexNumber(Hex(n)) == n
  {
  }

  lemma {:induction false} UnquoteOne(c: char, rest: string)
    ensures Unquote(Quoted(c) + rest) == Prepend(c, Unquote(rest))
  {
    var s := Quoted(c) + rest;
    if Short(c).Some? {
      assert s[2..] == rest;
    } else if NeedsHex(c) {
      HexRoundTrip(c as int);
      assert s[2..6] == Hex(c as int) && s[6..] == rest;
    } else {
      assert s[1..] == rest;
    }
  }

  lemma {:induction false} UnquoteQuote(text: string, rest: string)
    ensures Unquote(Quote(text) + "\"" + rest) == Some((text, rest))
  {
    var s := Quote(text) + "\"" + rest;
    if text == [] {
      assert s[1..] == rest;
    } else {
      var more := Quote(text[1..]) + "\"" + rest;
      assert s == Quoted(text[0]) + more;
      UnquoteOne(text[0], more);
      UnquoteQuote(text[1..], rest);
      assert [text[0]] + text[1..] == text;
    }
  }

  /** Every text comes back from the message printed for it. */
  lemma {:induction false} MessageRoundTrip(text: string)
    ensures Unmarshal(Marshal(text)) == Some(text)
  {
    var message := Marshal(text);
    var rest := TAIL[1..];
    assert TAIL == "\"" + rest;
    assert message == HEAD + (Quote(text) + "\"" + rest);
    assert message[|HEAD|..] == Quote(text) + "\"" + rest;
    UnquoteQuote(text, rest);
  }
}
