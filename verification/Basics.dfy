/** What several components share: optional values, bytes, instants, sequences and the outcome of a
    database statement. */
module Basics {

  datatype Option<T> = None | Some(value: T)

  /** Go strings and buffers are sequences of bytes, written here as the characters below 256. */
  type Byte = c: char | c as int < 256 witness '/'
  type Bytes = seq<Byte>

  /** Instants are integer nanoseconds since the Unix epoch. */
  const NANOS_PER_SECOND := 1_000_000_000

  function Unix(instant: int): int {
    instant / NANOS_PER_SECOND
  }

  /** The second an instant falls into. */
  lemma UnixTruncates(instant: int)
    ensures Unix(instant) * 1_000_000_000 <= instant < (Unix(instant) + 1) * 1_000_000_000
  {
  }

  /** How a statement ends: applied and reported, not applied and an error, or applied
      although the caller sees an error (the affected-row count could not be read). */
  datatype SqlOutcome = Reported | Refused | Unreported

  function Take<T>(xs: seq<T>, k: nat): seq<T> {
    if k < |xs| then xs[..k] else xs
  }

  ghost predicate Distinct<T>(xs: seq<T>) {
    forall i, j :: 0 <= i < j < |xs| ==> xs[i] != xs[j]
  }

  /** The position of the first `c`, or the length. */
  function Find(s: string, c: char): (i: nat)
    ensures i <= |s| && (i < |s| ==> s[i] == c) && c !in s[..i]
  {
    if s == [] || s[0] == c then 0 else 1 + Find(s[1..], c)
  }

  /** Hexadecimal digits count from 0 to 15, in either case. */
  lemma HexDigitsCount(n: int)
    requires 0 <= n < 16
    ensures n < 10 ==> IsHex(('0' as int + n) as char) && HexValue(('0' as int + n) as char) == n
    ensures n >= 10 ==>
              && IsHex(('a' as int + n - 10) as char) && HexValue(('a' as int + n - 10) as char) == n
              && IsHex(('A' as int + n - 10) as char) && HexValue(('A' as int + n - 10) as char) == n
  {
  }

  predicate IsHex(c: char) {
    '0' <= c <= '9' || 'a' <= c <= 'f' || 'A' <= c <= 'F'
  }

  function HexValue(c: char): (n: int)
    requires IsHex(c)
    ensures 0 <= n < 16
  {
    if c <= '9' then c as int - '0' as int else if c <= 'F' then c as int - 'A' as int + 10 else c as int - 'a' as int + 10
  }
}
