/** The control-web `sessions` table and the SQL statements that move it.
    Every statement is one atomic function on the table; `SqlOutcome` is the
    environment's choice of how the database answers. */
module SessionTable {
  import opened Basics

  /** One row. `latch` is the column fleet_indeterminate: 0 free, 1 in flight or
      indeterminate, 2 answered and awaiting acknowledgement. Times are Unix seconds. */
  datatype Row = Row(
    csrf: string, iss: string, sub: string, breakGlass: bool,
    created: int, lastSeen: int, expires: int, oidcExpires: int,
    latch: int, ackToken: string)

  type Table = map<string, Row>

  const SESSION_IDLE_SECONDS := 1800
  const SESSION_ABSOLUTE_SECONDS := 28800
  const BREAK_GLASS_SECONDS := 300

  predicate Free(t: Table, id: string) {
    id in t && t[id].latch == 0
  }

  predicate Holds(t: Table, id: string, latch: int, tok: string) {
    id in t && t[id].latch == latch && t[id].ackToken == tok
  }

  function Claim(t: Table, id: string, tok: string): Table {
    if Free(t, id) then t[id := t[id].(latch := 1, ackToken := tok)] else t
  }

  function Transition(t: Table, id: string, tok: string, from: int, to: int): Table {
    if Holds(t, id, from, tok)
    then t[id := t[id].(latch := to, ackToken := if to == 0 then "" else t[id].ackToken)]
    else t
  }

  function Acknowledge(t: Table, id: string, tok: string): Table {
    if Holds(t, id, 2, tok) then t[id := t[id].(latch := 0, ackToken := "")] else t
  }

  function Touch(t: Table, id: string, now: int): Table {
    if id in t then t[id := t[id].(lastSeen := now)] else t
  }

  function Delete(t: Table, id: string): Table {
    t - {id}
  }

  function DeletePrincipal(t: Table, iss: string, sub: string): Table {
    map id | id in t && !(t[id].iss == iss && t[id].sub == sub) :: t[id]
  }

  /** The table after a statement that would turn `t` into `t'`. */
  function After(t: Table, t': Table, o: SqlOutcome): Table {
    if o.Refused? then t else t'
  }

  /** `get`'s staleness test: absolute expiry, then idle timeout. */
  predicate Stale(r: Row, now: int) {
    now >= r.expires || now - r.lastSeen > SESSION_IDLE_SECONDS
  }

  function Earlier(a: int, b: int): int {
    if a < b then a else b
  }

  /** The row `create` inserts: a short absolute lifetime for break-glass, otherwise the long
      one cut at the credential's expiry, all truncated to seconds. */
  function InsertedRow(csrf: string, iss: string, sub: string, expires: Option<int>, breakGlass: bool, now: int): Row {
    var absolute := now + (if breakGlass then BREAK_GLASS_SECONDS else SESSION_ABSOLUTE_SECONDS) * NANOS_PER_SECOND;
    var cut := if !breakGlass && expires.Some? then Earlier(expires.value, absolute) else absolute;
    Row(csrf, iss, sub, breakGlass, Unix(now), Unix(now), Unix(cut),
        if expires.Some? then Unix(expires.value) else 0, 0, "")
  }

  /** Nothing but the latch and its token differs. */
  predicate SameButLatch(r: Row, r': Row) {
    r' == r.(latch := r'.latch, ackToken := r'.ackToken)
  }

  /** Only row `id` may differ, and there only the latch and its token. */
  ghost predicate OnlyLatchMoved(t: Table, t': Table, id: string) {
    t'.Keys == t.Keys && t' - {id} == t - {id} && (id in t ==> SameButLatch(t[id], t'[id]))
  }

  /** Of two claims on one row the second loses, and nobody but the winner's token moves it on. */
  lemma ClaimIsExclusive(t: Table, id: string, tok: string, other: string, from: int, to: int)
    requires Free(t, id) && other != tok
    ensures
      var won := Claim(t, id, tok);
      && Holds(won, id, 1, tok) && OnlyLatchMoved(t, won, id)
      && Claim(won, id, other) == won && Transition(won, id, other, from, to) == won && Acknowledge(won, id, other) == won
  {
  }

  /** Claim, answer and acknowledgement under one token, or claim and withdrawal, restore the table. */
  lemma LatchRoundTrip(t: Table, id: string, tok: string)
    requires Free(t, id) && t[id].ackToken == ""
    ensures Acknowledge(Transition(Claim(t, id, tok), id, tok, 1, 2), id, tok) == t
    ensures Transition(Claim(t, id, tok), id, tok, 1, 0) == t
  {
  }
}
