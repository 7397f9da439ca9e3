/** Channel rows with AUTOINCREMENT ids, as both the stream and the migration see them. */
module ChannelLog {

  datatype Row = Row(id: int, channel: string, sender: string, message: string, created: string)

  /** The table in primary-key order. */
  ghost predicate Ordered(rows: seq<Row>) {
    forall i, j :: 0 <= i < j < |rows| ==> rows[i].id < rows[j].id
  }

  /** Later states of a table nobody deletes from: new rows carry ids above all old ones. */
  ghost predicate Grows(t: seq<Row>, t': seq<Row>) {
    |t| <= |t'| && t'[..|t|] == t && Ordered(t')
  }

  /** SELECT ... WHERE channel = name AND id > cursor ORDER BY id, without the limit. */
  function Pending(rows: seq<Row>, name: string, cursor: int): seq<Row> {
    if rows == [] then []
    else if rows[0].channel == name && rows[0].id > cursor then [rows[0]] + Pending(rows[1..], name, cursor)
    else Pending(rows[1..], name, cursor)
  }

  lemma {:induction false} PendingAppend(a: seq<Row>, b: seq<Row>, name: string, cursor: int)
    ensures Pending(a + b, name, cursor) == Pending(a, name, cursor) + Pending(b, name, cursor)
  {
    if a == [] {
      assert a + b == b;
    } else {
      assert (a + b)[1..] == a[1..] + b;
      PendingAppend(a[1..], b, name, cursor);
    }
  }

  lemma {:induction false} PendingMember(rows: seq<Row>, name: string, cursor: int, r: Row)
    ensures r in Pending(rows, name, cursor) <==> r in rows && r.channel == name && r.id > cursor
  {
    if rows != [] {
      assert rows == [rows[0]] + rows[1..];
      PendingMember(rows[1..], name, cursor, r);
    }
  }

  lemma {:induction false} PendingOrdered(rows: seq<Row>, name: string, cursor: int)
    requires Ordered(rows)
    ensures Ordered(Pending(rows, name, cursor))
  {
    if rows != [] {
      PendingOrdered(rows[1..], name, cursor);
      forall r | r in Pending(rows[1..], name, cursor) ensures rows[0].id < r.id {
        PendingMember(rows[1..], name, cursor, r);
      }
    }
  }

  /** Moving the cursor over the first pending row drops exactly that row. */
  lemma {:induction false} PendingStep(rows: seq<Row>, name: string, cursor: int)
    requires Ordered(rows) && Pending(rows, name, cursor) != []
    ensures
      var p := Pending(rows, name, cursor);
      cursor < p[0].id && Pending(rows, name, p[0].id) == p[1..]
  {
    if rows[0].channel == name && rows[0].id > cursor {
      PendingAbove(rows[1..], name, cursor, rows[0].id);
    } else {
      PendingStep(rows[1..], name, cursor);
      var p := Pending(rows, name, cursor);
      assert p[0] in Pending(rows[1..], name, cursor);
      PendingMember(rows[1..], name, cursor, p[0]);
    }
  }

  /** Below all ids of a table the cursor does not matter. */
  lemma {:induction false} PendingAbove(rows: seq<Row>, name: string, c: int, c': int)
    requires c <= c' && forall i :: 0 <= i < |rows| ==> rows[i].id > c'
    ensures Pending(rows, name, c) == Pending(rows, name, c')
  {
    if rows != [] {
      PendingAbove(rows[1..], name, c, c');
    }
  }
}

/** The cursor loop of `handleChannelEvents`: SQLite is the log, the broker only wakes. */
module ChannelStream {
  import opened Basics
  import opened ChannelLog

  const PAGE := 200

  /** The Last-Event-ID header after parsing. */
  datatype Header = Absent | Malformed | Cursor(value: int)

  datatype Wake = Done | Keepalive | Notified

  /** One turn of the loop: the table its query sees, the number of rows after which reading or
      writing fails (if it does), and what ends the wait when the query came back empty. */
  datatype Turn = Turn(table: seq<Row>, fault: Option<nat>, wake: Wake)

  ghost predicate Growing(connect: seq<Row>, turns: seq<Turn>) {
    && Ordered(connect)
    && (forall i :: 0 <= i < |turns| ==> Grows(connect, turns[i].table))
    && (forall i, j :: 0 <= i < j < |turns| ==> Grows(turns[i].table, turns[j].table))
  }

  /** COALESCE(MAX(id), 0) over one channel. */
  function MaxId(rows: seq<Row>, name: string): int {
    if rows == [] then 0
    else
      var rest := MaxId(rows[1..], name);
      if rows[0].channel == name && rows[0].id > rest then rows[0].id else rest
  }

  function StartCursor(header: Header, connect: seq<Row>, name: string): int {
    if header.Cursor? then header.value else MaxId(connect, name)
  }

  function LastId(sent: seq<Row>, start: int): int {
    if sent == [] then start else sent[|sent| - 1].id
  }

  /** What has been sent so far and what the cursor still selects make up the whole channel above `start`. */
  ghost predicate Exact(table: seq<Row>, name: string, start: int, sent: seq<Row>) {
    Pending(table, name, start) == sent + Pending(table, name, LastId(sent, start))
  }

  lemma ExactStep(table: seq<Row>, name: string, start: int, sent: seq<Row>)
    requires Ordered(table) && Exact(table, name, start, sent) && Pending(table, name, LastId(sent, start)) != []
    ensures
      var next := Pending(table, name, LastId(sent, start));
      Exact(table, name, start, sent + [next[0]]) && Pending(table, name, next[0].id) == next[1..]
  {
    PendingStep(table, name, LastId(sent, start));
    var next := Pending(table, name, LastId(sent, start));
    var more := sent + [next[0]];
    assert LastId(more, start) == next[0].id;
    assert sent + next == more + next[1..];
  }

  /** Rows inserted between two queries join the end. */
  lemma ExactGrows(t: seq<Row>, t': seq<Row>, name: string, start: int, sent: seq<Row>)
    requires Grows(t, t') && Exact(t, name, start, sent)
    ensures Exact(t', name, start, sent)
  {
    var more := t'[|t|..];
    assert t' == t + more;
    PendingAppend(t, more, name, start);
    PendingAppend(t, more, name, LastId(sent, start));
    if sent != [] {
      var last := sent[|sent| - 1];
      assert last in Pending(t, name, start);
      PendingMember(t, name, start, last);
      forall i | 0 <= i < |more| ensures more[i].id > last.id {
        assert more[i] == t'[|t| + i];
      }
      PendingAbove(more, name, start, last.id);
    }
  }

  /** Sends one page row by row; stops early at a fault or an invalid stored message. */
  method SendPage(table: seq<Row>, name: string, start: int, before: seq<Row>, fault: Option<nat>, valid: string -> bool)
    returns (sent: seq<Row>, count: nat, stop: bool)
    requires Ordered(table) && Exact(table, name, start, before)
    ensures Exact(table, name, start, sent) && |sent| == |before| + count && sent[..|before|] == before
    ensures count == 0 && !stop ==> Pending(table, name, LastId(sent, start)) == []
    ensures forall r <- sent[|before|..] :: valid(r.message)
    // a full page or all there is, unless a fault or an invalid message stops it
    ensures !stop ==> count == |Take(Pending(table, name, LastId(before, start)), PAGE)|
    // pages of 200 rows
    ensures count <= 200 && (!stop && count < 200 ==> Pending(table, name, LastId(sent, start)) == [])
    ensures stop ==> fault.Some? || exists r <- Pending(table, name, LastId(before, start)) :: !valid(r.message)
  {
    sent, count, stop := before, 0, false;
    var all := Pending(table, name, LastId(before, start));
    var page := Take(all, PAGE);
    while count < |page|
      invariant count <= |page| && |sent| == |before| + count && sent[..|before|] == before
      invariant Exact(table, name, start, sent) && Pending(table, name, LastId(sent, start)) == all[count..]
      invariant forall i :: |before| <= i < |sent| ==> valid(sent[i].message)
    {
      var row := page[count];
      if fault == Some(count) || !valid(row.message) {
        assert row in all;
        stop := true;
        return;
      }
      ExactStep(table, name, start, sent);
      assert all[count..][0] == row && all[count..][1..] == all[count + 1..];
      assert LastId(sent + [row], start) == row.id && (sent + [row])[..|before|] == sent[..|before|];
      sent := sent + [row];
      count := count + 1;
    }
    stop := fault == Some(count);
  }

  /** A turn at which nothing goes wrong: no read or write fails and every stored message is valid. */
  ghost predicate Clean(turn: Turn, name: string, start: int, valid: string -> bool) {
    turn.fault.None? && forall r <- Pending(turn.table, name, start) :: valid(r.message)
  }

  /** How many rows turn `j` had to show above the start cursor. */
  function Backlog(turns: seq<Turn>, j: nat, name: string, start: int): nat
    requires j < |turns|
  {
    |Pending(turns[j].table, name, start)|
  }

  /** After `used` turns, `sent` rows are all that turn `j` had to show, or a full page for every turn since. */
  ghost predicate ServedSince(turns: seq<Turn>, j: nat, used: nat, name: string, start: int, sent: nat)
    requires j < used <= |turns|
  {
    sent >= Backlog(turns, j, name, start) || sent >= (used - j) * PAGE
  }

  ghost predicate Served(turns: seq<Turn>, used: nat, name: string, start: int, sent: nat)
    requires used <= |turns|
  {
    forall j: nat :: j < used ==> ServedSince(turns, j, used, name, start, sent)
  }

  /** What a stream that has not drained says about quiet channels: turns on the present table so far were too
      few for its rows. */
  ghost predicate Backlogged(turns: seq<Turn>, used: nat, name: string, start: int)
    requires 0 < used <= |turns|
  {
    forall j {:trigger turns[j]} :: 0 <= j < used && turns[j].table == turns[used - 1].table ==>
      Backlog(turns, j, name, start) > (used - 1 - j) * PAGE
  }

  /** Whatever the client has not been sent is what `count` rows of one page were taken from. */
  lemma PageAdvances(table: seq<Row>, name: string, start: int, before: seq<Row>, sent: seq<Row>, count: nat)
    requires Exact(table, name, start, before) && |sent| == |before| + count
    requires count == |Take(Pending(table, name, LastId(before, start)), PAGE)|
    ensures |sent| == |Pending(table, name, start)| || |sent| == |before| + PAGE
    ensures count > 0 <==> |before| < |Pending(table, name, start)|
  {
  }

  lemma {:induction false} GrowsBacklog(t: seq<Row>, t': seq<Row>, name: string, start: int)
    requires Grows(t, t')
    ensures |Pending(t, name, start)| <= |Pending(t', name, start)|
  {
    assert t' == t + t'[|t|..];
    PendingAppend(t, t'[|t|..], name, start);
  }

  lemma ServedMore(turns: seq<Turn>, used: nat, name: string, start: int, before: nat, sent: nat)
    requires used <= |turns| && before <= sent && Served(turns, used, name, start, before)
    ensures Served(turns, used, name, start, sent)
  {
    forall j: nat | j < used ensures ServedSince(turns, j, used, name, start, sent) {
      assert ServedSince(turns, j, used, name, start, before);
    }
  }

  /** One more clean turn serves everybody one more page. */
  lemma {:induction false} ServedStep(connect: seq<Row>, turns: seq<Turn>, used: nat, name: string, start: int, before: nat, sent: nat)
    requires Growing(connect, turns) && used < |turns| && Served(turns, used, name, start, before)
    requires sent == Backlog(turns, used, name, start) || sent == before + PAGE
    ensures Served(turns, used + 1, name, start, sent)
    ensures before < Backlog(turns, used, name, start) ==> Backlogged(turns, used + 1, name, start)
  {
    forall j: nat | j < used + 1
      ensures ServedSince(turns, j, used + 1, name, start, sent)
      ensures before < Backlog(turns, used, name, start) && turns[j].table == turns[used].table ==>
                Backlog(turns, j, name, start) > (used - j) * PAGE
    {
      if j < used {
        GrowsBacklog(turns[j].table, turns[used].table, name, start);
        assert ServedSince(turns, j, used, name, start, before);
      }
    }
  }

  /** What was sent so far is an exact stream of valid messages. */
  ghost predicate Sending(turns: seq<Turn>, used: nat, name: string, start: int, valid: string -> bool, sent: seq<Row>)
    requires used <= |turns|
  {
    && (if used > 0 then Exact(turns[used - 1].table, name, start, sent) else sent == [])
    && (forall i :: 0 <= i < |sent| ==> valid(sent[i].message))
  }

  /** The state of the loop while nothing has stopped it. */
  ghost predicate Streaming(turns: seq<Turn>, used: nat, name: string, start: int, valid: string -> bool, sent: seq<Row>, drained: bool)
    requires used <= |turns|
  {
    && Sending(turns, used, name, start, valid, sent) && Served(turns, used, name, start, |sent|)
    && (drained ==> used > 0 && sent == Pending(turns[used - 1].table, name, start))
    && (used > 0 && !drained ==> Backlogged(turns, used, name, start))
  }

  /** The stream. `used` turns were taken; the last one saw the channel drained iff `drained`. */
  method HandleEvents(name: string, header: Header, connect: seq<Row>, maxFails: bool, turns: seq<Turn>, valid: string -> bool)
    returns (accepted: bool, sent: seq<Row>, used: nat, drained: bool)
    requires Growing(connect, turns)
    // a malformed or negative cursor is a bad request; without one, the greatest id has to be read
    ensures accepted <==> (header.Absent? && !maxFails) || (header.Cursor? && header.value >= 0)
    ensures !accepted ==> sent == [] && used == 0
    ensures used <= |turns| && (used == 0 ==> sent == []) && forall r <- sent :: valid(r.message)
    // in order, without gaps or repetitions: a prefix of the channel above the start cursor
    ensures accepted && used > 0 ==> Exact(turns[used - 1].table, name, StartCursor(header, connect, name), sent)
    // with a cursor, the channel above that very cursor
    ensures accepted && header.Cursor? && used > 0 ==> Exact(turns[used - 1].table, name, header.value, sent)
    // without one, what is inserted after the connection, from its first row on
    ensures accepted && header.Absent? && used > 0 && (forall r <- turns[used - 1].table :: r.id > 0) ==>
              && |connect| <= |turns[used - 1].table|
              && sent <= Pending(turns[used - 1].table[|connect|..], name, 0)
              && (drained ==> sent == Pending(turns[used - 1].table[|connect|..], name, 0))
    // everything, once the query came back empty
    ensures drained ==> accepted && used > 0 && sent == Pending(turns[used - 1].table, name, StartCursor(header, connect, name))
    // it ends only for a failure, an invalid message, or a client that leaves a drained stream
    ensures accepted && used < |turns| ==>
              used > 0 && (!Clean(turns[used - 1], name, StartCursor(header, connect, name), valid) || (drained && turns[used - 1].wake.Done?))
    // a turn without failure sends a full page or all there is, so what was once there is sent after enough turns
    ensures accepted && (used > 0 ==> Clean(turns[used - 1], name, StartCursor(header, connect, name), valid)) ==>
              Served(turns, used, name, StartCursor(header, connect, name), |sent|)
    // also when the last turn fails: everything the turns before it owed has been sent
    ensures accepted && used > 0 ==> Served(turns, used - 1, name, StartCursor(header, connect, name), |sent|)
    // and a channel that stays quiet for long enough drains
    ensures accepted && used > 0 && !drained && Clean(turns[used - 1], name, StartCursor(header, connect, name), valid) ==>
              Backlogged(turns, used, name, StartCursor(header, connect, name))
  {
    accepted, sent, used, drained := true, [], 0, false;
    if header.Malformed? || (header.Cursor? && header.value < 0) || (header.Absent? && maxFails) {
      accepted := false;
      return;
    }
    var start := StartCursor(header, connect, name);
    sent, used, drained := Stream(name, start, connect, turns, valid);
    if header.Absent? && used > 0 && (forall r <- turns[used - 1].table :: r.id > 0) {
      assert Grows(connect, turns[used - 1].table);
      FreshStreamStartsNow(connect, turns[used - 1].table, name);
    }
  }

  /** The loop, from a given cursor on. */
  method Stream(name: string, start: int, connect: seq<Row>, turns: seq<Turn>, valid: string -> bool)
    returns (sent: seq<Row>, used: nat, drained: bool)
    requires Growing(connect, turns)
    ensures used <= |turns| && Sending(turns, used, name, start, valid, sent)
    ensures drained ==> used > 0 && sent == Pending(turns[used - 1].table, name, start)
    ensures used < |turns| ==> used > 0 && (!Clean(turns[used - 1], name, start, valid) || (drained && turns[used - 1].wake.Done?))
    ensures (used > 0 ==> Clean(turns[used - 1], name, start, valid)) ==> Served(turns, used, name, start, |sent|)
    ensures used > 0 ==> Served(turns, used - 1, name, start, |sent|)
    ensures used > 0 && !drained && Clean(turns[used - 1], name, start, valid) ==> Backlogged(turns, used, name, start)
  {
    sent, used, drained := [], 0, false;
    while used < |turns|
      invariant used <= |turns| && Streaming(turns, used, name, start, valid, sent, drained)
      invariant used > 0 ==> Served(turns, used - 1, name, start, |sent|)
    {
      ghost var before := |sent|;
      var wake := turns[used].wake;
      var stop;
      sent, drained, stop := TakeTurn(name, start, connect, turns, used, valid, sent);
      ServedMore(turns, used, name, start, before, |sent|);
      used := used + 1;
      if stop || (drained && wake.Done?) {
        return;
      }
    }
  }

  /** A client that loses its connection after `kept` events and comes back with the last id it received: both
      streams together are the one uninterrupted stream above its first cursor. */
  method Reconnect(name: string, cursor: nat, connect: seq<Row>, turns: seq<Turn>, kept: nat, reconnect: seq<Row>,
                   more: seq<Turn>, valid: string -> bool)
    returns (received: seq<Row>, resumed: seq<Row>, used: nat, drained: bool)
    requires Growing(connect, turns) && Growing(reconnect, more)
    requires forall i, j :: 0 <= i < |turns| && 0 <= j < |more| ==> Grows(turns[i].table, more[j].table)
    ensures used <= |more| && |received| <= kept
    ensures used > 0 ==> Exact(more[used - 1].table, name, cursor, received + resumed)
    ensures drained ==> used > 0 && received + resumed == Pending(more[used - 1].table, name, cursor)
  {
    var accepted, first, before, ended := HandleEvents(name, Cursor(cursor), connect, false, turns, valid);
    received := Take(first, kept);
    if before > 0 {
      assert received <= Pending(turns[before - 1].table, name, cursor);
      StreamIsIncreasing(turns[before - 1].table, name, cursor, first);
    }
    var last := LastId(received, cursor);
    accepted, resumed, used, drained := HandleEvents(name, Cursor(last), reconnect, false, more, valid);
    if used > 0 {
      if before > 0 {
        ResumedStreamsConcatenate(turns[before - 1].table, more[used - 1].table, name, cursor, received);
      } else {
        assert received + Pending(more[used - 1].table, name, cursor) == Pending(more[used - 1].table, name, cursor);
      }
      JoinedIsExact(more[used - 1].table, name, cursor, received, resumed);
    }
  }

  lemma {:induction false} JoinedIsExact(t: seq<Row>, name: string, start: int, received: seq<Row>, resumed: seq<Row>)
    requires received + Pending(t, name, LastId(received, start)) == Pending(t, name, start)
    requires Exact(t, name, LastId(received, start), resumed)
    ensures Exact(t, name, start, received + resumed)
  {
    var last := LastId(received, start);
    LastOfJoined(received, resumed, start);
    JoinAssoc(received, resumed, Pending(t, name, LastId(resumed, last)), Pending(t, name, last), Pending(t, name, start));
  }

  lemma JoinAssoc(received: seq<Row>, resumed: seq<Row>, rest: seq<Row>, middle: seq<Row>, all: seq<Row>)
    requires middle == resumed + rest && all == received + middle
    ensures all == (received + resumed) + rest
  {
  }

  lemma {:induction false} LastOfJoined(received: seq<Row>, resumed: seq<Row>, start: int)
    ensures LastId(received + resumed, start) == LastId(resumed, LastId(received, start))
  {
    if resumed == [] {
      assert received + resumed == received;
    }
  }

  /** One turn of the loop. */
  method TakeTurn(name: string, start: int, connect: seq<Row>, turns: seq<Turn>, used: nat, valid: string -> bool, before: seq<Row>)
    returns (sent: seq<Row>, drained: bool, stop: bool)
    requires Growing(connect, turns) && used < |turns| && exists d :: Streaming(turns, used, name, start, valid, before, d)
    ensures !stop ==> Streaming(turns, used + 1, name, start, valid, sent, drained)
    ensures stop ==> Sending(turns, used + 1, name, start, valid, sent) && !drained && !Clean(turns[used], name, start, valid)
    // whatever happens, what earlier turns sent stays sent
    ensures before <= sent
  {
    var turn := turns[used];
    if used > 0 {
      ExactGrows(turns[used - 1].table, turn.table, name, start, before);
    }
    assert Grows(connect, turn.table);
    var count;
    sent, count, stop := SendPage(turn.table, name, start, before, turn.fault, valid);
    MessagesStayValid(before, sent, valid);
    drained := !stop && count == 0;
    if stop {
      StoppedIsNotClean(turn, name, start, before, valid);
    } else {
      PageAdvances(turn.table, name, start, before, sent, count);
      ServedStep(connect, turns, used, name, start, |before|, |sent|);
    }
  }

  lemma {:induction false} MessagesStayValid(before: seq<Row>, sent: seq<Row>, valid: string -> bool)
    requires before <= sent && (forall i :: 0 <= i < |before| ==> valid(before[i].message))
    requires forall r <- sent[|before|..] :: valid(r.message)
    ensures forall i :: 0 <= i < |sent| ==> valid(sent[i].message)
  {
    forall i | 0 <= i < |sent| ensures valid(sent[i].message) {
      if i < |before| {
        assert sent[i] == before[i];
      } else {
        assert sent[i] in sent[|before|..];
      }
    }
  }

  lemma {:induction false} StoppedIsNotClean(turn: Turn, name: string, start: int, before: seq<Row>, valid: string -> bool)
    requires Exact(turn.table, name, start, before)
    requires turn.fault.Some? || exists r <- Pending(turn.table, name, LastId(before, start)) :: !valid(r.message)
    ensures !Clean(turn, name, start, valid)
  {
    if turn.fault.None? {
      var r :| r in Pending(turn.table, name, LastId(before, start)) && !valid(r.message);
      assert r in Pending(turn.table, name, start);
    }
  }

  /** Reconnecting with the last received id continues the one uninterrupted stream, whatever part
      of the first stream the client received. */
  lemma ResumedStreamsConcatenate(t: seq<Row>, t': seq<Row>, name: string, start: int, received: seq<Row>)
    requires Ordered(t) && Grows(t, t') && received <= Pending(t, name, start)
    ensures received + Pending(t', name, LastId(received, start)) == Pending(t', name, start)
  {
    PrefixIsExact(t, name, start, received);
    ExactGrows(t, t', name, start, received);
  }

  lemma {:induction false} PrefixIsExact(t: seq<Row>, name: string, start: int, received: seq<Row>)
    requires Ordered(t) && received <= Pending(t, name, start)
    ensures Exact(t, name, start, received)
  {
    if received != [] {
      var front := received[..|received| - 1];
      PrefixIsExact(t, name, start, front);
      ExactStep(t, name, start, front);
      var next := Pending(t, name, LastId(front, start));
      assert (front + next)[|front|] == next[0];
      assert received == front + [next[0]];
    }
  }

  /** The stream is strictly increasing in id, so no event repeats and none is out of order. */
  lemma StreamIsIncreasing(t: seq<Row>, name: string, start: int, sent: seq<Row>)
    requires Ordered(t) && Exact(t, name, start, sent)
    ensures Ordered(sent) && forall r <- sent :: r in t && r.channel == name && r.id > start
  {
    PendingOrdered(t, name, start);
    var all := Pending(t, name, start);
    assert forall i :: 0 <= i < |sent| ==> sent[i] == all[i];
    forall r | r in sent ensures r in t && r.channel == name && r.id > start {
      assert r in all;
      PendingMember(t, name, start, r);
    }
  }

  lemma {:induction false} MaxIdBounds(rows: seq<Row>, name: string)
    ensures forall r <- rows :: r.channel == name ==> r.id <= MaxId(rows, name)
    ensures MaxId(rows, name) == 0 || exists r :: r in rows && r.id == MaxId(rows, name)
  {
    if rows != [] {
      assert rows == [rows[0]] + rows[1..];
      MaxIdBounds(rows[1..], name);
    }
  }

  /** Without a cursor the client gets exactly what is inserted after it connected. */
  lemma FreshStreamStartsNow(connect: seq<Row>, t: seq<Row>, name: string)
    requires Ordered(connect) && Grows(connect, t) && (forall r <- t :: r.id > 0)
    ensures Pending(t, name, MaxId(connect, name)) == Pending(t[|connect|..], name, 0)
  {
    var max, more := MaxId(connect, name), t[|connect|..];
    assert t == connect + more;
    PendingAppend(connect, more, name, max);
    MaxIdBounds(connect, name);
    if Pending(connect, name, max) != [] {
      PendingMember(connect, name, max, Pending(connect, name, max)[0]);
    }
    forall i | 0 <= i < |more| ensures more[i].id > max {
      assert more[i] == t[|connect| + i];
      assert more[i] in t;
    }
    PendingAbove(more, name, 0, max);
  }
}
