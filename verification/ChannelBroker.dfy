/** The bounded in-process broker, and why a reader that sleeps with undelivered rows is always about to be woken. */
module ChannelBroker {
  import opened Basics
  import opened ChannelLog

  const CAPACITY := 16

  /** One buffered Go channel. */
  class Subscriber {
    var queue: seq<string>

    constructor ()
      ensures queue == []
    {
      queue := [];
    }
  }

  /** A non-blocking send. */
  function Offered(queue: seq<string>, data: string): seq<string> {
    if |queue| < CAPACITY then queue + [data] else queue
  }

  /** `subs` without the first occurrence of `ch`, the others in order. */
  function Without(subs: seq<Subscriber>, ch: Subscriber): seq<Subscriber> {
    if subs == [] then [] else if subs[0] == ch then subs[1..] else [subs[0]] + Without(subs[1..], ch)
  }

  lemma {:induction false} WithoutAt(subs: seq<Subscriber>, ch: Subscriber, i: nat)
    requires i <= |subs| && forall k :: 0 <= k < i ==> subs[k] != ch
    ensures i == |subs| ==> Without(subs, ch) == subs
    ensures i < |subs| && subs[i] == ch ==> Without(subs, ch) == subs[..i] + subs[i + 1..]
  {
    if i > 0 {
      WithoutAt(subs[1..], ch, i - 1);
      assert subs == [subs[0]] + subs[1..];
    }
  }

  class Broker {
    var subscribers: map<string, seq<Subscriber>>

    function Of(channel: string): (subs: seq<Subscriber>)
      reads this
    {
      if channel in subscribers then subscribers[channel] else []
    }

    ghost predicate Valid()
      reads this
    {
      forall channel <- subscribers :: Distinct(subscribers[channel])
    }

    constructor ()
      ensures Valid() && subscribers == map[]
    {
      subscribers := map[];
    }

    method Subscribe(channel: string) returns (ch: Subscriber)
      requires Valid()
      modifies this
      ensures Valid() && fresh(ch) && ch.queue == []
      ensures Of(channel) == old(Of(channel)) + [ch]
      ensures forall other :: other != channel ==> Of(other) == old(Of(other))
    {
      ch := new Subscriber();
      var subs := Of(channel) + [ch];
      assert Distinct(subs);
      subscribers := subscribers[channel := subs];
    }

    method Unsubscribe(channel: string, ch: Subscriber)
      requires Valid()
      modifies this
      ensures Valid()
      ensures Of(channel) == Without(old(Of(channel)), ch) && ch !in Of(channel)
      ensures forall other :: other != channel ==> Of(other) == old(Of(other))
    {
      var subs := Of(channel);
      for i := 0 to |subs|
        invariant forall k :: 0 <= k < i ==> subs[k] != ch
        invariant subscribers == old(subscribers)
      {
        if subs[i] == ch {
          WithoutAt(subs, ch, i);
          var rest := subs[..i] + subs[i + 1..];
          assert Distinct(rest);
          subscribers := subscribers[channel := rest];
          return;
        }
      }
      WithoutAt(subs, ch, |subs|);
    }

    method Publish(channel: string, data: string)
      requires Valid()
      modifies Of(channel)
      // a queue of fewer than 16 messages gets this one at its end; a full one is left alone
      ensures forall s <- Of(channel) :: s.queue == if |old(s.queue)| < 16 then old(s.queue) + [data] else old(s.queue)
      ensures forall s <- Of(channel) :: s.queue != []
    {
      var subs := Of(channel);
      for i := 0 to |subs|
        invariant forall k :: 0 <= k < i ==> subs[k].queue == Offered(old(subs[k].queue), data)
        invariant forall k :: i <= k < |subs| ==> subs[k].queue == old(subs[k].queue)
      {
        if |subs[i].queue| < CAPACITY {
          subs[i].queue := subs[i].queue + [data];
        }
      }
    }
  }

  // ---- Reader, posters and one queue, interleaved ----

  datatype Pc = Querying | Waiting

  /** One subscribed reader. `unpublished` counts the posts to this channel that have inserted and will still
      reach it, unless they end silently: all that insert after it subscribed, and of those before it the ones
      that have not copied the subscriber list yet. `mute` records that one ended without publishing
      (LastInsertId failed) since the reader's last query. */
  datatype State = State(rows: seq<Row>, name: string, cursor: int, pc: Pc, queue: nat, unpublished: nat, mute: bool)

  datatype Action =
    | Insert(row: Row)
    | Publish
    | EndSilently
    | Query(upTo: nat)   // one page; `upTo` rows were sent
    | Wake
    | Tick

  ghost predicate Enabled(s: State, a: Action) {
    match a
    case Insert(row) => forall r <- s.rows :: r.id < row.id
    case Publish => s.unpublished > 0
    case EndSilently => s.unpublished > 0
    case Query(upTo) =>
      && s.pc.Querying? && upTo <= |Pending(s.rows, s.name, s.cursor)|
      && (Pending(s.rows, s.name, s.cursor) != [] ==> upTo > 0)
    case Wake => s.pc.Waiting? && s.queue > 0
    case Tick => s.pc.Waiting?
  }

  ghost function Step(s: State, a: Action): State
    requires Enabled(s, a)
  {
    match a
    case Insert(row) =>
      s.(rows := s.rows + [row], unpublished := if row.channel == s.name then s.unpublished + 1 else s.unpublished)
    case Publish =>
      s.(unpublished := s.unpublished - 1, queue := if s.queue < CAPACITY then s.queue + 1 else s.queue)
    case EndSilently => s.(unpublished := s.unpublished - 1, mute := true)
    case Query(upTo) =>
      if upTo == 0 then s.(pc := Waiting, mute := false)
      else s.(cursor := Pending(s.rows, s.name, s.cursor)[upTo - 1].id)
    case Wake => s.(pc := Querying, queue := s.queue - 1)
    case Tick => s.(pc := Querying)
  }

  ghost predicate Init(s: State) {
    s.pc.Querying? && s.queue == 0 && !s.mute && Ordered(s.rows)
  }

  /** A waiting reader with something to deliver has a wake-up queued or on its way. */
  ghost predicate NoLostWakeUp(s: State) {
    s.pc.Waiting? && Pending(s.rows, s.name, s.cursor) != [] ==> s.queue > 0 || s.unpublished > 0 || s.mute
  }

  ghost predicate Inv(s: State) {
    s.queue <= CAPACITY && NoLostWakeUp(s)
  }

  lemma StepKeepsInv(s: State, a: Action)
    requires Inv(s) && Enabled(s, a)
    ensures Inv(Step(s, a))
  {
    if a.Insert? {
      PendingAppend(s.rows, [a.row], s.name, s.cursor);
      assert Pending([a.row], s.name, s.cursor) != [] ==> a.row.channel == s.name;
    }
  }

  /** What reader and posters do to the undelivered rows: a query takes the rows it sends off the front, an insert puts
      a row of the channel at the end, and nothing else touches them. */
  lemma StepOnPending(s: State, a: Action)
    requires Enabled(s, a) && Ordered(s.rows)
    ensures
      var before, after := Pending(s.rows, s.name, s.cursor), Pending(Step(s, a).rows, s.name, Step(s, a).cursor);
      match a
      case Query(upTo) => after == before[upTo..]
      case Insert(row) => after == if row.channel == s.name && row.id > s.cursor then before + [row] else before
      case _ => after == before
  {
    if a.Query? && a.upTo > 0 {
      QueryTakes(s.rows, s.name, s.cursor, a.upTo);
    } else if a.Insert? {
      PendingAppend(s.rows, [a.row], s.name, s.cursor);
    }
  }

  lemma {:induction false} QueryTakes(rows: seq<Row>, name: string, cursor: int, n: nat)
    requires Ordered(rows) && 0 < n <= |Pending(rows, name, cursor)|
    ensures Pending(rows, name, Pending(rows, name, cursor)[n - 1].id) == Pending(rows, name, cursor)[n..]
    decreases n
  {
    var all := Pending(rows, name, cursor);
    if n == 1 {
      PendingStep(rows, name, cursor);
    } else {
      PendingStep(rows, name, cursor);
      var next := all[0].id;
      assert Pending(rows, name, next) == all[1..];
      QueryTakes(rows, name, next, n - 1);
      assert all[1..][n - 2] == all[n - 1] && all[1..][n - 1..] == all[n..];
    }
  }

  /** And to the queue: a publish adds a wake-up unless 16 are queued, a wake-up takes one, and only an empty query
      puts the reader to sleep. */
  lemma StepOnQueue(s: State, a: Action)
    requires Enabled(s, a)
    ensures Step(s, a).queue == (if a.Publish? && s.queue < 16 then s.queue + 1 else if a.Wake? then s.queue - 1 else s.queue)
    ensures Step(s, a).pc.Waiting? <==>
            (s.pc.Waiting? && !a.Wake? && !a.Tick?) || (a.Query? && Pending(s.rows, s.name, s.cursor) == [])
  {
  }

  ghost predicate IsRun(run: seq<State>, acts: seq<Action>) {
    && |run| == |acts| + 1 && Init(run[0])
    && (forall i {:trigger acts[i]} :: 0 <= i < |acts| ==> Enabled(run[i], acts[i]) && run[i + 1] == Step(run[i], acts[i]))
  }

  /** However many notifications the full queue drops, no reader sleeps on undelivered rows without a
      wake-up queued or coming, unless a post ended without publishing at all. */
  lemma {:induction false} SleepingReaderIsWoken(run: seq<State>, acts: seq<Action>, n: nat)
    requires IsRun(run, acts) && n < |run|
    ensures Inv(run[n])
  {
    if n > 0 {
      SleepingReaderIsWoken(run, acts, n - 1);
      assert run[n] == Step(run[n - 1], acts[n - 1]);
      StepKeepsInv(run[n - 1], acts[n - 1]);
    }
  }

  // ---- The one exception

  /** Asleep on undelivered rows with nothing queued and nobody about to publish: only the next tick helps. */
  ghost predicate Forgotten(s: State) {
    s.pc.Waiting? && Pending(s.rows, s.name, s.cursor) != [] && s.queue == 0 && s.unpublished == 0
  }

  /** A step makes a reader forgotten exactly when it is the silent end of the last post still to publish,
      while the reader waits on undelivered rows with an empty queue. This holds of every state. */
  lemma ForgottenExactlyWhen(s: State, a: Action)
    requires Enabled(s, a) && !Forgotten(s)
    ensures Forgotten(Step(s, a)) <==>
            a.EndSilently? && s.pc.Waiting? && Pending(s.rows, s.name, s.cursor) != [] && s.queue == 0 && s.unpublished == 1
  {
    if a.Insert? {
      PendingAppend(s.rows, [a.row], s.name, s.cursor);
    }
  }

  /** From every state in which the reader waits on a drained channel with an empty queue and no post under
      way, one post that ends silently makes it forgotten. */
  lemma SilentPostForgetsReader(s: State, row: Row)
    requires s.pc.Waiting? && s.queue == 0 && s.unpublished == 0 && Pending(s.rows, s.name, s.cursor) == []
    requires Enabled(s, Insert(row)) && row.channel == s.name && row.id > s.cursor
    ensures Enabled(Step(s, Insert(row)), EndSilently)
    ensures Forgotten(Step(Step(s, Insert(row)), EndSilently))
  {
    PendingAppend(s.rows, [row], s.name, s.cursor);
    PendingMember([row], s.name, s.cursor, row);
    assert row in [row];
  }

  /** In every run a forgotten reader owes it to a post that ended silently while it was already waiting:
      since then it has neither queried nor been woken. */
  lemma {:induction false} ForgottenBySilentPost(run: seq<State>, acts: seq<Action>, n: nat) returns (i: nat)
    requires IsRun(run, acts) && n < |run| && Forgotten(run[n])
    ensures i < n && acts[i].EndSilently? && run[i].pc.Waiting?
    ensures forall j :: i < j < n ==> !acts[j].Query? && !acts[j].Wake? && !acts[j].Tick?
  {
    assert run[n] == Step(run[n - 1], acts[n - 1]);
    if Forgotten(run[n - 1]) {
      i := ForgottenBySilentPost(run, acts, n - 1);
    } else {
      ForgottenExactlyWhen(run[n - 1], acts[n - 1]);
      i := n - 1;
    }
  }
}
