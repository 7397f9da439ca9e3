/** The fleet-mutation latch as a transition system: any number of concurrent proxy
    requests, browser acknowledgements, logouts, expiries, failing statements and
    crashes, interleaved one SQL statement or one network call at a time. */
module FleetLatch {
  import opened Basics
  import opened SessionTable

  /** Program points of one fleet mutation inside `proxyAPI`. */
  datatype Pc =
    | Gated                             // policy, credential and CSRF gates passed
    | Minted(tok: string)               // randToken returned
    | Owner(tok: string)                // the claim affected one row; nothing sent yet
    | Sent(tok: string)                 // kbClient.Do was called
    | Received(tok: string, status: int) // a complete reply of admissible size was read
    | Dropping                          // about to run sessions.del

  datatype Request = Request(id: string, pc: Pc)

  /** What an observer at the KB and at the acknowledgement endpoint can see. */
  datatype Event =
    | Dispatched(id: string, tok: string)
    | Completed(id: string, tok: string, status: int)
    | Indeterminate(id: string, tok: string)
    | Acked(id: string, tok: string)

  datatype State = State(
    rows: Table, reqs: map<nat, Request>,
    usedIds: set<string>, usedTokens: set<string>, log: seq<Event>)

  datatype Action =
    | Login(id: string, row: Row)
    | Arrive(rid: nat, id: string)
    | Mint(rid: nat, tok: string)
    | Abandon(rid: nat)                 // randToken failed
    | TryClaim(rid: nat, o: SqlOutcome)
    | BuildFails(rid: nat, o: SqlOutcome)
    | Send(rid: nat)
    | ReplyLost(rid: nat)               // transport error, unreadable or oversized reply
    | Reply(rid: nat, status: int)
    | Resolve(rid: nat, o: SqlOutcome)
    | Drop(rid: nat, o: SqlOutcome)
    | Ack(id: string, tok: string, o: SqlOutcome)
    | Refresh(id: string, now: int)     // last_seen update of `get`
    | Remove(id: string, o: SqlOutcome) // logout, expiry, lost credential, 401 on a fleet read
    | RemovePrincipal(iss: string, sub: string, o: SqlOutcome)
    | Crash                             // process stop and restart

  /** Statuses after which the latch is deliberately kept, plus 401, which drops the session. */
  predicate Conclusive(status: int) {
    status != 401 && status != 409 && status != 502
  }

  ghost predicate Init(s: State) {
    && s.reqs == map[] && s.log == []
    && s.rows.Keys <= s.usedIds
    && (forall id <- s.rows :: s.rows[id].latch == 0 && s.rows[id].ackToken == "")
  }

  function Move(s: State, rid: nat, pc: Pc): State
    requires rid in s.reqs
  {
    s.(reqs := s.reqs[rid := s.reqs[rid].(pc := pc)])
  }

  function End(s: State, rid: nat): State {
    s.(reqs := s.reqs - {rid})
  }

  function Emit(s: State, e: Event): State {
    s.(log := s.log + [e])
  }

  /** `transitionFleetMutationOrDelete`: the statement, then either the end of the handler or the delete. */
  function Shift(s: State, rid: nat, tok: string, from: int, to: int, o: SqlOutcome): State
    requires rid in s.reqs
  {
    var id := s.reqs[rid].id;
    var moved := s.(rows := After(s.rows, Transition(s.rows, id, tok, from, to), o));
    if o.Reported? && Holds(s.rows, id, from, tok) then End(moved, rid) else Move(moved, rid, Dropping)
  }

  ghost predicate Enabled(s: State, a: Action) {
    match a
    case Login(id, row) => id !in s.usedIds && row.latch == 0 && row.ackToken == ""
    case Arrive(rid, id) => rid !in s.reqs
    case Mint(rid, tok) => rid in s.reqs && s.reqs[rid].pc.Gated? && tok != "" && tok !in s.usedTokens
    case Abandon(rid) => rid in s.reqs && s.reqs[rid].pc.Gated?
    case TryClaim(rid, _) => rid in s.reqs && s.reqs[rid].pc.Minted?
    case BuildFails(rid, _) => rid in s.reqs && s.reqs[rid].pc.Owner?
    case Send(rid) => rid in s.reqs && s.reqs[rid].pc.Owner?
    case ReplyLost(rid) => rid in s.reqs && s.reqs[rid].pc.Sent?
    case Reply(rid, _) => rid in s.reqs && s.reqs[rid].pc.Sent?
    case Resolve(rid, _) => rid in s.reqs && s.reqs[rid].pc.Received?
    case Drop(rid, _) => rid in s.reqs && s.reqs[rid].pc.Dropping?
    case Ack(_, tok, _) => tok != ""
    case _ => true
  }

  ghost function Step(s: State, a: Action): State
    requires Enabled(s, a)
  {
    match a
    case Login(id, row) => s.(rows := s.rows[id := row], usedIds := s.usedIds + {id})
    case Arrive(rid, id) => s.(reqs := s.reqs[rid := Request(id, Gated)])
    case Mint(rid, tok) => Move(s, rid, Minted(tok)).(usedTokens := s.usedTokens + {tok})
    case Abandon(rid) => End(s, rid)
    case TryClaim(rid, o) =>
      var id, tok := s.reqs[rid].id, s.reqs[rid].pc.tok;
      var tried := s.(rows := After(s.rows, Claim(s.rows, id, tok), o));
      if !o.Reported? then Move(tried, rid, Dropping)
      else if Free(s.rows, id) then Move(tried, rid, Owner(tok))
      else End(tried, rid)
    case BuildFails(rid, o) => Shift(s, rid, s.reqs[rid].pc.tok, 1, 0, o)
    case Send(rid) =>
      var id, tok := s.reqs[rid].id, s.reqs[rid].pc.tok;
      Emit(Move(s, rid, Sent(tok)), Dispatched(id, tok))
    case ReplyLost(rid) =>
      Emit(End(s, rid), Indeterminate(s.reqs[rid].id, s.reqs[rid].pc.tok))
    case Reply(rid, status) =>
      var id, tok := s.reqs[rid].id, s.reqs[rid].pc.tok;
      Emit(Move(s, rid, Received(tok, status)), Completed(id, tok, status))
    case Resolve(rid, o) =>
      var tok, status := s.reqs[rid].pc.tok, s.reqs[rid].pc.status;
      if status == 401 then Move(s, rid, Dropping)
      else if status == 409 || status == 502 then End(s, rid)
      else Shift(s, rid, tok, 1, 2, o)
    case Drop(rid, o) => End(s.(rows := After(s.rows, Delete(s.rows, s.reqs[rid].id), o)), rid)
    case Ack(id, tok, o) =>
      var acked := s.(rows := After(s.rows, Acknowledge(s.rows, id, tok), o));
      if Holds(s.rows, id, 2, tok) && !o.Refused? then Emit(acked, Acked(id, tok)) else acked
    case Refresh(id, now) => s.(rows := Touch(s.rows, id, now))
    case Remove(id, o) => s.(rows := After(s.rows, Delete(s.rows, id), o))
    case RemovePrincipal(iss, sub, o) => s.(rows := After(s.rows, DeletePrincipal(s.rows, iss, sub), o))
    case Crash => s.(reqs := map[])
  }

  ghost predicate IsRun(run: seq<State>, acts: seq<Action>) {
    && |run| == |acts| + 1 && Init(run[0])
    && (forall i {:trigger acts[i]} :: 0 <= i < |acts| ==> Enabled(run[i], acts[i]) && run[i + 1] == Step(run[i], acts[i]))
  }

  /** `acts`, taken in order without interference, lead from `s` to `s'`. */
  ghost predicate Leads(s: State, acts: seq<Action>, s': State)
    decreases |acts|
  {
    if acts == [] then s == s'
    else Enabled(s, acts[0]) && Leads(Step(s, acts[0]), acts[1..], s')
  }

  lemma LeadsCons(s: State, a: Action, rest: seq<Action>, s': State)
    requires Enabled(s, a) && Leads(Step(s, a), rest, s')
    ensures Leads(s, [a] + rest, s')
  {
    assert ([a] + rest)[1..] == rest;
  }

  // ---- The specification: an automaton that reads the event log of one session ----

  datatype Phase =
    | Idle                 // no mutation outstanding
    | Open(tok: string)    // dispatched, no outcome known
    | Replied(tok: string) // conclusively answered, not acknowledged
    | Lost(tok: string)    // outcome indeterminate: nothing may follow
    | Broken               // the log violates the protocol

  function Advance(p: Phase, e: Event): Phase {
    match e
    case Dispatched(_, t) => if p.Idle? then Open(t) else Broken
    case Completed(_, t, status) =>
      if p == Open(t) then (if Conclusive(status) then Replied(t) else Lost(t)) else Broken
    case Indeterminate(_, t) => if p == Open(t) then Lost(t) else Broken
    case Acked(_, t) => if p == Replied(t) then Idle else Broken
  }

  function PhaseOf(log: seq<Event>, id: string): Phase {
    if log == [] then Idle
    else
      var before := PhaseOf(log[..|log| - 1], id);
      var e := log[|log| - 1];
      if e.id == id then Advance(before, e) else before
  }

  lemma PhaseOfAppend(log: seq<Event>, e: Event, id: string)
    ensures PhaseOf(log + [e], id) == if e.id == id then Advance(PhaseOf(log, id), e) else PhaseOf(log, id)
  {
    assert (log + [e])[..|log|] == log;
  }

  // ---- The inductive invariant ----

  predicate Active(pc: Pc) {
    pc.Owner? || pc.Sent? || pc.Received?
  }

  /** What row `id` may look like in phase `p`. */
  ghost predicate RowFits(t: Table, id: string, p: Phase) {
    id in t ==>
      var r := t[id];
      || (r.latch == 0 && p.Idle?)
      || (r.latch == 1 && (p.Idle? || p == Open(r.ackToken) || p == Replied(r.ackToken) || p == Lost(r.ackToken)))
      || (r.latch == 2 && p == Replied(r.ackToken))
  }

  /** What an active request knows about its session. */
  ghost predicate RequestFits(s: State, q: Request) {
    Active(q.pc) ==>
      && q.id in s.usedIds
      && (q.id in s.rows ==> Holds(s.rows, q.id, 1, q.pc.tok))
      && PhaseOf(s.log, q.id) ==
         match q.pc
         case Owner(_) => Idle
         case Sent(tok) => Open(tok)
         case Received(tok, status) => (if Conclusive(status) then Replied(tok) else Lost(tok))
         case _ => Broken
  }

  predicate HasToken(pc: Pc) {
    pc.Minted? || Active(pc)
  }

  predicate Unsent(pc: Pc) {
    pc.Minted? || pc.Owner?
  }

  /** Tokens are minted once and dispatched at most once. */
  ghost predicate TokensFit(s: State) {
    && (forall r <- s.reqs :: HasToken(s.reqs[r].pc) ==> s.reqs[r].pc.tok in s.usedTokens)
    && (forall r <- s.reqs, r' <- s.reqs :: r != r' && HasToken(s.reqs[r].pc) && HasToken(s.reqs[r'].pc) ==>
          s.reqs[r].pc.tok != s.reqs[r'].pc.tok)
    && (forall i :: 0 <= i < |s.log| && s.log[i].Dispatched? ==> s.log[i].tok in s.usedTokens)
    && (forall r <- s.reqs, i :: 0 <= i < |s.log| && s.log[i].Dispatched? && Unsent(s.reqs[r].pc) ==>
          s.reqs[r].pc.tok != s.log[i].tok)
    && (forall i, j :: 0 <= i < j < |s.log| && s.log[i].Dispatched? && s.log[j].Dispatched? ==>
          s.log[i].tok != s.log[j].tok)
  }

  ghost predicate Inv(s: State) {
    && s.rows.Keys <= s.usedIds
    && (forall id :: RowFits(s.rows, id, PhaseOf(s.log, id)))
    && (forall id :: PhaseOf(s.log, id) != Broken)
    && (forall id :: id !in s.usedIds ==> PhaseOf(s.log, id).Idle?)
    && (forall r <- s.reqs :: RequestFits(s, s.reqs[r]))
    && (forall r <- s.reqs, r' <- s.reqs :: r != r' && Active(s.reqs[r].pc) && Active(s.reqs[r'].pc) ==>
          s.reqs[r].id != s.reqs[r'].id)
  }

  lemma InitInv(s: State)
    requires Init(s)
    ensures Inv(s) && TokensFit(s)
  {}

  /** Steps of the environment on the table alone. */
  lemma TableStepKeepsInv(s: State, a: Action)
    requires Inv(s) && Enabled(s, a) && Step(s, a).log == s.log
    requires a.Login? || a.Refresh? || a.Remove? || a.RemovePrincipal? || a.Ack? || a.Crash?
    ensures Inv(Step(s, a))
  {
    var s' := Step(s, a);
    forall id ensures RowFits(s'.rows, id, PhaseOf(s'.log, id)) {
      assert RowFits(s.rows, id, PhaseOf(s.log, id));
    }
    forall r | r in s'.reqs ensures RequestFits(s', s'.reqs[r]) {
      assert RequestFits(s, s.reqs[r]);
    }
  }

  /** A request that changes only its own program point, without becoming active. */
  lemma RequestStepKeepsInv(s: State, a: Action)
    requires Inv(s) && Enabled(s, a) && Step(s, a).log == s.log
    requires a.Arrive? || a.Mint? || a.Abandon? || a.Drop? || (a.Resolve? && !Conclusive(s.reqs[a.rid].pc.status))
    ensures Inv(Step(s, a))
  {
    var s' := Step(s, a);
    forall id ensures RowFits(s'.rows, id, PhaseOf(s'.log, id)) {
      assert RowFits(s.rows, id, PhaseOf(s.log, id));
    }
    forall r | r in s'.reqs ensures RequestFits(s', s'.reqs[r]) {
      assert r in s.reqs ==> RequestFits(s, s.reqs[r]);
    }
  }

  lemma ClaimKeepsRows(s: State, a: Action)
    requires Inv(s) && Enabled(s, a) && a.TryClaim?
    ensures
      var s' := Step(s, a);
      s'.rows.Keys <= s'.usedIds && forall id :: RowFits(s'.rows, id, PhaseOf(s'.log, id))
  {
    var s' := Step(s, a);
    forall id ensures RowFits(s'.rows, id, PhaseOf(s'.log, id)) {
      assert RowFits(s.rows, id, PhaseOf(s.log, id));
    }
  }

  lemma ClaimKeepsRequests(s: State, a: Action, r: nat)
    requires Inv(s) && Enabled(s, a) && a.TryClaim? && r in Step(s, a).reqs
    ensures RequestFits(Step(s, a), Step(s, a).reqs[r])
    ensures r != a.rid && Active(s.reqs[r].pc) && Free(s.rows, s.reqs[a.rid].id) ==> s.reqs[r].id != s.reqs[a.rid].id
  {
    var q := s.reqs[a.rid];
    assert RequestFits(s, s.reqs[r]);
    assert RowFits(s.rows, q.id, PhaseOf(s.log, q.id));
  }

  lemma ClaimKeepsInv(s: State, a: Action)
    requires Inv(s) && Enabled(s, a) && a.TryClaim?
    ensures Inv(Step(s, a))
  {
    ClaimKeepsRows(s, a);
    forall r | r in Step(s, a).reqs
      ensures RequestFits(Step(s, a), Step(s, a).reqs[r])
      ensures r != a.rid && Active(s.reqs[r].pc) && Free(s.rows, s.reqs[a.rid].id) ==> s.reqs[r].id != s.reqs[a.rid].id
    {
      ClaimKeepsRequests(s, a, r);
    }
  }

  /** The owner's own compare-and-set: back to free before anything was sent, or on to answered. */
  lemma ShiftKeepsInv(s: State, rid: nat, to: int, o: SqlOutcome)
    requires Inv(s) && rid in s.reqs
    requires
      var pc := s.reqs[rid].pc;
      (pc.Owner? && to == 0) || (pc.Received? && Conclusive(pc.status) && to == 2)
    ensures Inv(Shift(s, rid, s.reqs[rid].pc.tok, 1, to, o))
  {
    var q := s.reqs[rid];
    var s' := Shift(s, rid, q.pc.tok, 1, to, o);
    assert RequestFits(s, q);
    forall id ensures RowFits(s'.rows, id, PhaseOf(s'.log, id)) {
      assert RowFits(s.rows, id, PhaseOf(s.log, id));
    }
    forall r | r in s'.reqs ensures RequestFits(s', s'.reqs[r]) {
      assert RequestFits(s, s.reqs[r]);
    }
  }

  /** Appending one event moves only the automaton of its session. */
  lemma EventMovesOne(log: seq<Event>, e: Event)
    ensures forall id :: PhaseOf(log + [e], id) == if e.id == id then Advance(PhaseOf(log, id), e) else PhaseOf(log, id)
  {
    forall id
      ensures PhaseOf(log + [e], id) == if e.id == id then Advance(PhaseOf(log, id), e) else PhaseOf(log, id)
    {
      PhaseOfAppend(log, e, id);
    }
  }

  lemma AckKeepsInv(s: State, a: Action)
    requires Inv(s) && Enabled(s, a) && a.Ack? && Step(s, a).log != s.log
    ensures Inv(Step(s, a))
  {
    EventMovesOne(s.log, Acked(a.id, a.tok));
    assert RowFits(s.rows, a.id, PhaseOf(s.log, a.id));
  }

  /** Sending, losing the reply and reading it: one request moves and reports. */
  lemma ReportKeepsInv(s: State, a: Action)
    requires Inv(s) && Enabled(s, a) && (a.Send? || a.ReplyLost? || a.Reply?)
    ensures Inv(Step(s, a))
  {
    var s', q := Step(s, a), s.reqs[a.rid];
    var e := s'.log[|s.log|];
    assert s'.log == s.log + [e];
    EventMovesOne(s.log, e);
    assert RequestFits(s, q);
  }

  /** Steps that emit one event. */
  lemma EmittingStepKeepsInv(s: State, a: Action)
    requires Inv(s) && Enabled(s, a) && Step(s, a).log != s.log
    ensures Inv(Step(s, a))
  {
    if a.Ack? {
      AckKeepsInv(s, a);
    } else {
      ReportKeepsInv(s, a);
    }
  }

  lemma StepKeepsInv(s: State, a: Action)
    requires Inv(s) && Enabled(s, a)
    ensures Inv(Step(s, a))
  {
    if Step(s, a).log != s.log {
      EmittingStepKeepsInv(s, a);
    } else {
      match a
      case TryClaim(_, _) => ClaimKeepsInv(s, a);
      case BuildFails(rid, o) => ShiftKeepsInv(s, rid, 0, o);
      case Resolve(rid, o) =>
        if Conclusive(s.reqs[rid].pc.status) {
          ShiftKeepsInv(s, rid, 2, o);
        } else {
          RequestStepKeepsInv(s, a);
        }
      case Arrive(_, _) => RequestStepKeepsInv(s, a);
      case Mint(_, _) => RequestStepKeepsInv(s, a);
      case Abandon(_) => RequestStepKeepsInv(s, a);
      case Drop(_, _) => RequestStepKeepsInv(s, a);
      case _ => TableStepKeepsInv(s, a);
    }
  }

  /** Every token of a request in `s'` was already there, and no dispatch was added. */
  ghost predicate Inherits(s: State, s': State) {
    && s'.usedTokens == s.usedTokens
    && (forall r <- s'.reqs :: HasToken(s'.reqs[r].pc) ==>
          && r in s.reqs && HasToken(s.reqs[r].pc) && s.reqs[r].pc.tok == s'.reqs[r].pc.tok
          && (Unsent(s'.reqs[r].pc) ==> Unsent(s.reqs[r].pc)))
    && (s'.log == s.log || (|s'.log| == |s.log| + 1 && s'.log[..|s.log|] == s.log && !s'.log[|s.log|].Dispatched?))
  }

  lemma InheritedTokensFit(s: State, s': State)
    requires TokensFit(s) && Inherits(s, s')
    ensures TokensFit(s')
  {
    assert forall i :: 0 <= i < |s'.log| && s'.log[i].Dispatched? ==> i < |s.log| && s'.log[i] == s.log[i];
  }

  /** Steps that neither mint nor send: tokens only move between or leave requests. */
  lemma QuietStepInherits(s: State, a: Action)
    requires Enabled(s, a) && !a.Mint? && !a.Send?
    ensures Inherits(s, Step(s, a))
  {
  }

  lemma StepKeepsTokens(s: State, a: Action)
    requires TokensFit(s) && Enabled(s, a)
    ensures TokensFit(Step(s, a))
  {
    if !a.Mint? && !a.Send? {
      QuietStepInherits(s, a);
      InheritedTokensFit(s, Step(s, a));
    }
  }

  lemma {:induction false} RunInv(run: seq<State>, acts: seq<Action>, n: nat)
    requires IsRun(run, acts) && n < |run|
    ensures Inv(run[n]) && TokensFit(run[n])
  {
    if n == 0 {
      InitInv(run[0]);
    } else {
      RunInv(run, acts, n - 1);
      assert run[n] == Step(run[n - 1], acts[n - 1]);
      StepKeepsInv(run[n - 1], acts[n - 1]);
      StepKeepsTokens(run[n - 1], acts[n - 1]);
    }
  }

  // ---- What an unbroken log means ----

  lemma {:induction false} PrefixUnbroken(log: seq<Event>, id: string, n: nat)
    requires PhaseOf(log, id) != Broken && n <= |log|
    ensures PhaseOf(log[..n], id) != Broken
  {
    if n == |log| {
      assert log[..n] == log;
    } else {
      var front := log[..|log| - 1];
      PrefixUnbroken(front, id, n);
      assert front[..n] == log[..n];
    }
  }

  /** The automaton moves from prefix `n` to prefix `n + 1` by reading entry `n`. */
  lemma PhaseNext(log: seq<Event>, id: string, n: nat)
    requires PhaseOf(log, id) != Broken && n < |log|
    ensures PhaseOf(log[..n + 1], id) != Broken
    ensures PhaseOf(log[..n + 1], id) ==
            if log[n].id == id then Advance(PhaseOf(log[..n], id), log[n]) else PhaseOf(log[..n], id)
  {
    PrefixUnbroken(log, id, n + 1);
    assert log[..n + 1][..n] == log[..n];
  }

  /** Where the automaton leaves phase `p`. */
  lemma {:induction false} Leaves(log: seq<Event>, id: string, p: Phase, i: nat, j: nat) returns (k: nat)
    requires PhaseOf(log, id) != Broken && i <= j <= |log|
    requires PhaseOf(log[..i], id) == p && PhaseOf(log[..j], id) != p
    ensures i <= k < j && log[k].id == id && Advance(p, log[k]) == PhaseOf(log[..k + 1], id) != p
    decreases j - i
  {
    PhaseNext(log, id, i);
    if PhaseOf(log[..i + 1], id) == p {
      k := Leaves(log, id, p, i + 1, j);
    } else {
      k := i;
    }
  }

  /** From `Open(t)` at prefix `i` the automaton can be idle at prefix `j` only through
      a conclusive reply to `t` and then an acknowledgement of `t`. */
  lemma {:induction false} OpenToIdle(log: seq<Event>, id: string, t: string, i: nat, j: nat)
    returns (k: nat, m: nat, status: int)
    requires PhaseOf(log, id) != Broken && i <= j <= |log|
    requires PhaseOf(log[..i], id) == Open(t) && PhaseOf(log[..j], id) == Idle
    ensures i <= k < m < j && status !in {401, 409, 502}
    ensures log[k] == Completed(id, t, status) && log[m] == Acked(id, t)
  {
    k := Leaves(log, id, Open(t), i, j);
    PrefixUnbroken(log, id, k + 1);
    if PhaseOf(log[..k + 1], id).Lost? {
      LostForever(log, id, k + 1, j);
    }
    m := Leaves(log, id, Replied(t), k + 1, j);
    PrefixUnbroken(log, id, m + 1);
    status := log[k].status;
  }

  lemma {:induction false} LostForever(log: seq<Event>, id: string, i: nat, j: nat)
    requires PhaseOf(log, id) != Broken && i <= j <= |log|
    requires PhaseOf(log[..i], id).Lost?
    ensures PhaseOf(log[..j], id) == PhaseOf(log[..i], id)
    ensures forall k :: i <= k < j ==> log[k].id != id
  {
    if i < j {
      LostForever(log, id, i, j - 1);
      PhaseNext(log, id, j - 1);
    }
  }

  /** A mutation the automaton remembers is the last one dispatched. */
  lemma {:induction false} Outstanding(log: seq<Event>, id: string) returns (n: nat)
    requires PhaseOf(log, id) != Broken && PhaseOf(log, id) != Idle
    ensures n < |log| && log[n] == Dispatched(id, PhaseOf(log, id).tok)
    ensures forall k :: n < k < |log| && log[k].id == id ==> !log[k].Dispatched?
  {
    var last := |log| - 1;
    PhaseNext(log, id, last);
    assert log[..last + 1] == log;
    if log[last].id == id && log[last].Dispatched? {
      n := last;
    } else {
      n := Outstanding(log[..last], id);
    }
  }

  // ---- Main results ----

  ghost function FinalLog(run: seq<State>): seq<Event>
    requires run != []
  {
    run[|run| - 1].log
  }

  /** Two mutations dispatched under one session id are separated by a conclusive reply to
      the first and an acknowledgement carrying the first's own token. */
  lemma DispatchesAreSeparated(run: seq<State>, acts: seq<Action>, i: nat, j: nat)
    returns (k: nat, m: nat, status: int)
    requires IsRun(run, acts) && i < j < |FinalLog(run)|
    requires FinalLog(run)[i].Dispatched? && FinalLog(run)[j].Dispatched?
    requires FinalLog(run)[i].id == FinalLog(run)[j].id
    ensures
      var log := FinalLog(run);
      && i < k < m < j && status !in {401, 409, 502}
      && log[k] == Completed(log[i].id, log[i].tok, status)
      && log[m] == Acked(log[i].id, log[i].tok)
  {
    var log, id := FinalLog(run), FinalLog(run)[i].id;
    RunInv(run, acts, |run| - 1);
    PhaseNext(log, id, i);
    PhaseNext(log, id, j);
    k, m, status := OpenToIdle(log, id, log[i].tok, i + 1, j);
  }

  /** After a transport failure, an unusable reply, 401, 409 or 502 nothing more is ever dispatched
      or acknowledged under that id, and the row, while it exists, stays latched under its token. */
  lemma IndeterminateIsFinal(run: seq<State>, acts: seq<Action>, i: nat)
    requires IsRun(run, acts) && i < |FinalLog(run)|
    requires
      var e := FinalLog(run)[i];
      e.Indeterminate? || (e.Completed? && e.status in {401, 409, 502})
    ensures
      var log := FinalLog(run);
      forall j :: i < j < |log| ==> log[j].id != log[i].id
    ensures
      var rows, e := run[|run| - 1].rows, FinalLog(run)[i];
      e.id in rows ==> Holds(rows, e.id, 1, e.tok)
  {
    var s := run[|run| - 1];
    var id := s.log[i].id;
    RunInv(run, acts, |run| - 1);
    PhaseNext(s.log, id, i);
    LostForever(s.log, id, i + 1, |s.log|);
    assert s.log[..|s.log|] == s.log;
    assert RowFits(s.rows, id, PhaseOf(s.log, id));
  }

  /** Once a later mutation was dispatched, replaying the token of an earlier one changes nothing. */
  lemma ReplayedTokenIsInert(run: seq<State>, acts: seq<Action>, i: nat, j: nat)
    requires IsRun(run, acts) && i < j < |FinalLog(run)|
    requires FinalLog(run)[i].Dispatched? && FinalLog(run)[j].Dispatched?
    requires FinalLog(run)[i].id == FinalLog(run)[j].id
    ensures
      var rows, e := run[|run| - 1].rows, FinalLog(run)[i];
      Acknowledge(rows, e.id, e.tok) == rows
  {
    var s := run[|run| - 1];
    var id, tok := s.log[i].id, s.log[i].tok;
    RunInv(run, acts, |run| - 1);
    if Holds(s.rows, id, 2, tok) {
      assert RowFits(s.rows, id, PhaseOf(s.log, id));
      var n := Outstanding(s.log, id);
      assert false;
    }
  }

  /** Any other reply opens the way to the next mutation: resolved and acknowledged under its own token, the row is
      free again. */
  lemma AnsweredMutationIsFreed(s: State, rid: nat, status: int) returns (s1: State, s2: State, s3: State)
    requires Inv(s) && rid in s.reqs && s.reqs[rid].pc.Sent? && s.reqs[rid].id in s.rows && s.reqs[rid].pc.tok != ""
    requires status !in {401, 409, 502}
    ensures Enabled(s, Reply(rid, status)) && s1 == Step(s, Reply(rid, status))
    ensures Enabled(s1, Resolve(rid, Reported)) && s2 == Step(s1, Resolve(rid, Reported))
    ensures
      var id, tok := s.reqs[rid].id, s.reqs[rid].pc.tok;
      && Holds(s2.rows, id, 2, tok) && Enabled(s2, Ack(id, tok, Reported))
      && s3 == Step(s2, Ack(id, tok, Reported)) && Free(s3.rows, id)
  {
    assert RequestFits(s, s.reqs[rid]);
    s1 := Step(s, Reply(rid, status));
    s2 := Step(s1, Resolve(rid, Reported));
    s3 := Step(s2, Ack(s.reqs[rid].id, s.reqs[rid].pc.tok, Reported));
  }

  /** The latch is not merely shut: a free session can always dispatch its next mutation. */
  lemma FreeSessionDispatches(s: State, id: string, rid: nat, tok: string)
    returns (s1: State, s2: State, s3: State)
    requires Free(s.rows, id) && rid !in s.reqs && tok != "" && tok !in s.usedTokens
    ensures Enabled(s, Arrive(rid, id)) && s1 == Step(s, Arrive(rid, id))
    ensures Enabled(s1, Mint(rid, tok)) && s2 == Step(s1, Mint(rid, tok))
    ensures Enabled(s2, TryClaim(rid, Reported)) && s3 == Step(s2, TryClaim(rid, Reported))
    ensures Enabled(s3, Send(rid)) && Step(s3, Send(rid)).log == s.log + [Dispatched(id, tok)]
  {
    s1 := Step(s, Arrive(rid, id));
    s2 := Step(s1, Mint(rid, tok));
    s3 := Step(s2, TryClaim(rid, Reported));
  }
}
