/** The session store and the fleet-mutation part of the proxy handler as they run:
    one request at a time, with the database and the KB answering as the environment likes. */
module SessionStore {
  import opened Basics
  import opened SessionTable
  import V = CredentialVault
  import F = FleetLatch

  /** What `get` hands to a handler. */
  datatype Session = Session(id: string, csrf: string, iss: string, sub: string, breakGlass: bool, oidcExpires: Option<int>)

  class Store {
    var rows: Table
    const vault: V.Vault

    ghost predicate Valid()
      reads this, vault, vault.issued
    {
      vault.Valid()
    }

    constructor (vault: V.Vault)
      requires vault.Valid()
      ensures Valid() && rows == map[] && this.vault == vault
    {
      this.vault := vault;
      rows := map[];
    }

    /** `id` and `csrf` are the two random draws. */
    method Create(id: string, csrf: string, iss: string, sub: string, expires: Option<int>, breakGlass: bool, now: int, o: SqlOutcome)
      returns (ok: bool)
      modifies this
      ensures ok <==> id !in old(rows) && o.Reported?
      // the new session is unlatched, belongs to the principal, and outlives neither its credential nor the absolute limit
      ensures ok ==>
                && Free(rows, id) && rows[id].iss == iss && rows[id].sub == sub && rows[id].csrf == csrf
                && (!breakGlass && expires.Some? ==> rows[id].expires <= Unix(expires.value) == rows[id].oidcExpires)
                && rows[id].breakGlass == breakGlass && rows[id].created == rows[id].lastSeen == Unix(now)
                && rows[id].expires <= Unix(now) + 28800
                && (breakGlass ==> rows[id].expires == Unix(now) + 300)
                && (!breakGlass && (expires.None? || Unix(now) + 28800 <= Unix(expires.value)) ==> rows[id].expires == Unix(now) + 28800)
                && (!breakGlass && expires.Some? && Unix(expires.value) <= Unix(now) + 28800 ==> rows[id].expires == Unix(expires.value))
      // `get` accepts it at once, unless its credential has run out already
      ensures ok && (breakGlass || expires.None? || Unix(now) < Unix(expires.value)) ==> !Stale(rows[id], Unix(now))
      ensures rows - {id} == old(rows) - {id} && (id in old(rows) ==> rows == old(rows))
      ensures rows == if id !in old(rows) && !o.Refused?
                      then old(rows)[id := InsertedRow(csrf, iss, sub, expires, breakGlass, now)] else old(rows)
    {
      var lifetime := SESSION_ABSOLUTE_SECONDS;
      if breakGlass {
        lifetime := BREAK_GLASS_SECONDS;
      }
      var until := now + lifetime * NANOS_PER_SECOND;
      if !breakGlass && expires.Some? && expires.value < until {
        until := expires.value;
      }
      var oidcExpires := 0;
      if expires.Some? {
        oidcExpires := Unix(expires.value);
      }
      if id in rows || o.Refused? {
        return false;
      }
      rows := rows[id := Row(csrf, iss, sub, breakGlass, Unix(now), Unix(now), Unix(until), oidcExpires, 0, "")];
      return o.Reported?;
    }

    method Get(id: string, now: int, o: SqlOutcome) returns (r: Option<Session>)
      requires Valid()
      modifies this, vault`entries, vault.issued
      ensures Valid() && vault.issued == old(vault.issued)
      // before its absolute expiry and at most half an hour after it was last seen
      ensures r.Some? <==>
                id != "" && id in old(rows) && Unix(now) < old(rows)[id].expires && Unix(now) - old(rows)[id].lastSeen <= 1800
      // an accepted session is seen now
      ensures r.Some? && !o.Refused? ==> rows == old(rows)[id := old(rows)[id].(lastSeen := Unix(now))]
      ensures r.Some? ==>
                var row := old(rows)[id];
                r.value == Session(id, row.csrf, row.iss, row.sub, row.breakGlass,
                                   if row.oidcExpires > 0 then Some(row.oidcExpires * 1_000_000_000) else None)
      ensures rows ==
              if r.Some? then After(old(rows), Touch(old(rows), id, Unix(now)), o)
              else if id != "" && id in old(rows) then After(old(rows), Delete(old(rows), id), o)
              else old(rows)
      ensures vault.View() ==
              if id != "" && id in old(rows) && r.None? then old(vault.View()) - {id} else old(vault.View())
    {
      if id == "" || id !in rows {
        return None;
      }
      var row := rows[id];
      if Stale(row, Unix(now)) {
        Del(id, o);
        return None;
      }
      rows := After(rows, Touch(rows, id, Unix(now)), o);
      assert vault.View() == old(vault.View());
      return Some(Session(id, row.csrf, row.iss, row.sub, row.breakGlass,
                          if row.oidcExpires > 0 then Some(row.oidcExpires * NANOS_PER_SECOND) else None));
    }

    method ClaimFleetMutation(id: string, tok: string, o: SqlOutcome) returns (claimed: bool, err: bool)
      modifies this
      // a won claim found the row free and now holds it under this token
      ensures claimed ==> !err && Free(old(rows), id) && Holds(rows, id, 1, tok)
      // a lost one found it taken or gone and changed nothing
      ensures !claimed && !err ==> !Free(old(rows), id) && rows == old(rows)
      // after an error the caller cannot tell, but no token other than its own can have got in
      ensures err ==> rows == old(rows) || (Free(old(rows), id) && Holds(rows, id, 1, tok))
      ensures OnlyLatchMoved(old(rows), rows, id)
      ensures rows == After(old(rows), Claim(old(rows), id, tok), o) && err == !o.Reported?
    {
      var updated, n := rows, 0;
      if id in rows && rows[id].latch == 0 {
        updated, n := rows[id := rows[id].(latch := 1, ackToken := tok)], 1;
      }
      if o.Refused? {
        return false, true;
      }
      rows := updated;
      if o.Unreported? {
        return false, true;
      }
      return n == 1, false;
    }

    method TransitionFleetMutation(id: string, tok: string, from: int, to: int, o: SqlOutcome) returns (err: bool)
      modifies this
      // success: the caller held the row in `from`; now it is in `to`, the token dropped with the latch
      ensures !err ==> Holds(old(rows), id, from, tok) && Holds(rows, id, to, if to == 0 then "" else tok)
      // without the token, or from another latch value, nothing moves and the caller is told
      ensures !Holds(old(rows), id, from, tok) ==> err && rows == old(rows)
      ensures OnlyLatchMoved(old(rows), rows, id)
      ensures rows == After(old(rows), Transition(old(rows), id, tok, from, to), o)
      ensures err == !(o.Reported? && Holds(old(rows), id, from, tok))
    {
      var updated, n := rows, 0;
      if id in rows && rows[id].latch == from && rows[id].ackToken == tok {
        updated, n := rows[id := rows[id].(latch := to, ackToken := if to == 0 then "" else rows[id].ackToken)], 1;
      }
      if o.Refused? {
        return true;
      }
      rows := updated;
      return o.Unreported? || n != 1;
    }

    method AcknowledgeFleetMutation(id: string, tok: string, o: SqlOutcome) returns (acked: bool, err: bool)
      modifies this
      // an acknowledgement counts only for an answered mutation under its own token, and frees the row
      ensures acked ==> !err && Holds(old(rows), id, 2, tok) && Holds(rows, id, 0, "") && Free(rows, id)
      // any other token, and a row in flight or free, is left alone
      ensures !Holds(old(rows), id, 2, tok) ==> !acked && rows == old(rows)
      ensures OnlyLatchMoved(old(rows), rows, id)
      ensures rows == After(old(rows), Acknowledge(old(rows), id, tok), o)
      ensures err == !o.Reported? && acked == (!err && Holds(old(rows), id, 2, tok))
    {
      var updated, n := rows, 0;
      if id in rows && rows[id].latch == 2 && rows[id].ackToken == tok {
        updated, n := rows[id := rows[id].(latch := 0, ackToken := "")], 1;
      }
      if o.Refused? {
        return false, true;
      }
      rows := updated;
      if o.Unreported? {
        return false, true;
      }
      return n == 1, false;
    }

    method Del(id: string, o: SqlOutcome)
      requires Valid()
      modifies this, vault`entries, vault.issued
      ensures Valid() && vault.issued == old(vault.issued)
      ensures rows == if o.Refused? then old(rows) else old(rows) - {id}
      ensures vault.View() == if id == "" then old(vault.View()) else old(vault.View()) - {id}
    {
      rows := After(rows, SessionTable.Delete(rows, id), o);
      assert vault.View() == old(vault.View());
      vault.Del(id);
    }

    method InvalidateSub(iss: string, sub: string, o: SqlOutcome)
      requires Valid()
      modifies this, vault`entries, vault.issued
      ensures Valid() && vault.issued == old(vault.issued)
      ensures o.Refused? ==> rows == old(rows)
      // exactly the principal's rows and entries go
      ensures !o.Refused? ==>
                forall k :: (k in rows <==> k in old(rows) && (old(rows)[k].iss, old(rows)[k].sub) != (iss, sub))
                            && (k in rows ==> rows[k] == old(rows)[k])
      ensures forall k :: (k in vault.View() <==> k in old(vault.View()) && (old(vault.View())[k].iss, old(vault.View())[k].sub) != (iss, sub))
                          && (k in vault.View() ==> vault.View()[k] == old(vault.View())[k])
    {
      rows := After(rows, DeletePrincipal(rows, iss, sub), o);
      assert vault.View() == old(vault.View());
      vault.DelPrincipal(iss, sub);
    }
  }

  /** What the KB does with a dispatched request. */
  datatype KbReply = Unreachable | Unreadable | Oversized | Answer(status: int)

  /** The environment's choices along one pass through the handler. */
  datatype Choices = Choices(
    claim: SqlOutcome, built: bool, kb: KbReply, shift: SqlOutcome, del: SqlOutcome)

  datatype Response = Response(status: int, ack: Option<string>, dispatched: bool)

  predicate Conclusive(kb: KbReply) {
    kb.Answer? && F.Conclusive(kb.status)
  }

  /** `transitionFleetMutationOrDelete` on the table: the compare-and-set, then the delete if it did not report one row. */
  function ShiftedOrDeleted(t: Table, id: string, tok: string, from: int, to: int, c: Choices): (Table, bool) {
    var moved := After(t, Transition(t, id, tok, from, to), c.shift);
    if c.shift.Reported? && Holds(t, id, from, tok) then (moved, true)
    else (After(moved, Delete(moved, id), c.del), false)
  }

  /** Table and response after `proxyAPI`, from the claim on, for a fleet POST with token `tok`. */
  function Proxied(t: Table, id: string, tok: string, c: Choices): (Table, Response) {
    var claimed := After(t, Claim(t, id, tok), c.claim);
    if !c.claim.Reported? then (After(claimed, Delete(claimed, id), c.del), Response(503, None, false))
    else if !Free(t, id) then (t, Response(409, None, false))
    else if !c.built then (ShiftedOrDeleted(claimed, id, tok, 1, 0, c).0, Response(502, None, false))
    else if !c.kb.Answer? then (claimed, Response(502, None, true))
    else if c.kb.status == 401 then (After(claimed, Delete(claimed, id), c.del), Response(401, None, true))
    else if !Conclusive(c.kb) then (claimed, Response(c.kb.status, None, true))
    else
      var (t', ok) := ShiftedOrDeleted(claimed, id, tok, 1, 2, c);
      (t', if ok then Response(c.kb.status, Some(tok), true) else Response(503, None, true))
  }

  method ShiftOrDelete(store: Store, id: string, tok: string, from: int, to: int, c: Choices) returns (ok: bool)
    requires store.Valid()
    modifies store, store.vault`entries, store.vault.issued
    ensures store.Valid()
    ensures (store.rows, ok) == ShiftedOrDeleted(old(store.rows), id, tok, from, to, c)
  {
    var err := store.TransitionFleetMutation(id, tok, from, to, c.shift);
    if err {
      store.Del(id, c.del);
    }
    ok := !err;
  }

  method ProxyFleetMutation(store: Store, id: string, tok: string, c: Choices) returns (resp: Response)
    requires store.Valid()
    modifies store, store.vault`entries, store.vault.issued
    ensures store.Valid()
    ensures (store.rows, resp) == Proxied(old(store.rows), id, tok, c)
  {
    var claimed, err := store.ClaimFleetMutation(id, tok, c.claim);
    if err {
      store.Del(id, c.del);
      return Response(503, None, false);
    }
    if !claimed {
      return Response(409, None, false);
    }
    if !c.built {
      var ok := ShiftOrDelete(store, id, tok, 1, 0, c);
      return Response(502, None, false);
    }
    if !c.kb.Answer? {
      return Response(502, None, true);
    }
    var keepFleetLatch := c.kb.status == 409 || c.kb.status == 502;
    if c.kb.status == 401 {
      store.Del(id, c.del);
    }
    if !keepFleetLatch && c.kb.status != 401 {
      var ok := ShiftOrDelete(store, id, tok, 1, 2, c);
      return if ok then Response(c.kb.status, Some(tok), true) else Response(503, None, true);
    }
    return Response(c.kb.status, None, true);
  }

  /** What the browser and the KB may conclude from one pass of the handler. */
  lemma ProxiedIsHonest(t: Table, id: string, tok: string, c: Choices)
    ensures
      var (t', resp) := Proxied(t, id, tok, c);
      // a POST leaves for the KB only under a claim this request won
      && (resp.dispatched <==> c.claim.Reported? && Free(t, id) && c.built)
      // the browser learns the token exactly when the row waits for it
      && (resp.ack.Some? <==> resp.dispatched && Conclusive(c.kb) && c.shift.Reported?)
      && (resp.ack.Some? ==> resp.ack.value == tok && Holds(t', id, 2, tok) && resp.status == c.kb.status)
      // an inconclusive dispatch never frees the row
      && (resp.dispatched && !Conclusive(c.kb) ==> id !in t' || Holds(t', id, 1, tok))
      // a request that was never sent leaves the row as free or as taken as it found it, or removes it
      && (!resp.dispatched && c.claim.Reported? && c.shift.Reported? && id in t ==> id in t' && t'[id].latch == t[id].latch)
      // no other session is touched
      && t' - {id} == t - {id}
  {
  }

  /** The answer of every branch. Only 401, 409 and 502 withhold the token of an answered mutation: 409 and 502 keep
      the latch, 401 deletes the session. */
  lemma ProxiedAnswers(t: Table, id: string, tok: string, c: Choices)
    ensures !c.claim.Reported? ==>
              Proxied(t, id, tok, c).1 == Response(503, None, false) && (!c.del.Refused? ==> id !in Proxied(t, id, tok, c).0)
    ensures c.claim.Reported? && !Free(t, id) ==> Proxied(t, id, tok, c) == (t, Response(409, None, false))
    ensures
      c.claim.Reported? && Free(t, id) ==>
        var (t', resp) := Proxied(t, id, tok, c);
        && (!c.built ==> resp == Response(502, None, false) && (c.shift.Reported? ==> Free(t', id)))
        && (c.built && !c.kb.Answer? ==> resp == Response(502, None, true) && Holds(t', id, 1, tok))
        && (c.built && (c.kb == Answer(409) || c.kb == Answer(502)) ==>
              resp == Response(c.kb.status, None, true) && Holds(t', id, 1, tok))
        && (c.built && c.kb == Answer(401) ==> resp == Response(401, None, true) && (!c.del.Refused? ==> id !in t'))
        && (c.built && c.kb.Answer? && c.kb.status !in {401, 409, 502} && c.shift.Reported? ==>
              resp == Response(c.kb.status, Some(tok), true) && Holds(t', id, 2, tok))
        && (c.built && c.kb.Answer? && c.kb.status !in {401, 409, 502} && !c.shift.Reported? ==>
              resp == Response(503, None, true) && (!c.del.Refused? ==> id !in t'))
  {
  }

  // ---- The handler is a path of the transition system ----

  function AnswerActions(rid: nat, c: Choices): seq<F.Action> {
    if !c.kb.Answer? then [F.ReplyLost(rid)]
    else if c.kb.status == 401 || (Conclusive(c.kb) && !c.shift.Reported?)
    then [F.Reply(rid, c.kb.status)] + ([F.Resolve(rid, c.shift)] + ([F.Drop(rid, c.del)] + []))
    else [F.Reply(rid, c.kb.status)] + ([F.Resolve(rid, c.shift)] + [])
  }

  function OwnerActions(rid: nat, c: Choices): seq<F.Action> {
    if c.built then [F.Send(rid)] + AnswerActions(rid, c)
    else if c.shift.Reported? then [F.BuildFails(rid, c.shift)] + []
    else [F.BuildFails(rid, c.shift)] + ([F.Drop(rid, c.del)] + [])
  }

  function ClaimActions(t: Table, rid: nat, id: string, c: Choices): seq<F.Action> {
    if !c.claim.Reported? then [F.Drop(rid, c.del)] + []
    else if Free(t, id) then OwnerActions(rid, c)
    else []
  }

  /** The actions of `FleetLatch` that one undisturbed pass of the handler performs. */
  function Performed(t: Table, rid: nat, id: string, tok: string, c: Choices): seq<F.Action> {
    [F.Arrive(rid, id)] + ([F.Mint(rid, tok)] + ([F.TryClaim(rid, c.claim)] + ClaimActions(t, rid, id, c)))
  }

  function Observed(id: string, tok: string, c: Choices, dispatched: bool): seq<F.Event> {
    if !dispatched then []
    else if c.kb.Answer? then [F.Dispatched(id, tok), F.Completed(id, tok, c.kb.status)]
    else [F.Dispatched(id, tok), F.Indeterminate(id, tok)]
  }

  lemma DropPath(s: F.State, rid: nat, o: SqlOutcome) returns (s': F.State)
    requires rid in s.reqs && s.reqs[rid].pc.Dropping?
    ensures F.Leads(s, [F.Drop(rid, o)] + [], s')
    ensures s'.rows == After(s.rows, Delete(s.rows, s.reqs[rid].id), o)
    ensures s'.reqs == s.reqs - {rid} && s'.log == s.log
  {
    s' := F.Step(s, F.Drop(rid, o));
    F.LeadsCons(s, F.Drop(rid, o), [], s');
  }

  lemma ResolvePath(s: F.State, rid: nat, c: Choices) returns (s': F.State)
    requires rid in s.reqs && c.kb.Answer? && s.reqs[rid].pc.Received? && s.reqs[rid].pc.status == c.kb.status
    requires Holds(s.rows, s.reqs[rid].id, 1, s.reqs[rid].pc.tok)
    ensures F.Leads(s, AnswerActions(rid, c)[1..], s')
    ensures
      var id, tok := s.reqs[rid].id, s.reqs[rid].pc.tok;
      s'.rows == if c.kb.status == 401 then After(s.rows, Delete(s.rows, id), c.del)
                 else if !Conclusive(c.kb) then s.rows
                 else ShiftedOrDeleted(s.rows, id, tok, 1, 2, c).0
    ensures s'.reqs == s.reqs - {rid} && s'.log == s.log
  {
    var a := F.Resolve(rid, c.shift);
    var s1 := F.Step(s, a);
    if c.kb.status == 401 || (Conclusive(c.kb) && !c.shift.Reported?) {
      s' := DropPath(s1, rid, c.del);
      F.LeadsCons(s, a, [F.Drop(rid, c.del)] + [], s');
      assert AnswerActions(rid, c)[1..] == [a] + ([F.Drop(rid, c.del)] + []);
    } else {
      s' := s1;
      F.LeadsCons(s, a, [], s');
      assert AnswerActions(rid, c)[1..] == [a] + [];
    }
  }

  lemma AnswerPath(s: F.State, rid: nat, c: Choices) returns (s': F.State)
    requires rid in s.reqs && s.reqs[rid].pc.Sent? && Holds(s.rows, s.reqs[rid].id, 1, s.reqs[rid].pc.tok)
    ensures F.Leads(s, AnswerActions(rid, c), s')
    ensures
      var id, tok := s.reqs[rid].id, s.reqs[rid].pc.tok;
      && s'.rows == (if !c.kb.Answer? then s.rows
                     else if c.kb.status == 401 then After(s.rows, Delete(s.rows, id), c.del)
                     else if !Conclusive(c.kb) then s.rows
                     else ShiftedOrDeleted(s.rows, id, tok, 1, 2, c).0)
      && s'.log == s.log + Observed(id, tok, c, true)[1..]
    ensures s'.reqs == s.reqs - {rid}
  {
    if c.kb.Answer? {
      var a := F.Reply(rid, c.kb.status);
      var s1 := F.Step(s, a);
      s' := ResolvePath(s1, rid, c);
      F.LeadsCons(s, a, AnswerActions(rid, c)[1..], s');
      assert AnswerActions(rid, c) == [a] + AnswerActions(rid, c)[1..];
    } else {
      s' := F.Step(s, F.ReplyLost(rid));
      F.LeadsCons(s, F.ReplyLost(rid), [], s');
      assert AnswerActions(rid, c) == [F.ReplyLost(rid)] + [];
    }
  }

  lemma OwnerPath(s: F.State, rid: nat, c: Choices) returns (s': F.State)
    requires rid in s.reqs && s.reqs[rid].pc.Owner? && Holds(s.rows, s.reqs[rid].id, 1, s.reqs[rid].pc.tok)
    ensures F.Leads(s, OwnerActions(rid, c), s')
    ensures
      var id, tok := s.reqs[rid].id, s.reqs[rid].pc.tok;
      && s'.rows == (if !c.built then ShiftedOrDeleted(s.rows, id, tok, 1, 0, c).0
                     else if !c.kb.Answer? then s.rows
                     else if c.kb.status == 401 then After(s.rows, Delete(s.rows, id), c.del)
                     else if !Conclusive(c.kb) then s.rows
                     else ShiftedOrDeleted(s.rows, id, tok, 1, 2, c).0)
      && s'.log == s.log + Observed(id, tok, c, c.built)
    ensures s'.reqs == s.reqs - {rid}
  {
    if c.built {
      var s1 := F.Step(s, F.Send(rid));
      s' := AnswerPath(s1, rid, c);
      F.LeadsCons(s, F.Send(rid), AnswerActions(rid, c), s');
    } else {
      var a := F.BuildFails(rid, c.shift);
      var s1 := F.Step(s, a);
      if c.shift.Reported? {
        s' := s1;
        F.LeadsCons(s, a, [], s');
      } else {
        s' := DropPath(s1, rid, c.del);
        F.LeadsCons(s, a, [F.Drop(rid, c.del)] + [], s');
      }
    }
  }

  lemma ClaimPath(s: F.State, rid: nat, c: Choices) returns (s': F.State)
    requires rid in s.reqs && s.reqs[rid].pc.Minted?
    ensures
      var id, tok := s.reqs[rid].id, s.reqs[rid].pc.tok;
      var (t, resp) := Proxied(s.rows, id, tok, c);
      && F.Leads(s, [F.TryClaim(rid, c.claim)] + ClaimActions(s.rows, rid, id, c), s')
      && s'.rows == t && s'.log == s.log + Observed(id, tok, c, resp.dispatched)
    ensures s'.reqs == s.reqs - {rid}
  {
    var a, id := F.TryClaim(rid, c.claim), s.reqs[rid].id;
    var s1 := F.Step(s, a);
    if !c.claim.Reported? {
      s' := DropPath(s1, rid, c.del);
    } else if Free(s.rows, id) {
      s' := OwnerPath(s1, rid, c);
    } else {
      s' := s1;
    }
    F.LeadsCons(s, a, ClaimActions(s.rows, rid, id, c), s');
  }

  /** One undisturbed pass of the handler is a path of the transition system: same table, same
      observable events, and no request left behind. */
  lemma HandlerIsAPath(s: F.State, rid: nat, id: string, tok: string, c: Choices) returns (s': F.State)
    requires rid !in s.reqs && tok != "" && tok !in s.usedTokens
    ensures F.Leads(s, Performed(s.rows, rid, id, tok, c), s')
    ensures
      var (t, resp) := Proxied(s.rows, id, tok, c);
      s'.rows == t && s'.log == s.log + Observed(id, tok, c, resp.dispatched) && s'.reqs == s.reqs
  {
    var s1 := F.Step(s, F.Arrive(rid, id));
    var s2 := F.Step(s1, F.Mint(rid, tok));
    s' := ClaimPath(s2, rid, c);
    var rest := [F.TryClaim(rid, c.claim)] + ClaimActions(s.rows, rid, id, c);
    F.LeadsCons(s1, F.Mint(rid, tok), rest, s');
    F.LeadsCons(s, F.Arrive(rid, id), [F.Mint(rid, tok)] + rest, s');
  }
}
