/** Session rows and vault entries side by side: every half-step of login, logout, expiry,
    principal invalidation and vault reads, interleaved, within one process life. Each statement may be
    refused, or take effect although its caller sees an error. */
module SessionCredential {
  import opened Basics
  import opened SessionTable
  import opened CredentialVault

  /** A login between its INSERT and its answer. */
  datatype Pending = Pending(iss: string, sub: string, expires: int)

  datatype State = State(
    rows: Table, vault: Contents, max: nat, clock: nat,
    logins: map<string, Pending>,          // created, credential not yet retained
    answered: set<string>,                 // ids whose login was answered
    usedIds: set<string>,                  // ids ever drawn or presented
    deleted: set<string>,                  // ids whose DELETE has been run, with or without effect
    sweeping: multiset<(string, string)>)  // invalidations between their two halves

  datatype Action =
    | Tick(now: nat)
    | Create(id: string, csrf: string, iss: string, sub: string, expires: int, o: SqlOutcome)
    | CreateBreakGlass(id: string, csrf: string, o: SqlOutcome)
    | Retain(id: string, raw: Bytes, checked: int)
    | DeleteRow(id: string, o: SqlOutcome) // logout, expiry, compensation, lost credential
    | DeleteEntry(id: string)              // the vault half of the same
    | InvalidateRows(iss: string, sub: string, o: SqlOutcome)
    | InvalidateEntries(iss: string, sub: string)
    | Refresh(id: string, seen: int)       // last_seen update of `get`, with the clock reading it began with
    | ReadVault

  ghost predicate Init(s: State) {
    && s.rows == map[] && s.vault == map[] && s.logins == map[] && s.answered == {} && s.deleted == {}
    && s.sweeping == multiset{}
  }

  ghost predicate Enabled(s: State, a: Action) {
    match a
    case Tick(now) => s.clock <= now
    case Create(id, _, _, _, _, _) => id !in s.usedIds
    case CreateBreakGlass(id, _, _) => id !in s.usedIds
    case Retain(id, _, checked) => id in s.logins && checked <= s.clock
    case DeleteEntry(id) => id in s.deleted
    case InvalidateEntries(iss, sub) => (iss, sub) in s.sweeping
    case Refresh(_, seen) => seen <= s.clock
    case _ => true
  }

  ghost function Step(s: State, a: Action): State
    requires Enabled(s, a)
  {
    match a
    case Tick(now) => s.(clock := now)
    case Create(id, csrf, iss, sub, expires, o) =>
      var inserted := s.rows[id := InsertedRow(csrf, iss, sub, Some(expires), false, s.clock)];
      s.(rows := After(s.rows, inserted, o), usedIds := s.usedIds + {id},
         logins := if o.Reported? then s.logins[id := Pending(iss, sub, expires)] else s.logins)
    case CreateBreakGlass(id, csrf, o) =>
      var inserted := s.rows[id := InsertedRow(csrf, "break-glass", "break-glass", None, true, s.clock)];
      s.(rows := After(s.rows, inserted, o), usedIds := s.usedIds + {id},
         answered := if o.Reported? then s.answered + {id} else s.answered)
    case Retain(id, raw, checked) =>
      var p := s.logins[id];
      var put := Op.Put(id, Held(raw, p.iss, p.sub, p.expires), checked, s.clock);
      s.(vault := Apply(s.vault, s.max, put), logins := s.logins - {id},
         answered := if Stores(s.vault, s.max, put, id) then s.answered + {id} else s.answered)
    case DeleteRow(id, o) =>
      s.(rows := After(s.rows, SessionTable.Delete(s.rows, id), o), usedIds := s.usedIds + {id}, deleted := s.deleted + {id})
    case DeleteEntry(id) => s.(vault := Apply(s.vault, s.max, Op.Del(id)))
    case InvalidateRows(iss, sub, o) =>
      s.(rows := After(s.rows, DeletePrincipal(s.rows, iss, sub), o), sweeping := s.sweeping + multiset{(iss, sub)})
    case InvalidateEntries(iss, sub) =>
      s.(vault := WithoutPrincipal(s.vault, iss, sub), sweeping := s.sweeping - multiset{(iss, sub)})
    case Refresh(id, seen) => s.(rows := Touch(s.rows, id, Unix(seen)))
    case ReadVault => s.(vault := Live(s.vault, s.clock))
  }

  /** `get` would hand this row to a handler now. */
  predicate Admitted(s: State, id: string) {
    id in s.rows && !Stale(s.rows[id], Unix(s.clock))
  }

  predicate Matches(c: Contents, id: string, r: Row) {
    id in c && c[id].iss == r.iss && c[id].sub == r.sub && Unix(c[id].expires) == r.oidcExpires
  }

  /** The promise: an accepted, answered OIDC session has its credential, unexpired. */
  ghost predicate Aligned(s: State) {
    forall id :: id in s.answered && Admitted(s, id) && !s.rows[id].breakGlass ==>
      Matches(s.vault, id, s.rows[id]) && s.clock < s.vault[id].expires
  }

  // ---- Invariant ----

  /** A row that has not run out at second `now`. */
  predicate Unexpired(r: Row, now: int) {
    now < r.expires
  }

  ghost predicate RowCovered(s: State, id: string) {
    id in s.rows && !s.rows[id].breakGlass ==>
      var r := s.rows[id];
      && r.expires <= r.oidcExpires
      && (id in s.logins ==>
            s.logins[id].iss == r.iss && s.logins[id].sub == r.sub && Unix(s.logins[id].expires) == r.oidcExpires)
      && (id in s.answered && Unexpired(r, Unix(s.clock)) ==> Matches(s.vault, id, r))
  }

  ghost predicate Inv(s: State) {
    && s.rows.Keys <= s.usedIds && s.deleted <= s.usedIds && s.logins.Keys <= s.usedIds && s.answered <= s.usedIds
    && (forall id :: RowCovered(s, id))
  }

  /** An answered session whose row has not run out, accepted at this moment or not. */
  predicate Standing(s: State, id: string) {
    id in s.answered && id in s.rows && !s.rows[id].breakGlass && Unexpired(s.rows[id], Unix(s.clock))
  }

  /** One of this principal. */
  predicate Exposed(s: State, iss: string, sub: string, id: string) {
    Standing(s, id) && s.rows[id].iss == iss && s.rows[id].sub == sub
  }

  /** The vault half of an invalidation or of a deletion that meets such a session. */
  ghost predicate Hits(s: State, a: Action) {
    || (a.InvalidateEntries? && exists id :: Exposed(s, a.iss, a.sub, id))
    || (a.DeleteEntry? && a.id != "" && Standing(s, a.id))
  }

  /** The overlap `invalidateSub` does not exclude: a login of the very principal being
      invalidated, started between the row half and the vault half. */
  ghost predicate Overlaps(s: State, a: Action) {
    || (a.Create? && (a.iss, a.sub) in s.sweeping)
    || (a.CreateBreakGlass? && ("break-glass", "break-glass") in s.sweeping)
  }

  /** A DELETE without effect, whose error the code ignores. */
  predicate Refuses(a: Action) {
    (a.DeleteRow? || a.InvalidateRows?) && a.o.Refused?
  }

  /** What successful deletes and no overlap keep: no row is deleted yet, and none belongs to a principal that is
      being invalidated. */
  ghost predicate Apart(s: State) {
    && s.rows.Keys !! s.deleted && s.rows.Keys + s.deleted <= s.usedIds
    && forall id <- s.rows :: (s.rows[id].iss, s.rows[id].sub) !in s.sweeping
  }

  lemma UnixMonotone(a: int, b: int)
    requires a <= b
    ensures Unix(a) <= Unix(b)
  {}

  lemma LiveKeepsUnexpired(c: Contents, id: string, r: Row, now: int)
    requires Matches(c, id, r) && r.expires <= r.oidcExpires && Unexpired(r, Unix(now))
    ensures Matches(Live(c, now), id, r)
  {}

  lemma InvAligned(s: State)
    requires Inv(s)
    ensures Aligned(s)
  {
    forall id | id in s.answered && Admitted(s, id) && !s.rows[id].breakGlass
      ensures Matches(s.vault, id, s.rows[id]) && s.clock < s.vault[id].expires
    {
      assert RowCovered(s, id);
      LiveKeepsUnexpired(s.vault, id, s.rows[id], s.clock);
    }
  }

  /** So an accepted session gets its own bytes from the vault, with the expiry `get` hands out for its row. */
  lemma AlignedSessionHasItsToken(s: State, id: string)
    requires Inv(s) && id != "" && id in s.answered && Admitted(s, id) && !s.rows[id].breakGlass
    ensures s.rows[id].oidcExpires > 0 && id in s.vault
    ensures Lookup(s.vault, id, s.rows[id].iss, s.rows[id].sub, Some(s.rows[id].oidcExpires * 1_000_000_000), s.clock)
         == Some(s.vault[id].token)
  {
    InvAligned(s);
    assert RowCovered(s, id);
  }

  lemma RetainKeepsCover(s: State, a: Action, id: string)
    requires Inv(s) && Enabled(s, a) && a.Retain?
    ensures RowCovered(Step(s, a), id)
  {
    assert RowCovered(s, id);
    if id in s.rows && id in s.answered && Unexpired(s.rows[id], Unix(s.clock)) && !s.rows[id].breakGlass {
      LiveKeepsUnexpired(s.vault, id, s.rows[id], s.clock);
    }
  }

  lemma StepKeepsCover(s: State, a: Action, id: string)
    requires Inv(s) && Enabled(s, a) && !Hits(s, a) && !a.Retain?
    ensures RowCovered(Step(s, a), id)
  {
    assert RowCovered(s, id);
    match a
    case Tick(now) => UnixMonotone(s.clock, now);
    case Create(born, _, _, _, expires, _) =>
      if id == born {
        var absolute := s.clock + SESSION_ABSOLUTE_SECONDS * NANOS_PER_SECOND;
        UnixMonotone(Earlier(expires, absolute), expires);
      }
    case ReadVault =>
      if id in s.rows && id in s.answered && Unexpired(s.rows[id], Unix(s.clock)) && !s.rows[id].breakGlass {
        LiveKeepsUnexpired(s.vault, id, s.rows[id], s.clock);
      }
    case InvalidateEntries(iss, sub) => assert !Exposed(s, iss, sub, id);
    case DeleteEntry(gone) => assert gone == id && id != "" ==> !Standing(s, id);
    case _ =>
  }

  lemma StepKeepsInv(s: State, a: Action)
    requires Inv(s) && Enabled(s, a) && !Hits(s, a)
    ensures Inv(Step(s, a))
  {
    forall id ensures RowCovered(Step(s, a), id) {
      if a.Retain? {
        RetainKeepsCover(s, a, id);
      } else {
        StepKeepsCover(s, a, id);
      }
    }
  }

  ghost predicate IsRun(run: seq<State>, acts: seq<Action>) {
    && |run| == |acts| + 1 && Init(run[0])
    && (forall i {:trigger acts[i]} :: 0 <= i < |acts| ==> Enabled(run[i], acts[i]) && run[i + 1] == Step(run[i], acts[i]))
  }

  lemma {:induction false} RunInv(run: seq<State>, acts: seq<Action>, n: nat)
    requires IsRun(run, acts) && n < |run|
    requires forall i {:trigger acts[i]} :: 0 <= i < n ==> !Hits(run[i], acts[i])
    ensures Inv(run[n])
  {
    if n > 0 {
      RunInv(run, acts, n - 1);
      assert run[n] == Step(run[n - 1], acts[n - 1]);
      StepKeepsInv(run[n - 1], acts[n - 1]);
    }
  }

  /** In every run whose deletions and invalidations meet no answered, unexpired session of theirs at their vault
      half, a session `get` accepts never outlives its credential, whatever statements fail. */
  lemma SafeRunsAreAligned(run: seq<State>, acts: seq<Action>, n: nat)
    requires IsRun(run, acts) && n < |run|
    requires forall i {:trigger acts[i]} :: 0 <= i < n ==> !Hits(run[i], acts[i])
    ensures Aligned(run[n])
  {
    RunInv(run, acts, n);
    InvAligned(run[n]);
  }

  lemma {:induction false} ApartRun(run: seq<State>, acts: seq<Action>, n: nat)
    requires IsRun(run, acts) && n < |run|
    requires forall i {:trigger acts[i]} :: 0 <= i < n ==> !Overlaps(run[i], acts[i]) && !Refuses(acts[i])
    ensures Apart(run[n])
  {
    if n > 0 {
      ApartRun(run, acts, n - 1);
      assert run[n] == Step(run[n - 1], acts[n - 1]);
      ApartStep(run[n - 1], acts[n - 1]);
    }
  }

  lemma ApartStep(s: State, a: Action)
    requires Apart(s) && Enabled(s, a) && !Overlaps(s, a) && !Refuses(a)
    ensures Apart(Step(s, a))
  {
    DeletedStayGone(s, a);
    PrincipalsStayApart(s, a);
  }

  lemma DeletedStayGone(s: State, a: Action)
    requires s.rows.Keys !! s.deleted && s.rows.Keys + s.deleted <= s.usedIds && Enabled(s, a) && !Refuses(a)
    ensures
      var s' := Step(s, a);
      s'.rows.Keys !! s'.deleted && s'.rows.Keys + s'.deleted <= s'.usedIds
  {
  }

  lemma PrincipalsStayApart(s: State, a: Action)
    requires forall id <- s.rows :: (s.rows[id].iss, s.rows[id].sub) !in s.sweeping
    requires Enabled(s, a) && !Overlaps(s, a) && !Refuses(a)
    ensures
      var s' := Step(s, a);
      forall id <- s'.rows :: (s'.rows[id].iss, s'.rows[id].sub) !in s'.sweeping
  {
  }

  /** In particular where every DELETE takes effect and no login starts inside an invalidation of its own
      principal. */
  lemma SessionNeverOutlivesCredential(run: seq<State>, acts: seq<Action>, n: nat)
    requires IsRun(run, acts) && n < |run|
    requires forall i {:trigger acts[i]} :: 0 <= i < n ==> !Overlaps(run[i], acts[i]) && !Refuses(acts[i])
    ensures Aligned(run[n])
  {
    forall i {:trigger acts[i]} | 0 <= i < n ensures !Hits(run[i], acts[i]) {
      ApartRun(run, acts, i);
      assert Enabled(run[i], acts[i]);
    }
    SafeRunsAreAligned(run, acts, n);
  }

  /** An exposed session loses its credential for good: whatever the state, after the vault half one request
      of the browser is enough to have it accepted without one. */
  lemma ExposedSessionIsLost(s: State, iss: string, sub: string, id: string)
    requires (iss, sub) in s.sweeping && Exposed(s, iss, sub, id)
    ensures !Aligned(Step(Step(s, InvalidateEntries(iss, sub)), Refresh(id, s.clock)))
  {
    var s' := Step(Step(s, InvalidateEntries(iss, sub)), Refresh(id, s.clock));
    assert Admitted(s', id) && id in s'.answered && !Matches(s'.vault, id, s'.rows[id]);
  }

  /** So does one whose own DELETE had no effect before its vault half. */
  lemma StandingSessionIsLost(s: State, id: string)
    requires id in s.deleted && id != "" && Standing(s, id)
    ensures !Aligned(Step(Step(s, DeleteEntry(id)), Refresh(id, s.clock)))
  {
    var s' := Step(Step(s, DeleteEntry(id)), Refresh(id, s.clock));
    assert Admitted(s', id) && id in s'.answered && !Matches(s'.vault, id, s'.rows[id]);
  }

  /** A logout whose DELETE is refused does it, from every state: the session stays accepted, its credential is gone. */
  lemma RefusedLogoutLosesCredential(s: State, id: string) returns (s1: State, s2: State)
    requires id != "" && Standing(s, id)
    ensures s1 == Step(s, DeleteRow(id, Refused)) && Enabled(s1, DeleteEntry(id)) && s2 == Step(s1, DeleteEntry(id))
    ensures s2.rows == s.rows && id !in s2.vault && !Aligned(Step(s2, Refresh(id, s.clock)))
    ensures Admitted(s, id) ==> Admitted(s2, id) && !Aligned(s2)
  {
    s1 := Step(s, DeleteRow(id, Refused));
    s2 := Step(s1, DeleteEntry(id));
    StandingSessionIsLost(s1, id);
    assert Admitted(s, id) ==> Admitted(s2, id) && !Matches(s2.vault, id, s2.rows[id]);
  }

  /** The vault half of `del` and of `get`'s expiry is safe exactly when no standing session of that id is left. */
  lemma DeletionIsSafeExactlyWhen(s: State, id: string)
    requires Inv(s) && id in s.deleted && id != ""
    ensures !Standing(s, id) <==> forall k :: Aligned(Step(Step(s, DeleteEntry(id)), Refresh(k, s.clock)))
    ensures !Standing(s, id) ==> Inv(Step(s, DeleteEntry(id)))
  {
    var a := DeleteEntry(id);
    if !Standing(s, id) {
      StepKeepsInv(s, a);
      forall k ensures Aligned(Step(Step(s, a), Refresh(k, s.clock))) {
        StepKeepsInv(Step(s, a), Refresh(k, s.clock));
        InvAligned(Step(Step(s, a), Refresh(k, s.clock)));
      }
    } else {
      StandingSessionIsLost(s, id);
    }
  }

  /** The vault half of `invalidateSub` is safe exactly when it meets no exposed session: then no refresh,
      and by `SafeRunsAreAligned` no later step at all, breaks the promise. */
  lemma SweepIsSafeExactlyWhen(s: State, iss: string, sub: string)
    requires Inv(s) && (iss, sub) in s.sweeping
    ensures (forall id :: !Exposed(s, iss, sub, id)) <==>
            forall id :: Aligned(Step(Step(s, InvalidateEntries(iss, sub)), Refresh(id, s.clock)))
    ensures (forall id :: !Exposed(s, iss, sub, id)) ==> Inv(Step(s, InvalidateEntries(iss, sub)))
  {
    var a := InvalidateEntries(iss, sub);
    if forall id :: !Exposed(s, iss, sub, id) {
      StepKeepsInv(s, a);
      forall id ensures Aligned(Step(Step(s, a), Refresh(id, s.clock))) {
        StepKeepsInv(Step(s, a), Refresh(id, s.clock));
        InvAligned(Step(Step(s, a), Refresh(id, s.clock)));
      }
    } else {
      var id :| Exposed(s, iss, sub, id);
      ExposedSessionIsLost(s, iss, sub, id);
    }
  }

  /** The overlap is real: from any state inside an invalidation, a login of that principal that
      is admitted and answered before the vault half runs is left accepted without its credential. */
  lemma OverlapLosesCredential(s: State, id: string, csrf: string, iss: string, sub: string, expires: int, raw: Bytes)
    returns (s1: State, s2: State, s3: State)
    requires (iss, sub) in s.sweeping && id !in s.usedIds && id !in s.vault && Unix(s.clock) < Unix(expires)
    requires id != "" && iss != "" && sub != "" && raw != [] && |Live(s.vault, s.clock)| < s.max
    ensures s1 == Step(s, Create(id, csrf, iss, sub, expires, Reported)) && Overlaps(s, Create(id, csrf, iss, sub, expires, Reported))
    ensures Enabled(s1, Retain(id, raw, s.clock)) && s2 == Step(s1, Retain(id, raw, s.clock)) && id in s2.answered
    ensures Enabled(s2, InvalidateEntries(iss, sub)) && s3 == Step(s2, InvalidateEntries(iss, sub))
    ensures Admitted(s3, id) && id in s3.answered && id !in s3.vault && !Aligned(s3)
  {
    s1 := Step(s, Create(id, csrf, iss, sub, expires, Reported));
    s2 := Step(s1, Retain(id, raw, s.clock));
    s3 := Step(s2, InvalidateEntries(iss, sub));
    assert Unix(s.clock + SESSION_ABSOLUTE_SECONDS * NANOS_PER_SECOND) == Unix(s.clock) + SESSION_ABSOLUTE_SECONDS;
    assert Admitted(s3, id) && !s3.rows[id].breakGlass;
  }
}
