/** Replacing or retiring the generated bootstrap login: a compensating transaction over system
    accounts, sessions and a marker file, with a failure possible at every call. */
module AccountReplacement {
  import opened Basics
  import opened Text

  /** A managed account: created without a password, with one, or locked. */
  datatype Account = Passwordless | Usable | Locked

  datatype BootstrapUser = BootstrapUser(generated: bool, username: string)

  /** Everything a step boundary (or a restart there) shows. `credentials` is the name in a well-formed
      bootstrap-credentials file, `registered` the generated name in the login registry. */
  datatype State = State(
    accounts: map<string, Account>, sessions: map<string, string>, marker: Option<string>,
    credentials: Option<string>, registered: Option<string>, bootstrapUser: Option<BootstrapUser>)

  /** The calls that can fail; a failed call has no effect. */
  datatype Call =
    | CheckMarker | UserAdd | SetPassword | UndoUserAdd | CreateSession | ReadMarker | WriteMarker
    | DropBootstrapSessions | LockBootstrap | RestoreMarker | RemoveCredentials | DropSession | DeleteUser

  datatype Request = Request(username: string, password: string, confirmation: string, retire: bool)

  const MIN_PASSWORD := 6
  const DEFAULT_ADMIN: string := "admin"

  /** The account named by the marker: blank content names nobody. */
  function Named(marker: Option<string>): Option<string> {
    if marker.Some? && TrimSpace(marker.value) != "" then Some(TrimSpace(marker.value)) else None
  }

  function Pending(s: State): Option<string> {
    if s.credentials.Some? then s.credentials
    else if s.registered.Some? then s.registered
    else if s.bootstrapUser.Some? && s.bootstrapUser.value.generated then Some(s.bootstrapUser.value.username)
    else None
  }

  /** adminUsername: the marker's account, else the pending login, else the recorded one, else the default. */
  function Admin(s: State): string {
    if Named(s.marker).Some? then Named(s.marker).value
    else if Pending(s).Some? then Pending(s).value
    else if s.bootstrapUser.Some? && s.bootstrapUser.value.username != "" then s.bootstrapUser.value.username
    else DEFAULT_ADMIN
  }

  predicate Works(s: State, name: string) {
    name in s.accounts && s.accounts[name].Usable?
  }

  ghost predicate MarkerSound(s: State) {
    Named(s.marker).Some? ==> Named(s.marker).value in s.accounts
  }

  ghost predicate SomeoneCanLogIn(s: State) {
    exists name :: Works(s, name)
  }

  /** What every step boundary owes: the marker names an existing account, someone can log in and,
      if `strict`, the administrator is one of those who can. */
  ghost predicate Good(s: State, strict: bool) {
    MarkerSound(s) && SomeoneCanLogIn(s) && (strict ==> Works(s, Admin(s)))
  }

  function Without(sessions: map<string, string>, user: string): map<string, string> {
    map token <- sessions | sessions[token] != user :: sessions[token]
  }

  /** Account names are what ValidateUsername lets through: in particular not blank, no outer white space. */
  predicate IsName(name: string) {
    name != "" && Clean(name)
  }

  predicate Acceptable(r: Request, bootstrap: string, validName: string -> bool) {
    && validName(TrimSpace(r.username)) && TrimSpace(r.username) != bootstrap
    && |r.password| >= MIN_PASSWORD && (forall b <- r.password :: b != '\0' && b != '\n' && b != '\r')
    && r.password == r.confirmation
  }

  /** Requests that must change nothing. */
  predicate Declined(s: State, sameOrigin: bool, caller: string, body: Option<Request>, validName: string -> bool, fails: Call -> bool) {
    || !sameOrigin || Pending(s).None? || body.None?
    || (Named(s.marker).Some? && !fails(CheckMarker))
    || (caller != Pending(s).value && (caller == "" || caller !in s.accounts || !body.value.retire))
    || (caller == Pending(s).value
        && (!Acceptable(body.value, caller, validName) || TrimSpace(body.value.username) in s.accounts))
  }

  function NewAdmin(s: State, caller: string, body: Request): string {
    if Pending(s) == Some(caller) then TrimSpace(body.username) else caller
  }

  /** A marker written for `name` is read as naming `name`. */
  predicate ReadsBack(name: string) {
    Named(Some(name + "\n")) == Some(name)
  }

  /** Who is pending: the name in the plaintext file, else in the registry, else the recorded user if it was generated. */
  lemma PendingPrecedence(s: State)
    ensures s.credentials.Some? ==> Pending(s) == s.credentials
    ensures s.credentials.None? && s.registered.Some? ==> Pending(s) == s.registered
    ensures s.credentials.None? && s.registered.None? && s.bootstrapUser.Some? && s.bootstrapUser.value.generated ==>
              Pending(s) == Some(s.bootstrapUser.value.username)
    ensures s.credentials.None? && s.registered.None? && (s.bootstrapUser.None? || !s.bootstrapUser.value.generated) ==> Pending(s) == None
  {
  }

  /** Who administers: a marker that is not blank beats everything, then the pending login, then the recorded user,
      and only an appliance without any of them falls back to the literal name. */
  lemma AdminPrecedence(s: State)
    ensures s.marker.Some? && TrimSpace(s.marker.value) != "" ==> Admin(s) == TrimSpace(s.marker.value)
    ensures s.marker.None? || TrimSpace(s.marker.value) == "" ==>
              && (Pending(s).Some? ==> Admin(s) == Pending(s).value)
              && (Pending(s).None? && s.bootstrapUser.Some? && s.bootstrapUser.value.username != "" ==> Admin(s) == s.bootstrapUser.value.username)
              && (Pending(s).None? && (s.bootstrapUser.None? || s.bootstrapUser.value.username == "") ==> Admin(s) == "admin")
  {
  }

  lemma WrittenMarkerNames(name: string)
    requires IsName(name)
    ensures ReadsBack(name)
  {
    TrimDropsLineEnd(name);
  }

  lemma TrimmedNameReadsBack(raw: string)
    requires TrimSpace(raw) != ""
    ensures ReadsBack(TrimSpace(raw))
  {
    TrimIsClean(raw);
    WrittenMarkerNames(TrimSpace(raw));
  }

  /** Exactly the user's sessions go. */
  lemma WithoutDropsOneUser(sessions: map<string, string>, user: string, t: string)
    ensures t in Without(sessions, user) <==> t in sessions && sessions[t] != user
    ensures t in Without(sessions, user) ==> Without(sessions, user)[t] == sessions[t]
  {
  }

  /** A request is carried out exactly when it comes from the same origin, with a body, while no marker is read as
      complete and a login is pending, and either comes from that login with a valid new name and a proper password
      given twice, or from another managed account that asks to retire it, and the calls it needs succeed. */
  lemma {:induction false} CarriedOutExactlyWhen(s: State, sameOrigin: bool, caller: string, body: Option<Request>,
                                                 validName: string -> bool, fails: Call -> bool)
    ensures
      (!Declined(s, sameOrigin, caller, body, validName, fails)
       && if Pending(s) == Some(caller) then Completes(fails) else Retires(fails, Pending(s).value in s.accounts))
      <==>
      && sameOrigin && body.Some? && Pending(s).Some?
      && (s.marker.None? || TrimSpace(s.marker.value) == "" || fails(CheckMarker))
      && !fails(ReadMarker) && !fails(WriteMarker) && !fails(DropBootstrapSessions)
      && if Pending(s) == Some(caller) then
           && validName(TrimSpace(body.value.username)) && TrimSpace(body.value.username) != caller
           && TrimSpace(body.value.username) !in s.accounts
           && |body.value.password| >= 6 && body.value.password == body.value.confirmation
           && '\0' !in body.value.password && '\n' !in body.value.password && '\r' !in body.value.password
           && !fails(UserAdd) && !fails(SetPassword) && !fails(CreateSession) && !fails(LockBootstrap)
         else
           && caller != "" && caller in s.accounts && body.value.retire
           && (Pending(s).value in s.accounts ==> !fails(LockBootstrap))
  {
  }

  /** And a marker is stranded exactly when everything up to it succeeds, one of the two calls behind it fails, and
      then the marker cannot be restored but the account can be deleted. */
  lemma StrandsExactlyWhen(fails: Call -> bool)
    ensures Strands(fails) <==>
            && !fails(UserAdd) && !fails(SetPassword) && !fails(CreateSession) && !fails(ReadMarker) && !fails(WriteMarker)
            && (fails(DropBootstrapSessions) || fails(LockBootstrap)) && fails(RestoreMarker) && !fails(DeleteUser)
  {
  }

  lemma NewAccountKeepsGood(s: State, name: string, account: Account)
    requires name !in s.accounts && MarkerSound(s) && SomeoneCanLogIn(s)
    ensures Good(s.(accounts := s.accounts[name := account]), Works(s, Admin(s)))
  {
    var login :| Works(s, login);
    assert Works(s.(accounts := s.accounts[name := account]), login);
  }

  /** With the marker naming a working account, the rest does not matter. */
  lemma NamedAccountIsGood(s: State, name: string, strict: bool)
    requires Named(s.marker) == Some(name) && Works(s, name)
    ensures Good(s, strict)
  {
  }

  /** Sessions do not matter. */
  lemma GoodIgnoresSessions(s: State, sessions: map<string, string>, name: string)
    requires MarkerSound(s) && Works(s, name)
    ensures Good(s.(sessions := sessions), Works(s, Admin(s)))
  {
    assert Works(s.(sessions := sessions), name);
  }

  lemma GoodIgnoresDroppedSession(s: State, sessions: map<string, string>, strict: bool)
    requires Good(s, strict)
    ensures Good(s.(sessions := sessions), strict)
  {
    var login :| Works(s, login);
    assert Works(s.(sessions := sessions), login);
  }

  lemma NewSessionIsSeparate(sessions: map<string, string>, token: string, name: string, bootstrap: string)
    requires token !in sessions && name != bootstrap
    ensures sessions[token := name] - {token} == sessions
    ensures Without(sessions[token := name], bootstrap) == Without(sessions, bootstrap)[token := name]
    ensures Without(sessions, bootstrap)[token := name] - {token} == Without(sessions, bootstrap)
  {
  }

  /** After the new account is deleted again, all depends on whether the marker still names it. */
  lemma UndoneAccountIsGood(s: State, s': State, name: string, bootstrap: string)
    requires MarkerSound(s) && Works(s, bootstrap) && name !in s.accounts
    requires s'.accounts == s.accounts && s'.credentials == s.credentials
    requires s'.registered == s.registered && s'.bootstrapUser == s.bootstrapUser
    ensures SomeoneCanLogIn(s')
    ensures s'.marker == s.marker ==> Good(s', Works(s, Admin(s)))
    ensures Named(s'.marker) == Some(name) ==> !MarkerSound(s') && Admin(s') == name
  {
    assert Works(s', bootstrap);
  }

  predicate Completes(fails: Call -> bool) {
    && !fails(UserAdd) && !fails(SetPassword) && !fails(CreateSession) && !fails(ReadMarker) && !fails(WriteMarker)
    && !fails(DropBootstrapSessions) && !fails(LockBootstrap)
  }

  /** The same for retiring a login that may or may not be managed. */
  predicate Retires(fails: Call -> bool, managed: bool) {
    !fails(ReadMarker) && !fails(WriteMarker) && !fails(DropBootstrapSessions) && (managed ==> !fails(LockBootstrap))
  }

  /** The marker has been written for a fresh account and a later call failed. */
  predicate CommitFails(fails: Call -> bool) {
    !fails(ReadMarker) && !fails(WriteMarker) && (fails(DropBootstrapSessions) || fails(LockBootstrap))
  }

  /** The one way to a marker that names a deleted account: the commit fails half way, the marker cannot
      be restored, and the new account is deleted all the same. */
  predicate Strands(fails: Call -> bool) {
    && !fails(UserAdd) && !fails(SetPassword) && !fails(CreateSession)
    && CommitFails(fails) && fails(RestoreMarker) && !fails(DeleteUser)
  }

  class Appliance {
    var accounts: map<string, Account>
    var sessions: map<string, string>
    var marker: Option<string>
    var credentials: Option<string>
    const registered: Option<string>
    const bootstrapUser: Option<BootstrapUser>
    /** The state at every step boundary so far. */
    ghost var trace: seq<State>

    constructor (s: State)
      ensures Valid() && Now() == s && trace == [s]
    {
      accounts, sessions, marker, credentials := s.accounts, s.sessions, s.marker, s.credentials;
      registered, bootstrapUser := s.registered, s.bootstrapUser;
      trace := [s];
    }

    ghost predicate Valid()
      reads this
    {
      trace != [] && trace[|trace| - 1] == Now()
    }

    ghost function Now(): State
      reads this
    {
      State(accounts, sessions, marker, credentials, registered, bootstrapUser)
    }

    /** Every boundary recorded since position `from` is good. */
    ghost predicate GoodSince(from: nat, strict: bool)
      reads this
    {
      from <= |trace| && forall i :: from <= i < |trace| ==> Good(trace[i], strict)
    }

    /** Good until the last boundary, where the marker names an account that is gone. */
    ghost predicate StrandedFrom(from: nat, name: string, strict: bool)
      reads this
    {
      && from < |trace| && (forall i :: from <= i < |trace| - 1 ==> Good(trace[i], strict))
      && SomeoneCanLogIn(Now()) && !MarkerSound(Now()) && Admin(Now()) == name && name !in accounts
    }

    /** Moves to the next step boundary. */
    method Advance(accounts': map<string, Account>, sessions': map<string, string>, marker': Option<string>,
                   ghost from: nat, ghost strict: bool)
      requires GoodSince(from, strict)
      requires Good(State(accounts', sessions', marker', credentials, registered, bootstrapUser), strict)
      modifies this`accounts, this`sessions, this`marker, this`trace
      ensures accounts == accounts' && sessions == sessions' && marker == marker'
      ensures trace == old(trace) + [Now()] && GoodSince(from, strict)
    {
      accounts, sessions, marker := accounts', sessions', marker';
      trace := trace + [Now()];
    }

    /** createManagedSystemUser: add, set the password, and delete again if that fails. */
    method CreateManagedUser(name: string, fails: Call -> bool, ghost from: nat) returns (ok: bool)
      requires Valid() && name !in accounts
      requires MarkerSound(Now()) && SomeoneCanLogIn(Now()) && GoodSince(from, Works(Now(), Admin(Now())))
      modifies this
      ensures Valid() && old(trace) <= trace && GoodSince(from, old(Works(Now(), Admin(Now()))))
      ensures sessions == old(sessions) && marker == old(marker) && credentials == old(credentials)
      ensures ok <==> !fails(UserAdd) && !fails(SetPassword)
      ensures accounts == if ok then old(accounts)[name := Usable]
                          else if fails(UserAdd) || !fails(UndoUserAdd) then old(accounts)
                          else old(accounts)[name := Passwordless]
    {
      ghost var s, strict := Now(), Works(Now(), Admin(Now()));
      if fails(UserAdd) {
        return false;
      }
      NewAccountKeepsGood(s, name, Passwordless);
      Advance(accounts[name := Passwordless], sessions, marker, from, strict);
      ok := !fails(SetPassword);
      if ok {
        assert accounts[name := Usable] == s.accounts[name := Usable];
        NewAccountKeepsGood(s, name, Usable);
        Advance(accounts[name := Usable], sessions, marker, from, strict);
      } else if !fails(UndoUserAdd) {
        assert accounts - {name} == s.accounts;
        Advance(accounts - {name}, sessions, marker, from, strict);
      }
    }

    /** Once the marker names `name`: lock the bootstrap login, if it is managed, and remove its plaintext. */
    method CloseBootstrap(name: string, bootstrap: string, fails: Call -> bool, ghost from: nat, ghost strict: bool)
      requires Valid() && name != bootstrap && Works(Now(), name) && Named(marker) == Some(name) && GoodSince(from, strict)
      modifies this`accounts, this`credentials, this`sessions, this`marker, this`trace
      ensures Valid() && old(trace) <= trace && GoodSince(from, strict)
      ensures sessions == old(sessions) && marker == old(marker)
      ensures accounts == if bootstrap in old(accounts) then old(accounts)[bootstrap := Locked] else old(accounts)
      ensures credentials == if fails(RemoveCredentials) then old(credentials) else None
    {
      if bootstrap in accounts {
        NamedAccountIsGood(Now().(accounts := accounts[bootstrap := Locked]), name, strict);
        Advance(accounts[bootstrap := Locked], sessions, marker, from, strict);
      }
      if !fails(RemoveCredentials) {
        NamedAccountIsGood(Now().(credentials := None), name, strict);
        credentials := None;
        Advance(accounts, sessions, marker, from, strict);
      }
    }

    /** The part both flows share: write the marker for `name`, drop the bootstrap sessions, close the
        bootstrap login; restore the marker when dropping or locking fails. */
    method CommitMarker(name: string, bootstrap: string, fails: Call -> bool, ghost from: nat, ghost strict: bool)
      returns (ok: bool)
      requires Valid() && ReadsBack(name) && name != bootstrap && Works(Now(), name) && MarkerSound(Now())
      requires GoodSince(from, strict) && (strict ==> Works(Now(), Admin(Now())))
      modifies this
      ensures Valid() && old(trace) <= trace && GoodSince(from, strict)
      ensures ok <==> !fails(ReadMarker) && !fails(WriteMarker) && !fails(DropBootstrapSessions)
                      && (bootstrap !in old(accounts) || !fails(LockBootstrap))
      ensures accounts == if ok && bootstrap in old(accounts) then old(accounts)[bootstrap := Locked] else old(accounts)
      ensures ok ==> sessions == Without(old(sessions), bootstrap)
      ensures !ok ==> sessions == if fails(ReadMarker) || fails(WriteMarker) || fails(DropBootstrapSessions) then old(sessions)
                                  else Without(old(sessions), bootstrap)
      ensures marker == if ok || (!fails(ReadMarker) && !fails(WriteMarker) && fails(RestoreMarker)) then Some(name + "\n")
                        else old(marker)
      ensures credentials == if ok && !fails(RemoveCredentials) then None else old(credentials)
    {
      ghost var s := Now();
      if fails(ReadMarker) || fails(WriteMarker) {
        return false;
      }
      var original, next := marker, Some(name + "\n");
      NamedAccountIsGood(s.(marker := next), name, strict);
      Advance(accounts, sessions, next, from, strict);
      ok := !fails(DropBootstrapSessions);
      if ok {
        NamedAccountIsGood(Now().(sessions := Without(sessions, bootstrap)), name, strict);
        Advance(accounts, Without(sessions, bootstrap), marker, from, strict);
        ok := bootstrap !in accounts || !fails(LockBootstrap);
      }
      if ok {
        CloseBootstrap(name, bootstrap, fails, from, strict);
      } else if !fails(RestoreMarker) {
        GoodIgnoresSessions(s, sessions, name);
        Advance(accounts, sessions, original, from, strict);
      }
    }

    /** Session and marker for a freshly created account; the deferred clean-up of the session. */
    method ReplaceWithUser(name: string, bootstrap: string, token: string, fails: Call -> bool, ghost from: nat, ghost strict: bool)
      returns (ok: bool)
      requires Valid() && ReadsBack(name) && name != bootstrap && Works(Now(), name)
      requires bootstrap in accounts && MarkerSound(Now())
      requires GoodSince(from, strict) && (strict ==> Works(Now(), Admin(Now())))
      requires token !in sessions
      modifies this
      ensures Valid() && old(trace) <= trace && GoodSince(from, strict)
      ensures ok <==> !fails(CreateSession) && !fails(ReadMarker) && !fails(WriteMarker)
                      && !fails(DropBootstrapSessions) && !fails(LockBootstrap)
      ensures accounts == if ok then old(accounts)[bootstrap := Locked] else old(accounts)
      ensures marker == if ok || (!fails(CreateSession) && CommitFails(fails) && fails(RestoreMarker)) then Some(name + "\n")
                        else old(marker)
      ensures ok ==> sessions == Without(old(sessions), bootstrap)[token := name]
      ensures !ok && !fails(DropSession) ==> sessions == old(sessions) || sessions == Without(old(sessions), bootstrap)
      ensures credentials == if ok && !fails(RemoveCredentials) then None else old(credentials)
    {
      ghost var s := Now();
      if fails(CreateSession) {
        return false;
      }
      GoodIgnoresSessions(s, sessions[token := name], name);
      Advance(accounts, sessions[token := name], marker, from, strict);
      ok := CommitMarker(name, bootstrap, fails, from, strict);
      NewSessionIsSeparate(s.sessions, token, name, bootstrap);
      if !ok && !fails(DropSession) {
        assert Good(trace[|trace| - 1], strict);
        GoodIgnoresDroppedSession(Now(), sessions - {token}, strict);
        Advance(accounts, sessions - {token}, marker, from, strict);
      }
    }

    method DeleteAccount(name: string, bootstrap: string, ghost s: State, ghost from: nat)
      requires Valid() && MarkerSound(s) && Works(s, bootstrap) && name !in s.accounts
      requires accounts - {name} == s.accounts && credentials == s.credentials
      requires registered == s.registered && bootstrapUser == s.bootstrapUser
      requires marker == s.marker || Named(marker) == Some(name)
      requires GoodSince(from, Works(s, Admin(s)))
      modifies this`accounts, this`trace
      ensures Valid() && old(trace) <= trace && accounts == s.accounts
      ensures marker == s.marker ==> GoodSince(from, Works(s, Admin(s)))
      ensures Named(marker) == Some(name) ==> StrandedFrom(from, name, Works(s, Admin(s)))
    {
      UndoneAccountIsGood(s, Now().(accounts := s.accounts), name, bootstrap);
      accounts := accounts - {name};
      trace := trace + [Now()];
    }

    /** The replacement after its checks, with the deferred clean-up of the account. */
    method ReplaceBootstrap(name: string, bootstrap: string, token: string, fails: Call -> bool) returns (status: nat)
      requires Valid() && ReadsBack(name) && name !in accounts && token !in sessions
      requires Works(Now(), bootstrap) && MarkerSound(Now())
      modifies this
      ensures Valid() && old(trace) <= trace && status in {200, 400, 500}
      ensures status == 200 <==> Completes(fails)
      ensures status == 400 <==> fails(UserAdd) || fails(SetPassword)
      // every boundary is good, except that a stranded run ends badly
      ensures !Strands(fails) ==> GoodSince(|old(trace)|, old(Works(Now(), Admin(Now()))))
      ensures Strands(fails) ==> StrandedFrom(|old(trace)|, name, old(Works(Now(), Admin(Now()))))
      // success: the new account replaces the old one everywhere
      ensures status == 200 ==> accounts == old(accounts)[name := Usable][bootstrap := Locked]
      ensures status == 200 ==> sessions == Without(old(sessions), bootstrap)[token := name] && Named(marker) == Some(name)
      ensures status == 200 ==> credentials == if fails(RemoveCredentials) then old(credentials) else None
      // failure with working clean-up: nothing but bootstrap sessions may be gone
      ensures status != 200 && !fails(UndoUserAdd) && !fails(RestoreMarker) && !fails(DropSession) && !fails(DeleteUser) ==>
                && accounts == old(accounts) && marker == old(marker) && credentials == old(credentials)
                && (sessions == old(sessions) || sessions == Without(old(sessions), bootstrap))
    {
      ghost var s, from, strict := Now(), |trace|, Works(Now(), Admin(Now()));
      var created := CreateManagedUser(name, fails, from);
      if !created {
        return 400;
      }
      ghost var s1 := Now();
      assert strict ==> Works(s1, Admin(s1));
      var ok := ReplaceWithUser(name, bootstrap, token, fails, from, strict);
      if ok {
        return 200;
      }
      if !fails(DeleteUser) {
        DeleteAccount(name, bootstrap, s, from);
      }
      return 500;
    }

    /** POST of the onboarding wizard. `validName` is ValidateUsername; a body that does not decode is None,
        and fields the body lacks are zero. */
    method HandleSetupAccount(sameOrigin: bool, caller: string, body: Option<Request>, validName: string -> bool,
                              token: string, fails: Call -> bool)
      returns (status: nat)
      requires Valid() && MarkerSound(Now()) && token !in sessions && !validName("")
      // an authenticated caller can log in
      requires caller in accounts || Pending(Now()) == Some(caller) ==> Works(Now(), caller) && ReadsBack(caller)
      modifies this
      ensures Valid() && old(trace) <= trace
      // every step boundary is good, unless an admitted replacement strands its marker
      ensures if !old(Declined(Now(), sameOrigin, caller, body, validName, fails)) && old(Pending(Now())) == Some(caller) && Strands(fails)
              then StrandedFrom(|old(trace)|, TrimSpace(body.value.username), old(Works(Now(), Admin(Now()))))
              else GoodSince(|old(trace)|, old(Works(Now(), Admin(Now()))))
      // every refusal comes before the first change
      ensures old(Declined(Now(), sameOrigin, caller, body, validName, fails)) ==>
                status in {400, 403, 409} && Now() == old(Now()) && trace == old(trace)
      // which refusal: another origin, a replacement made or nothing to replace, a stranger, ...
      ensures !sameOrigin ==> status == 403
      ensures sameOrigin && (old(Pending(Now())).None? || (old(Named(marker)).Some? && !fails(CheckMarker))) ==> status == 409
      ensures sameOrigin && old(Pending(Now())).Some? && (old(Named(marker)).None? || fails(CheckMarker)) && old(Pending(Now())) != Some(caller) ==>
                && (caller == "" || caller !in old(accounts) ==> status == 403)
                && (caller != "" && caller in old(accounts) && body.None? ==> status == 400)
                && (caller != "" && caller in old(accounts) && body.Some? && !body.value.retire ==> status == 403)
      // ... or, of the pending login itself, a bad request or a name that is taken
      ensures sameOrigin && (old(Named(marker)).None? || fails(CheckMarker)) && old(Pending(Now())) == Some(caller) ==>
                && (body.None? || !Acceptable(body.value, caller, validName) ==> status == 400)
                && (body.Some? && Acceptable(body.value, caller, validName) && TrimSpace(body.value.username) in old(accounts) ==> status == 409)
      // an admitted request is carried out exactly when the calls it needs succeed
      ensures !old(Declined(Now(), sameOrigin, caller, body, validName, fails)) ==>
                (status == 200 <==> if old(Pending(Now())) == Some(caller) then Completes(fails)
                                    else Retires(fails, old(Pending(Now()).value in accounts)))
                && status in {200, 400, 500}
                && (status == 400 <==> old(Pending(Now())) == Some(caller) && (fails(UserAdd) || fails(SetPassword)))
      // a failure whose compensations work takes back everything but the bootstrap sessions
      ensures status != 200 && !fails(UndoUserAdd) && !fails(RestoreMarker) && !fails(DropSession) && !fails(DeleteUser) ==>
                && accounts == old(accounts) && marker == old(marker) && credentials == old(credentials)
                && (sessions == old(sessions)
                    || (old(Pending(Now())).Some? && sessions == Without(old(sessions), old(Pending(Now()).value))))
      // success: the marker names a working administrator, the bootstrap login is closed and without sessions
      ensures status == 200 ==>
                && !old(Declined(Now(), sameOrigin, caller, body, validName, fails))
                && Named(marker) == Some(NewAdmin(old(Now()), caller, body.value))
                && Works(Now(), Admin(Now())) && !Works(Now(), old(Pending(Now()).value))
                && forall t <- sessions :: sessions[t] != old(Pending(Now()).value)
      // and nothing else changes but the new account, its session and the plaintext
      ensures status == 200 && old(Pending(Now())) == Some(caller) ==>
                var name := TrimSpace(body.value.username);
                && accounts == old(accounts)[name := Usable][caller := Locked]
                && sessions == Without(old(sessions), caller)[token := name]
      ensures status == 200 && old(Pending(Now())) != Some(caller) ==>
                var bootstrap := old(Pending(Now()).value);
                && accounts == (if bootstrap in old(accounts) then old(accounts)[bootstrap := Locked] else old(accounts))
                && sessions == Without(old(sessions), bootstrap)
      ensures status == 200 ==> credentials == if fails(RemoveCredentials) then old(credentials) else None
    {
      ghost var s := Now();
      var pending := Pending(State(accounts, sessions, marker, credentials, registered, bootstrapUser));
      if !sameOrigin {
        return 403;
      }
      if (!fails(CheckMarker) && Named(marker).Some?) || pending.None? {
        return 409;
      }
      var bootstrap := pending.value;
      if caller != bootstrap {
        if caller == "" || caller !in accounts {
          return 403;
        }
        if body.None? {
          return 400;
        }
        if !body.value.retire {
          return 403;
        }
        var ok := CommitMarker(caller, bootstrap, fails, |trace|, Works(s, Admin(s)));
        return if ok then 200 else 500;
      }
      if body.None? {
        return 400;
      }
      var name := TrimSpace(body.value.username);
      if !Acceptable(body.value, bootstrap, validName) {
        return 400;
      }
      if name in accounts {
        return 409;
      }
      TrimmedNameReadsBack(body.value.username);
      status := ReplaceBootstrap(name, bootstrap, token, fails);
    }
  }

  predicate Visible(name: string) {
    name != "" && forall i :: 0 <= i < |name| ==> '!' <= name[i] <= '~'
  }

  lemma {:induction false} VisibleReadsBack(name: string)
    requires Visible(name)
    ensures ReadsBack(name) && TrimSpace(name) == name
  {
    VisibleIsClean(name);
    TrimDropsLineEnd(name);
  }

  predicate NotEmpty(name: string) {
    name != ""
  }

  predicate LockAndRestoreFail(call: Call) {
    call.LockBootstrap? || call.RestoreMarker?
  }

  function FreshAppliance(login: string): State {
    State(map[login := Usable], map[], None, Some(login), None, None)
  }

  lemma {:induction false} OrdinaryRequestIsAdmitted(login: string, name: string, password: string)
    requires Visible(name) && name != login && |password| >= MIN_PASSWORD && Visible(password)
    ensures !Declined(FreshAppliance(login), true, login, Some(Request(name, password, password, false)), NotEmpty, LockAndRestoreFail)
  {
    VisibleReadsBack(name);
    assert forall b <- password :: '!' <= b <= '~';
  }

  /** Such runs exist, for every ordinary pair of names: locking fails, and so does restoring the marker. The
      marker then names an account that is gone, and with it the administrator. */
  method StrandedRun(login: string, name: string, password: string, token: string) returns (a: Appliance, status: nat)
    requires Visible(login) && Visible(name) && name != login && |password| >= MIN_PASSWORD && Visible(password)
    ensures !MarkerSound(a.Now()) && Admin(a.Now()) == name && name !in a.accounts
  {
    VisibleReadsBack(login);
    VisibleReadsBack(name);
    OrdinaryRequestIsAdmitted(login, name, password);
    a := new Appliance(FreshAppliance(login));
    ghost var s := a.Now();
    assert Pending(s) == Some(login) && Strands(LockAndRestoreFail);
    status := a.HandleSetupAccount(true, login, Some(Request(name, password, password, false)), NotEmpty, token, LockAndRestoreFail);
    assert a.StrandedFrom(1, name, true);
  }
}
