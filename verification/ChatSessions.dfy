/** Chat sessions and the once-only adoption of legacy rows: the tables as values, the statements on
    them, and what holds over every history of migrations, touches, upserts, alias transfers and deletes. */
module ChatSessions {
  import opened Basics

  datatype Session = Session(username: string, title: string, cwd: string, created: string, lastActive: string)
  datatype Runtime = Runtime(username: string, provider: string)
  datatype Entry = Entry(username: string, role: string, text: string)
  /** Messages stand in the order of their AUTOINCREMENT ids. */
  datatype Message = Message(session: string, entry: Entry)

  /** `applied` says whether version 1 is recorded in the schema-migrations table. */
  datatype Db = Db(sessions: map<string, Session>, runtime: map<string, Runtime>, messages: seq<Message>, applied: bool)

  datatype Op =
    | Migrate
    | Touch(user: string, id: string, title: string, cwd: string, now: string)
    | Upsert(user: string, id: string, title: string, cwd: string, now: string)
    | Transfer(user: string, target: string, alias: string, title: string, cwd: string, now: string)
    | Delete(sid: string)

  /** The archived messages of one session, oldest first. */
  function Archive(messages: seq<Message>, sid: string): seq<Entry> {
    if messages == [] then []
    else (if messages[0].session == sid then [messages[0].entry] else []) + Archive(messages[1..], sid)
  }

  function Filed(entries: seq<Entry>, sid: string): seq<Message> {
    seq(|entries|, i requires 0 <= i < |entries| => Message(sid, entries[i]))
  }

  function Others(messages: seq<Message>, sid: string): seq<Message> {
    if messages == [] then []
    else (if messages[0].session == sid then [] else [messages[0]]) + Others(messages[1..], sid)
  }

  /** The row ids that version 1 adopts: every session without a runtime row becomes its own provider. */
  function Adopted(db: Db): map<string, Runtime> {
    map id <- db.sessions.Keys + db.runtime.Keys ::
      if id in db.runtime then db.runtime[id] else Runtime(db.sessions[id].username, id)
  }

  /** ON CONFLICT of the send path keeps a title; that of the rename path replaces it. */
  function Saved(db: Db, user: string, id: string, title: string, cwd: string, now: string, rename: bool): map<string, Session> {
    if id !in db.sessions then db.sessions[id := Session(user, title, cwd, now, now)]
    else
      var row := db.sessions[id];
      db.sessions[id := row.(
        lastActive := now,
        cwd := if cwd != "" then cwd else row.cwd,
        title := if (if rename then title != "" else row.title == "") then title else row.title)]
  }

  /** The alias is a legacy row that is still its own provider. */
  predicate Available(db: Db, alias: string) {
    alias in db.sessions && alias in db.runtime && db.runtime[alias].provider == alias
  }

  predicate WellAddressed(op: Op) {
    match op
    case Touch(user, id, _, _, _) => user != "" && id != ""
    case Transfer(user, target, alias, _, _, _) => user != "" && target != "" && alias != "" && target != alias
    case Upsert(user, id, _, _, _) => user != "" && id != ""
    case Delete(sid) => sid != ""
    case Migrate => true
  }

  function Bound(db: Db, user: string, target: string, provider: string): map<string, Runtime> {
    if target !in db.runtime then db.runtime[target := Runtime(user, provider)]
    else if db.runtime[target].provider == "" then db.runtime[target := db.runtime[target].(provider := provider)]
    else db.runtime
  }

  function Apply(db: Db, op: Op): Db {
    if !WellAddressed(op) then db
    else
      match op
      case Migrate => if db.applied then db else db.(runtime := Adopted(db), applied := true)
      case Touch(user, id, title, cwd, now) => db.(sessions := Saved(db, user, id, title, cwd, now, false))
      case Upsert(user, id, title, cwd, now) => db.(sessions := Saved(db, user, id, title, cwd, now, true))
      case Transfer(user, target, alias, title, cwd, now) =>
        if !Available(db, alias) then db
        else db.(
             sessions := Saved(db, user, target, title, cwd, now, true),
             runtime := Bound(db, user, target, alias),
             messages := if Archive(db.messages, target) == [] then db.messages + Filed(Archive(db.messages, alias), target)
                         else db.messages)
      case Delete(sid) =>
        db.(sessions := db.sessions - {sid}, runtime := db.runtime - {sid}, messages := Others(db.messages, sid))
  }

  function Run(db: Db, ops: seq<Op>): Db
    decreases |ops|
  {
    if ops == [] then db else Run(Apply(db, ops[0]), ops[1..])
  }

  function Provider(db: Db, sid: string): string {
    if sid in db.runtime then db.runtime[sid].provider else ""
  }

  // ---- Provenance

  /** The session ids at the one step of the history that applies version 1. */
  function Snapshot(db: Db, ops: seq<Op>): set<string>
    decreases |ops|
  {
    if db.applied || ops == [] then {}
    else if ops[0].Migrate? then db.sessions.Keys
    else Snapshot(Apply(db, ops[0]), ops[1..])
  }

  ghost predicate ProvidersFrom(db: Db, known: set<string>) {
    forall sid <- db.runtime :: db.runtime[sid].provider != "" ==> db.runtime[sid].provider in known
  }

  lemma StepKeepsProviders(db: Db, op: Op, known: set<string>)
    requires ProvidersFrom(db, known) && (op.Migrate? ==> db.applied)
    ensures ProvidersFrom(Apply(db, op), known) && Apply(db, op).applied == db.applied
  {
  }

  lemma {:induction false} AppliedRunKeepsProviders(db: Db, ops: seq<Op>, known: set<string>)
    requires db.applied && ProvidersFrom(db, known)
    ensures Run(db, ops).applied && ProvidersFrom(Run(db, ops), known)
    decreases |ops|
  {
    if ops != [] {
      StepKeepsProviders(db, ops[0], known);
      AppliedRunKeepsProviders(Apply(db, ops[0]), ops[1..], known);
    }
  }

  /** Whatever happens, every provider id is a session id of the version-1 snapshot. */
  lemma {:induction false} ProvidersComeFromSnapshot(db: Db, ops: seq<Op>)
    requires !db.applied && ProvidersFrom(db, {})
    ensures ProvidersFrom(Run(db, ops), Snapshot(db, ops))
    decreases |ops|
  {
    if ops != [] {
      if ops[0].Migrate? {
        AppliedRunKeepsProviders(Apply(db, ops[0]), ops[1..], db.sessions.Keys);
      } else {
        StepKeepsProviders(db, ops[0], {});
        ProvidersComeFromSnapshot(Apply(db, ops[0]), ops[1..]);
      }
    }
  }

  /** There is only one snapshot: once version 1 is applied, no later history extends it. */
  lemma {:induction false} SnapshotIsTakenOnce(db: Db, ops: seq<Op>, more: seq<Op>)
    requires Run(db, ops).applied
    ensures Snapshot(db, ops + more) == Snapshot(db, ops)
    decreases |ops|
  {
    if ops != [] && !db.applied {
      assert (ops + more)[1..] == ops[1..] + more;
      if !ops[0].Migrate? {
        SnapshotIsTakenOnce(Apply(db, ops[0]), ops[1..], more);
      }
    }
  }

  /** The first migration makes every session without a runtime row its own provider, under its own username, keeps
      every other runtime row, and adds nothing else; a later one changes nothing. */
  lemma AdoptionIsComplete(db: Db)
    ensures
      var after := Apply(db, Migrate);
      && after.applied && after.sessions == db.sessions && after.messages == db.messages
      && (db.applied ==> after.runtime == db.runtime)
      && (!db.applied ==>
            && after.runtime.Keys == db.sessions.Keys + db.runtime.Keys
            && (forall id <- db.runtime :: after.runtime[id] == db.runtime[id])
            && (forall id <- db.sessions :: id !in db.runtime ==> after.runtime[id] == Runtime(db.sessions[id].username, id)))
  {
  }

  /** So every session of a fresh legacy store can be transferred. */
  lemma LegacySessionsBecomeAvailable(db: Db, id: string)
    requires !db.applied && db.runtime == map[] && id in db.sessions
    ensures Available(Apply(db, Migrate), id) && Provider(Apply(db, Migrate), id) == id
  {
  }

  /** What a transfer binds: an alias that is its own provider gives the target its id, unless the target has one; no
      other provider or session changes, and an alias that is not its own provider gives nothing. */
  lemma {:induction false} TransferBinds(db: Db, user: string, target: string, alias: string, title: string, cwd: string, now: string, other: string)
    requires user != "" && target != "" && alias != "" && target != alias && other != target
    ensures
      var after := Apply(db, Transfer(user, target, alias, title, cwd, now));
      if alias in db.sessions && alias in db.runtime && db.runtime[alias].provider == alias then
        && target in after.sessions
        && Provider(after, target) == (if Provider(db, target) == "" then alias else Provider(db, target))
        && Provider(after, other) == Provider(db, other)
        && (other in after.sessions <==> other in db.sessions)
        && (other in db.sessions ==> after.sessions[other] == db.sessions[other])
      else after == db
  {
  }

  /** What it copies: the alias's whole archive, unless the target has one; no other archive changes. */
  lemma {:induction false} TransferCopies(db: Db, user: string, target: string, alias: string, title: string, cwd: string, now: string, other: string)
    requires user != "" && target != "" && alias != "" && target != alias && other != target
    requires alias in db.sessions && alias in db.runtime && db.runtime[alias].provider == alias
    ensures
      var after := Apply(db, Transfer(user, target, alias, title, cwd, now));
      && Archive(after.messages, target) ==
         (if Archive(db.messages, target) == [] then Archive(db.messages, alias) else Archive(db.messages, target))
      && Archive(after.messages, other) == Archive(db.messages, other)
  {
    var copied := Archive(db.messages, alias);
    ArchiveAppend(db.messages, Filed(copied, target), target);
    ArchiveFiled(copied, target, target);
    ArchiveAppend(db.messages, Filed(copied, target), other);
    ArchiveFiled(copied, target, other);
  }

  /** The row each kind of write leaves: a new one as given; an old one with its owner and creation time, seen now, its
      directory replaced by any given one, and its title by a given one on the rename path, but only filled on the send path. */
  lemma SavedRows(db: Db, user: string, id: string, title: string, cwd: string, now: string, other: string)
    requires user != "" && id != "" && other != id
    ensures
      var touched, renamed := Apply(db, Touch(user, id, title, cwd, now)).sessions, Apply(db, Upsert(user, id, title, cwd, now)).sessions;
      && id in touched && id in renamed
      && (id !in db.sessions ==> touched[id] == renamed[id] == Session(user, title, cwd, now, now))
      && (id in db.sessions ==>
            var row := db.sessions[id];
            var dir := if cwd == "" then row.cwd else cwd;
            && touched[id] == Session(row.username, if row.title == "" then title else row.title, dir, row.created, now)
            && renamed[id] == Session(row.username, if title == "" then row.title else title, dir, row.created, now))
      && (other in touched <==> other in db.sessions) && (other in renamed <==> other in db.sessions)
      && (other in db.sessions ==> touched[other] == renamed[other] == db.sessions[other])
  {
  }

  /** A deletion takes the session's row, provider and archive, and nothing of any other session. */
  lemma DeletionIsExact(db: Db, sid: string, other: string)
    requires sid != "" && other != sid
    ensures
      var after := Apply(db, Delete(sid));
      && sid !in after.sessions && sid !in after.runtime && Archive(after.messages, sid) == []
      && (other in after.sessions <==> other in db.sessions) && (other in db.sessions ==> after.sessions[other] == db.sessions[other])
      && (other in after.runtime <==> other in db.runtime) && (other in db.runtime ==> after.runtime[other] == db.runtime[other])
      && Archive(after.messages, other) == Archive(db.messages, other)
  {
    ArchiveOthers(db.messages, sid, sid);
    ArchiveOthers(db.messages, sid, other);
  }

  // ---- Write-once fields

  lemma StepKeepsProvider(db: Db, op: Op, sid: string)
    requires Provider(db, sid) != "" && op != Delete(sid)
    ensures Provider(Apply(db, op), sid) == Provider(db, sid)
  {
  }

  /** A provider id, once there, changes only by deletion. */
  lemma {:induction false} ProviderIsWriteOnce(db: Db, ops: seq<Op>, sid: string)
    requires Provider(db, sid) != "" && Delete(sid) !in ops
    ensures Provider(Run(db, ops), sid) == Provider(db, sid)
    decreases |ops|
  {
    if ops != [] {
      StepKeepsProvider(db, ops[0], sid);
      ProviderIsWriteOnce(Apply(db, ops[0]), ops[1..], sid);
    }
  }

  /** So does the creation time; and a title survives every touch. */
  lemma {:induction false} SessionFieldsAreKept(db: Db, ops: seq<Op>, sid: string)
    requires sid in db.sessions && Delete(sid) !in ops
    ensures sid in Run(db, ops).sessions
    ensures Run(db, ops).sessions[sid].created == db.sessions[sid].created
    ensures Run(db, ops).sessions[sid].username == db.sessions[sid].username
    ensures db.sessions[sid].title != "" && (forall op <- ops :: op.Touch? || op.Migrate?) ==>
              Run(db, ops).sessions[sid].title == db.sessions[sid].title
    ensures db.sessions[sid].title != "" ==> Run(db, ops).sessions[sid].title != ""
    decreases |ops|
  {
    if ops != [] {
      var next := Apply(db, ops[0]);
      assert sid in next.sessions && next.sessions[sid].created == db.sessions[sid].created;
      assert db.sessions[sid].title != "" ==> next.sessions[sid].title != "";
      SessionFieldsAreKept(next, ops[1..], sid);
    }
  }

  // ---- Archives

  lemma {:induction false} ArchiveAppend(a: seq<Message>, b: seq<Message>, sid: string)
    ensures Archive(a + b, sid) == Archive(a, sid) + Archive(b, sid)
  {
    if a == [] {
      assert a + b == b && Archive(a, sid) + Archive(b, sid) == Archive(b, sid);
    } else {
      ArchiveAppend(a[1..], b, sid);
      assert (a + b)[0] == a[0] && (a + b)[1..] == a[1..] + b;
      var head := if a[0].session == sid then [a[0].entry] else [];
      assert Archive(a + b, sid) == head + Archive(a[1..] + b, sid);
      assert head + (Archive(a[1..], sid) + Archive(b, sid)) == (head + Archive(a[1..], sid)) + Archive(b, sid);
    }
  }

  lemma {:induction false} ArchiveFiled(entries: seq<Entry>, target: string, sid: string)
    ensures Archive(Filed(entries, target), sid) == if sid == target then entries else []
  {
    if entries != [] {
      assert Filed(entries, target)[1..] == Filed(entries[1..], target);
      ArchiveFiled(entries[1..], target, sid);
    }
  }

  lemma {:induction false} ArchiveOthers(messages: seq<Message>, gone: string, sid: string)
    ensures Archive(Others(messages, gone), sid) == if sid == gone then [] else Archive(messages, sid)
  {
    if messages != [] {
      ArchiveOthers(messages[1..], gone, sid);
      if messages[0].session != gone {
        assert Others(messages, gone)[1..] == Others(messages[1..], gone);
      } else {
        assert Others(messages, gone) == Others(messages[1..], gone);
      }
    }
  }

  /** What one operation does to any archive: nothing, empty it, or fill an empty one with a copy. */
  lemma StepOnArchive(db: Db, op: Op, sid: string)
    ensures
      var before, after := Archive(db.messages, sid), Archive(Apply(db, op).messages, sid);
      || after == before
      || (op == Delete(sid) && after == [])
      || (op.Transfer? && op.target == sid && before == [] && after == Archive(db.messages, op.alias))
  {
    if op.Delete? {
      ArchiveOthers(db.messages, op.sid, sid);
    } else if op.Transfer? {
      var copied := Archive(db.messages, op.alias);
      ArchiveAppend(db.messages, Filed(copied, op.target), sid);
      ArchiveFiled(copied, op.target, sid);
    }
  }

  /** Over any history each archive is empty or one whole archive of the start: never merged,
      never repeated, never cut. */
  lemma {:induction false} ArchivesAreNeverMerged(db: Db, ops: seq<Op>, sid: string) returns (origin: string)
    ensures Archive(Run(db, ops).messages, sid) == [] || Archive(Run(db, ops).messages, sid) == Archive(db.messages, origin)
    decreases |ops|
  {
    origin := sid;
    if ops != [] {
      var middle := ArchivesAreNeverMerged(Apply(db, ops[0]), ops[1..], sid);
      StepOnArchive(db, ops[0], middle);
      origin := if Archive(Apply(db, ops[0]).messages, middle) == Archive(db.messages, middle) || !ops[0].Transfer? then middle
                else ops[0].alias;
    }
  }

  /** The archive part of a transfer: afterwards there is nothing left to copy. */
  lemma CopiedOnce(messages: seq<Message>, target: string, alias: string)
    requires target != alias && Archive(messages, target) == []
    ensures
      var after := messages + Filed(Archive(messages, alias), target);
      Archive(after, alias) == Archive(messages, alias) == Archive(after, target)
  {
    var copied := Archive(messages, alias);
    ArchiveAppend(messages, Filed(copied, target), target);
    ArchiveAppend(messages, Filed(copied, target), alias);
    ArchiveFiled(copied, target, target);
    ArchiveFiled(copied, target, alias);
  }

  /** Repeating a transfer changes only the activity time: no message is copied twice. */
  lemma RepeatedTransferIsIdle(db: Db, user: string, target: string, alias: string, title: string, cwd: string, now: string, later: string)
    ensures
      var once := Apply(db, Transfer(user, target, alias, title, cwd, now));
      var twice := Apply(once, Transfer(user, target, alias, title, cwd, later));
      && twice.messages == once.messages && twice.runtime == once.runtime
      && (twice == once
          || (target in once.sessions && twice.sessions == once.sessions[target := once.sessions[target].(lastActive := later)]))
  {
    var first := Transfer(user, target, alias, title, cwd, now);
    if WellAddressed(first) && Available(db, alias) {
      var once := Apply(db, first);
      assert Available(once, alias);
      if Archive(db.messages, target) == [] {
        CopiedOnce(db.messages, target, alias);
      }
      if Archive(once.messages, target) == [] {
        assert once.messages + Filed([], target) == once.messages;
      }
    }
  }

  // ---- The store

  /** The statements of a transaction; `fails` chooses which of them report an error. */
  datatype Statement =
    | Begin | CountVersion | AdoptRows | RecordVersion | FindAlias | SaveSession | BindRuntime | CountArchive | CopyArchive
    | DeleteMessages | DeleteRuntime | DeleteSession | Commit
    // the upsert endpoint reads the session before, and twice after, the change; the last two also fail when
    // the row is gone again by then
    | CheckOwned | ReadBack | LoadSession

  /** Which failures make a transfer fail: only those of statements it gets to. */
  predicate TransferFails(db: Db, target: string, alias: string, fails: Statement -> bool) {
    || fails(Begin) || fails(FindAlias)
    || (Available(db, alias)
        && (fails(SaveSession) || fails(BindRuntime) || fails(CountArchive)
            || (Archive(db.messages, target) == [] && fails(CopyArchive)) || fails(Commit)))
  }

  /** Whether an upsert request reaches its commit. */
  predicate Lands(db: Db, id: string, alias: string, fails: Statement -> bool) {
    && !fails(CheckOwned)
    && if alias == "" then !fails(SaveSession) else alias != id && Available(db, alias) && !TransferFails(db, id, alias, fails)
  }

  /** The answer of the upsert endpoint. */
  function UpsertStatus(db: Db, id: string, alias: string, fails: Statement -> bool): nat {
    if Lands(db, id, alias, fails) then (if fails(ReadBack) then 409 else if fails(LoadSession) then 500 else 200)
    else if !fails(CheckOwned) && alias != "" && (alias == id || !TransferFails(db, id, alias, fails)) then 409
    else 500
  }

  /** So an error answer does not mean that nothing happened: it does exactly when the failing statement comes
      before the commit. */
  lemma RefusalWithoutEffectExactlyWhen(db: Db, id: string, alias: string, fails: Statement -> bool)
    requires UpsertStatus(db, id, alias, fails) != 200
    ensures Lands(db, id, alias, fails) <==>
            (fails(ReadBack) || fails(LoadSession)) && UpsertStatus(db, id, alias, (st: Statement) => !st.ReadBack? && !st.LoadSession? && fails(st)) == 200
    // a failed load answers 500 although the session is saved
    ensures Lands(db, id, alias, fails) && !fails(ReadBack) ==> UpsertStatus(db, id, alias, fails) == 500
  {
  }

  class ChatStore {
    var sessions: map<string, Session>
    var runtime: map<string, Runtime>
    var messages: seq<Message>
    var applied: bool

    ghost function View(): Db
      reads this
    {
      Db(sessions, runtime, messages, applied)
    }

    /** The legacy database at first boot: the runtime table is still empty. */
    constructor (sessions: map<string, Session>, messages: seq<Message>)
      ensures View() == Db(sessions, map[], messages, false) && ProvidersFrom(View(), {})
    {
      this.sessions, this.runtime, this.messages, this.applied := sessions, map[], messages, false;
    }

    method MigrateLegacyRuntime(fails: Statement -> bool) returns (err: bool)
      modifies this
      ensures err <==>
                fails(Begin) || fails(CountVersion) || (!old(applied) && (fails(AdoptRows) || fails(RecordVersion))) || fails(Commit)
      ensures View() == if err then old(View()) else Apply(old(View()), Migrate)
    {
      if fails(Begin) || fails(CountVersion) {
        return true;
      }
      var adopted := runtime;
      if !applied {
        if fails(AdoptRows) || fails(RecordVersion) {
          return true;
        }
        adopted := Adopted(Db(sessions, runtime, messages, applied));
      }
      if fails(Commit) {
        return true;
      }
      runtime, applied := adopted, true;
      return false;
    }

    method TouchSession(user: string, id: string, title: string, cwd: string, now: string, fails: bool) returns (err: bool)
      modifies this`sessions
      ensures View() == if err then old(View()) else Apply(old(View()), Touch(user, id, title, cwd, now))
      ensures err <==> fails && user != "" && id != ""
    {
      if user == "" || id == "" {
        return false;
      }
      if fails {
        return true;
      }
      if id in sessions {
        var was := sessions[id];
        sessions := sessions[id := was.(
          lastActive := now, cwd := if cwd != "" then cwd else was.cwd, title := if was.title == "" then title else was.title)];
      } else {
        sessions := sessions[id := Session(user, title, cwd, now, now)];
      }
      return false;
    }

    method UpsertWithLegacyRuntime(user: string, target: string, alias: string, title: string, cwd: string, now: string,
                                   fails: Statement -> bool)
      returns (transferred: bool, err: bool)
      modifies this
      ensures View() == if err then old(View()) else Apply(old(View()), Transfer(user, target, alias, title, cwd, now))
      ensures err <==> user != "" && target != "" && alias != "" && target != alias && TransferFails(old(View()), target, alias, fails)
      ensures err ==> !transferred
      // a failing statement it gets to is an error without effect
      ensures user != "" && target != "" && alias != "" && target != alias ==>
                && (fails(Begin) || fails(FindAlias) ==> err)
                && (old(Available(View(), alias)) && (fails(SaveSession) || fails(BindRuntime) || fails(CountArchive) || fails(Commit)) ==> err)
                && (old(Available(View(), alias)) && Archive(old(messages), target) == [] && fails(CopyArchive) ==> err)
      ensures transferred ==> target in sessions && Provider(View(), target) != ""
      ensures !err ==>
                (transferred <==> user != "" && target != "" && alias != "" && target != alias && old(Available(View(), alias)))
    {
      if user == "" || target == "" || alias == "" || target == alias {
        return false, false;
      }
      if fails(Begin) || fails(FindAlias) {
        return false, true;
      }
      var db := Db(sessions, runtime, messages, applied);
      if !Available(db, alias) {
        return false, false;
      }
      if fails(SaveSession) {
        return false, true;
      }
      db := db.(sessions := Saved(db, user, target, title, cwd, now, true));
      if fails(BindRuntime) {
        return false, true;
      }
      db := db.(runtime := Bound(db, user, target, alias));
      if fails(CountArchive) {
        return false, true;
      }
      if Archive(db.messages, target) == [] {
        if fails(CopyArchive) {
          return false, true;
        }
        db := db.(messages := db.messages + Filed(Archive(db.messages, alias), target));
      }
      if fails(Commit) {
        return false, true;
      }
      sessions, runtime, messages := db.sessions, db.runtime, db.messages;
      return true, false;
    }

    /** The upsert endpoint behind its request checks. */
    method HandleUpsert(user: string, id: string, alias: string, title: string, cwd: string, now: string, fails: Statement -> bool)
      returns (status: nat)
      requires user != "" && id != ""
      modifies this
      ensures status == UpsertStatus(old(View()), id, alias, fails)
      // answers: a failure before the commit is 500, an unavailable alias 409; after it, 409 for a failed read-back,
      // 500 for a failed load
      ensures fails(CheckOwned) || (alias == "" && fails(SaveSession)) ==> status == 500 && View() == old(View())
      ensures !fails(CheckOwned) && alias == "" && !fails(SaveSession) ==>
                status == if fails(ReadBack) then 409 else if fails(LoadSession) then 500 else 200
      ensures !fails(CheckOwned) && alias != "" && alias == id ==> status == 409 && View() == old(View())
      ensures !fails(CheckOwned) && alias != "" && alias != id && (fails(Begin) || fails(FindAlias)) ==> status == 500 && View() == old(View())
      ensures !fails(CheckOwned) && alias != "" && alias != id && !fails(Begin) && !fails(FindAlias) && !old(Available(View(), alias)) ==>
                status == 409 && View() == old(View())
      ensures !fails(CheckOwned) && alias != "" && alias != id && old(Available(View(), alias)) && (forall st: Statement :: !st.ReadBack? && !st.LoadSession? ==> !fails(st)) ==>
                status == if fails(ReadBack) then 409 else if fails(LoadSession) then 500 else 200
      // the change is there exactly when its commit was reached, whatever the answer
      ensures View() == if Lands(old(View()), id, alias, fails)
                        then Apply(old(View()), if alias == "" then Upsert(user, id, title, cwd, now)
                                                else Transfer(user, id, alias, title, cwd, now))
                        else old(View())
      ensures status == 200 ==> Lands(old(View()), id, alias, fails) && id in sessions
      ensures status == 500 ==> exists st :: fails(st)
    {
      if fails(CheckOwned) {
        return 500;
      }
      if alias != "" {
        var transferred, err := UpsertWithLegacyRuntime(user, id, alias, title, cwd, now, fails);
        if err {
          return 500;
        }
        if !transferred {
          return 409;
        }
      } else {
        if fails(SaveSession) {
          return 500;
        }
        sessions := Saved(Db(sessions, runtime, messages, applied), user, id, title, cwd, now, true);
      }
      if fails(ReadBack) {
        return 409;
      }
      if fails(LoadSession) {
        return 500;
      }
      return 200;
    }

    method HandleDelete(sid: string, fails: Statement -> bool) returns (status: nat)
      modifies this
      ensures status == if sid == "" then 400
                        else if fails(Begin) || fails(DeleteMessages) || fails(DeleteRuntime) || fails(DeleteSession) || fails(Commit) then 500
                        else 200
      ensures View() == if status == 200 then Apply(old(View()), Delete(sid)) else old(View())
      ensures status == 200 ==> sid !in sessions && sid !in runtime && Archive(messages, sid) == []
    {
      if sid == "" {
        return 400;
      }
      if fails(Begin) || fails(DeleteMessages) || fails(DeleteRuntime) || fails(DeleteSession) || fails(Commit) {
        return 500;
      }
      ArchiveOthers(messages, sid, sid);
      messages, runtime, sessions := Others(messages, sid), runtime - {sid}, sessions - {sid};
      return 200;
    }
  }
}
