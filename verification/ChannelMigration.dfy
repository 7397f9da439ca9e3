/** The one-shot import of the retired flat channel archive, statement by statement, and
    AUTOINCREMENT around it. */
module ChannelMigration {
  import opened Basics
  import opened ChannelLog
  import opened MessageCodec

  /** A text column: code points where it is valid UTF-8. */
  datatype LegacyText = Utf8(chars: string) | Malformed

  datatype LegacyRow = LegacyRow(id: int, channel: string, sender: string, text: LegacyText, created: string)

  /** What the import lets through: valid UTF-8 without a NUL. */
  predicate CanonicalText(t: LegacyText) {
    t.Utf8? && '\0' !in t.chars
  }

  /** A table is recognised as legacy by its `text` column. */
  datatype Table = Legacy(archive: seq<LegacyRow>) | Canonical(rows: seq<Row>)

  const LIVE := "channel_messages"
  const TEMP := "channel_messages_ir"
  const MAX_ROWID := 0x7fff_ffff_ffff_ffff

  /** The statements that can fail. */
  datatype Statement =
    | Setup | CreateSetupIndex | Probe | Begin | CreateTemp | ReadArchive | ReadHighWater | InsertRow(i: nat)
    | RaiseSequence | AddSequence | DropLive | RenameTemp | CreateIndex | Commit

  /** Both table layouts in primary-key order. */
  ghost predicate Stored(t: Table) {
    match t
    case Legacy(archive) => forall i, j :: 0 <= i < j < |archive| ==> archive[i].id < archive[j].id
    case Canonical(rows) => Ordered(rows)
  }

  function Ids(t: Table): set<int> {
    match t
    case Legacy(archive) => set item <- archive :: item.id
    case Canonical(rows) => set row <- rows :: row.id
  }

  function Imported(item: LegacyRow): Row {
    Row(item.id, item.channel, item.sender, if item.text.Utf8? then Marshal(item.text.chars) else "", item.created)
  }

  function ImportedAll(archive: seq<LegacyRow>): seq<Row> {
    seq(|archive|, i requires 0 <= i < |archive| => Imported(archive[i]))
  }

  /** What a reader of the retired archive would still have to see after `cursor`. */
  function LegacyPending(archive: seq<LegacyRow>, name: string, cursor: int): seq<LegacyRow> {
    if archive == [] then []
    else if archive[0].channel == name && archive[0].id > cursor then [archive[0]] + LegacyPending(archive[1..], name, cursor)
    else LegacyPending(archive[1..], name, cursor)
  }

  function Max(a: int, b: int): int {
    if a < b then b else a
  }

  function SequenceOf(seqs: map<string, int>, name: string): int {
    if name in seqs then seqs[name] else 0
  }

  /** sqlite_sequence as AUTOINCREMENT leaves it after an insert with id `id`. */
  function Bumped(seqs: map<string, int>, name: string, id: int): map<string, int> {
    seqs[name := Max(SequenceOf(seqs, name), id)]
  }

  /** `issued` holds every id the live table ever gave out, deleted rows included. */
  ghost predicate Consistent(tables: map<string, Table>, seqs: map<string, int>, issued: set<int>) {
    && (forall name <- tables :: Stored(tables[name]))
    && seqs.Keys <= tables.Keys
    && (forall name <- seqs :: seqs[name] >= 0)
    && (LIVE in tables ==> Ids(tables[LIVE]) <= issued)
    && (forall id <- issued :: id <= SequenceOf(seqs, LIVE))
  }

  /** A message to be posted; `fails` says whether its INSERT does. */
  datatype Draft = Draft(channel: string, sender: string, message: string, created: string, fails: bool)

  /** Rows and sequence value after posting: AUTOINCREMENT takes the next id, up to the greatest there is. */
  function AfterPost(rows: seq<Row>, top: int, d: Draft): (seq<Row>, int) {
    if d.fails || top >= MAX_ROWID then (rows, top)
    else (rows + [Row(top + 1, d.channel, d.sender, d.message, d.created)], top + 1)
  }

  function AfterPosts(rows: seq<Row>, top: int, ds: seq<Draft>): (seq<Row>, int)
    decreases |ds|
  {
    if ds == [] then (rows, top)
    else
      var (rows', top') := AfterPost(rows, top, ds[0]);
      AfterPosts(rows', top', ds[1..])
  }

  /** The database once the import has committed. */
  ghost predicate Migrated(tables: map<string, Table>, seqs: map<string, int>, tables': map<string, Table>,
                           seqs': map<string, int>)
    requires LIVE in tables && tables[LIVE].Legacy?
  {
    && tables' == tables[LIVE := Canonical(ImportedAll(tables[LIVE].archive))]
    && seqs' == seqs[LIVE := SequenceOf(seqs, LIVE)]
  }

  lemma ImportedAppend(archive: seq<LegacyRow>, item: LegacyRow)
    ensures ImportedAll(archive + [item]) == ImportedAll(archive) + [Imported(item)]
  {
  }

  /** The row AUTOINCREMENT keeps in sqlite_sequence for a table once these rows were inserted into it. */
  function SequenceRow(archive: seq<LegacyRow>): Option<int> {
    if archive == [] then None
    else
      var before := SequenceRow(archive[..|archive| - 1]);
      Some(Max(if before.Some? then before.value else 0, archive[|archive| - 1].id))
  }

  lemma {:induction false} SequenceRowIsBounded(archive: seq<LegacyRow>, bound: int)
    requires 0 <= bound && forall k :: 0 <= k < |archive| ==> archive[k].id <= bound
    ensures SequenceRow(archive).Some? ==> SequenceRow(archive).value <= bound
  {
    if archive != [] {
      SequenceRowIsBounded(archive[..|archive| - 1], bound);
    }
  }

  /** Row `i` cannot be imported. */
  predicate Blocks(archive: seq<LegacyRow>, i: nat, fails: Statement -> bool)
    requires i < |archive|
  {
    !CanonicalText(archive[i].text) || fails(InsertRow(i))
  }

  /** The loop of the import: every text checked, printed and inserted with its old id. */
  method CopyRows(archive: seq<LegacyRow>, fails: Statement -> bool) returns (err: bool, rows: seq<Row>)
    ensures err <==> exists i :: 0 <= i < |archive| && Blocks(archive, i, fails)
    ensures !err ==> rows == ImportedAll(archive)
  {
    err, rows := false, [];
    ghost var done: seq<LegacyRow> := [];
    for i := 0 to |archive|
      invariant done == archive[..i] && rows == ImportedAll(done)
      invariant forall k :: 0 <= k < i ==> !Blocks(archive, k, fails)
    {
      var item := archive[i];
      if !CanonicalText(item.text) || fails(InsertRow(i)) {
        assert Blocks(archive, i, fails);
        return true, rows;
      }
      ImportedAppend(done, item);
      rows := rows + [Imported(item)];
      done := done + [item];
    }
    assert done == archive;
  }

  class ChannelDb {
    var tables: map<string, Table>
    var sequence: map<string, int>
    ghost var issued: set<int>

    ghost predicate Valid()
      reads this
    {
      Consistent(tables, sequence, issued)
    }

    /** Opens an existing database. */
    constructor (tables: map<string, Table>, sequence: map<string, int>, ghost issued: set<int>)
      requires Consistent(tables, sequence, issued)
      ensures Valid() && this.tables == tables && this.sequence == sequence && this.issued == issued
    {
      this.tables, this.sequence, this.issued := tables, sequence, issued;
    }

    /** The transaction body, on copies of the database: nothing is written back before it commits. */
    method Import(fails: Statement -> bool)
      returns (err: bool, ts: map<string, Table>, seqs: map<string, int>)
      requires Valid() && LIVE in tables && tables[LIVE].Legacy?
      ensures !err ==>
                && TEMP !in tables
                && (forall item <- tables[LIVE].archive :: CanonicalText(item.text))
                && Migrated(tables, sequence, ts, seqs)
      ensures !err ==>
                && !fails(CreateTemp) && !fails(ReadArchive) && !fails(ReadHighWater) && !fails(RaiseSequence) && !fails(AddSequence)
                && !fails(DropLive) && !fails(RenameTemp) && !fails(CreateIndex)
      ensures forall i :: 0 <= i < |tables[LIVE].archive| && fails(InsertRow(i)) ==> err
      ensures (forall st :: !fails(st)) && TEMP !in tables && (forall item <- tables[LIVE].archive :: CanonicalText(item.text)) ==> !err
    {
      ts, seqs := tables, sequence;
      if TEMP in tables || fails(CreateTemp) || fails(ReadArchive) || fails(ReadHighWater) {
        return true, ts, seqs;
      }
      var archive := tables[LIVE].archive;
      var highWater := SequenceOf(sequence, LIVE);
      var failed, rows := CopyRows(archive, fails);
      assert forall i :: 0 <= i < |archive| && fails(InsertRow(i)) ==> Blocks(archive, i, fails);
      if failed || fails(RaiseSequence) || fails(AddSequence) || fails(DropLive) || fails(RenameTemp) || fails(CreateIndex) {
        return true, ts, seqs;
      }
      forall k | 0 <= k < |archive| ensures archive[k].id <= highWater {
        assert archive[k].id in Ids(tables[LIVE]);
      }
      forall item | item in archive ensures CanonicalText(item.text) {
        var i :| 0 <= i < |archive| && archive[i] == item;
        assert !Blocks(archive, i, fails);
      }
      // raise the sequence row of the temporary table or add it, then drop the old table with its own row and
      // let the new one take its name
      var top := SequenceRow(archive);
      SequenceRowIsBounded(archive, highWater);
      var raised := if top.Some? then Max(top.value, highWater) else highWater;
      seqs := sequence[LIVE := raised];
      ts := ts[LIVE := Canonical(rows)];
      err := false;
    }

    method ApplyChannelMigrations(fails: Statement -> bool)
      returns (err: bool)
      requires Valid()
      modifies this
      ensures Valid() && issued == old(issued)
      ensures LIVE !in old(tables) ==>
                || (tables == old(tables)[LIVE := Canonical([])] && sequence == old(sequence))
                || (err && tables == old(tables) && sequence == old(sequence))
      // a canonical table: nothing to do, so a rerun changes nothing
      ensures LIVE in old(tables) && old(tables)[LIVE].Canonical? ==> tables == old(tables) && sequence == old(sequence)
      // a legacy table: all or nothing
      ensures LIVE in old(tables) && old(tables)[LIVE].Legacy? ==>
                && (err ==> tables == old(tables) && sequence == old(sequence))
                && (!err ==> Migrated(old(tables), old(sequence), tables, sequence))
                // and only if every text is valid UTF-8 without a NUL
                && (!err ==> forall item <- old(tables)[LIVE].archive :: item.text.Utf8? && '\0' !in item.text.chars)
      ensures !err ==> LIVE in tables && tables[LIVE].Canonical?
      // every failing statement it gets to makes it fail
      ensures fails(Setup) || fails(CreateSetupIndex) || fails(Probe) ==> err
      ensures LIVE in old(tables) && old(tables)[LIVE].Legacy? && !err ==>
                && !fails(Begin) && !fails(CreateTemp) && !fails(ReadArchive) && !fails(ReadHighWater) && !fails(RaiseSequence)
                && !fails(AddSequence) && !fails(DropLive) && !fails(RenameTemp) && !fails(CreateIndex) && !fails(Commit)
      ensures LIVE in old(tables) && old(tables)[LIVE].Legacy? ==>
                forall i :: 0 <= i < |old(tables)[LIVE].archive| && fails(InsertRow(i)) ==> err
      // it fails only where a statement fails or the archive holds a text no canonical message can carry
      ensures err && (forall st :: !fails(st)) ==>
                LIVE in old(tables) && old(tables)[LIVE].Legacy?
                && (TEMP in old(tables) || exists item <- old(tables)[LIVE].archive :: item.text.Malformed? || '\0' in item.text.chars)
    {
      if fails(Setup) {
        return true;
      }
      if LIVE !in tables {
        tables := tables[LIVE := Canonical([])];
      }
      if fails(CreateSetupIndex) || fails(Probe) {
        return true;
      }
      if tables[LIVE].Canonical? {
        return false;
      }
      if fails(Begin) {
        return true;
      }
      var failed, ts, seqs := Import(fails);
      if failed || fails(Commit) {
        return true;
      }
      ImportKeepsIds(tables[LIVE].archive);
      tables, sequence := ts, seqs;
      err := false;
    }

    /** INSERT of a posted message; AUTOINCREMENT picks the id or reports a full table. */
    method Post(d: Draft) returns (id: Option<int>)
      requires Valid() && LIVE in tables && tables[LIVE].Canonical?
      modifies this
      ensures Valid() && LIVE in tables && tables[LIVE].Canonical?
      ensures id.Some? <==> !d.fails && SequenceOf(old(sequence), LIVE) < 9_223_372_036_854_775_807
      ensures id.None? ==> tables == old(tables) && sequence == old(sequence) && issued == old(issued)
      // the id is new among all ids ever given out, and positive
      ensures id.Some? ==> id.value > 0 && (forall k <- old(issued) :: k < id.value) && issued == old(issued) + {id.value}
      ensures id.Some? ==> tables[LIVE].rows == old(tables)[LIVE].rows + [Row(id.value, d.channel, d.sender, d.message, d.created)]
      ensures Grows(old(tables)[LIVE].rows, tables[LIVE].rows)
      ensures (tables[LIVE].rows, SequenceOf(sequence, LIVE)) == AfterPost(old(tables)[LIVE].rows, SequenceOf(old(sequence), LIVE), d)
    {
      var next := SequenceOf(sequence, LIVE) + 1;
      if d.fails || next > MAX_ROWID {
        return None;
      }
      var rows := tables[LIVE].rows;
      forall i | 0 <= i < |rows| ensures rows[i].id < next {
        assert rows[i].id in Ids(tables[LIVE]);
      }
      tables := tables[LIVE := Canonical(rows + [Row(next, d.channel, d.sender, d.message, d.created)])];
      sequence := Bumped(sequence, LIVE, next);
      issued := issued + {next};
      id := Some(next);
    }
  }

  lemma ImportKeepsIds(archive: seq<LegacyRow>)
    ensures Ids(Canonical(ImportedAll(archive))) == Ids(Legacy(archive))
  {
    var rows := ImportedAll(archive);
    forall id | id in Ids(Canonical(rows)) ensures id in Ids(Legacy(archive)) {
      var k :| 0 <= k < |rows| && rows[k].id == id;
      assert archive[k] in archive;
    }
    forall id | id in Ids(Legacy(archive)) ensures id in Ids(Canonical(rows)) {
      var k :| 0 <= k < |archive| && archive[k].id == id;
      assert rows[k] in rows;
    }
  }

  lemma {:induction false} ImportCommutes(archive: seq<LegacyRow>, name: string, cursor: int)
    ensures Pending(ImportedAll(archive), name, cursor) == ImportedAll(LegacyPending(archive, name, cursor))
  {
    if archive != [] {
      var all := ImportedAll(archive);
      assert all[1..] == ImportedAll(archive[1..]);
      ImportCommutes(archive[1..], name, cursor);
    }
  }

  /** The archived row a row of the live table came from. */
  function Exported(row: Row): Option<LegacyRow> {
    var text := Unmarshal(row.message);
    if text.Some? then Some(LegacyRow(row.id, row.channel, row.sender, Utf8(text.value), row.created)) else None
  }

  /** Nothing of the archive is lost: whatever the import let through can be read back, row for row, text included. */
  lemma ArchiveIsRecoverable(archive: seq<LegacyRow>)
    requires forall item <- archive :: CanonicalText(item.text)
    ensures |ImportedAll(archive)| == |archive|
    ensures forall i :: 0 <= i < |archive| ==> Exported(ImportedAll(archive)[i]) == Some(archive[i])
  {
    forall i | 0 <= i < |archive| ensures Exported(Imported(archive[i])) == Some(archive[i]) {
      assert archive[i] in archive;
      MessageRoundTrip(archive[i].text.chars);
    }
  }

  /** Posts only add rows, with ids above the sequence value they started from. */
  lemma {:induction false} PostsStayAbove(rows: seq<Row>, top: int, ds: seq<Draft>)
    ensures
      var rows' := AfterPosts(rows, top, ds).0;
      rows <= rows' && forall i :: |rows| <= i < |rows'| ==> rows'[i].id > top
    decreases |ds|
  {
    if ds != [] {
      var (next, top') := AfterPost(rows, top, ds[0]);
      PostsStayAbove(next, top', ds[1..]);
    }
  }

  /** A cursor handed out before the migration (or 0) misses nothing after it and any number of posts: it selects
      first the archived rows it had not seen, then every row of the channel posted since. All ids given out since
      exceed all given out before. `Migrated` and `AfterPost` are what the migration and a post promise. */
  lemma CursorSurvivesMigration(tables: map<string, Table>, seqs: map<string, int>, issued: set<int>, tables': map<string, Table>,
                                seqs': map<string, int>, ds: seq<Draft>, name: string, cursor: int)
    requires Consistent(tables, seqs, issued) && LIVE in tables && tables[LIVE].Legacy?
    requires Migrated(tables, seqs, tables', seqs')
    requires cursor == 0 || cursor in issued
    ensures
      var archive, live := tables[LIVE].archive, AfterPosts(tables'[LIVE].rows, SequenceOf(seqs', LIVE), ds).0;
      && |archive| <= |live|
      && (forall i, k :: |archive| <= i < |live| && k in issued ==> k < live[i].id)
      && Pending(live, name, cursor) == ImportedAll(LegacyPending(archive, name, cursor)) + Pending(live[|archive|..], name, 0)
  {
    var archive, rows, top := tables[LIVE].archive, tables'[LIVE].rows, SequenceOf(seqs', LIVE);
    var live := AfterPosts(rows, top, ds).0;
    PostsStayAbove(rows, top, ds);
    var posted := live[|archive|..];
    assert live == rows + posted;
    PendingAppend(rows, posted, name, cursor);
    ImportCommutes(archive, name, cursor);
    assert 0 <= top && cursor <= top;
    forall i | 0 <= i < |posted| ensures posted[i].id > top {
      assert posted[i] == live[|archive| + i];
    }
    PendingAbove(posted, name, if cursor < 0 then cursor else 0, if cursor < 0 then 0 else cursor);
  }
}
