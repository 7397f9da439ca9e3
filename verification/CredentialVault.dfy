/** The in-memory OIDC credential vault: a bounded map of heap entries whose token
    buffers are overwritten with zeros when they leave it. */
module CredentialVault {
  import opened Basics

  // ---- Specification: the vault as a value ----

  datatype Held = Held(token: Bytes, iss: string, sub: string, expires: int)

  type Contents = map<string, Held>

  function Live(c: Contents, now: int): Contents {
    map id | id in c && now < c[id].expires :: c[id]
  }

  function WithoutPrincipal(c: Contents, iss: string, sub: string): Contents {
    map id | id in c && !(c[id].iss == iss && c[id].sub == sub) :: c[id]
  }

  predicate Admissible(id: string, h: Held, now: int) {
    id != "" && h.iss != "" && h.sub != "" && h.token != [] && now < h.expires
  }

  /** Whether the second half of `put`, at `now` under the lock, stores the entry. */
  predicate Accepts(c: Contents, max: nat, id: string, now: int) {
    id !in Live(c, now) && |Live(c, now)| < max
  }

  function Lookup(c: Contents, id: string, iss: string, sub: string, oidcExpires: Option<int>, now: int): Option<Bytes> {
    var live := Live(c, now);
    if id != "" && oidcExpires.Some? && id in live && live[id].iss == iss && live[id].sub == sub
       && Unix(live[id].expires) == Unix(oidcExpires.value)
    then Some(live[id].token)
    else None
  }

  datatype Op =
    | Put(id: string, held: Held, checked: int, now: int)
    | Get(now: int)
    | Del(id: string)
    | DelPrincipal(iss: string, sub: string)
    | Clear

  function Apply(c: Contents, max: nat, op: Op): Contents {
    match op
    case Put(id, held, checked, now) =>
      if !Admissible(id, held, checked) then c
      else if Accepts(c, max, id, now) then Live(c, now)[id := held]
      else Live(c, now)
    case Get(now) => Live(c, now)
    case Del(id) => if id == "" then c else c - {id}
    case DelPrincipal(iss, sub) => WithoutPrincipal(c, iss, sub)
    case Clear => map[]
  }

  function Run(max: nat, ops: seq<Op>): Contents {
    if ops == [] then map[] else Apply(Run(max, ops[..|ops| - 1]), max, ops[|ops| - 1])
  }

  lemma SubmapSize(c: Contents, d: Contents)
    requires forall id <- d :: id in c
    ensures |d| <= |c|
  {
    var extra := c.Keys - d.Keys;
    assert c.Keys == d.Keys + extra;
    assert |c.Keys| == |d.Keys| + |extra|;
  }

  /** In every run of operations the number of entries stays within the maximum. */
  lemma {:induction false} RunIsBounded(max: nat, ops: seq<Op>)
    ensures |Run(max, ops)| <= max
  {
    if ops != [] {
      var before, op := Run(max, ops[..|ops| - 1]), ops[|ops| - 1];
      RunIsBounded(max, ops[..|ops| - 1]);
      match op
      case Put(id, held, _, now) =>
        SubmapSize(before, Live(before, now));
        assert Live(before, now)[id := held].Keys == Live(before, now).Keys + {id};
      case Get(now) => SubmapSize(before, Live(before, now));
      case Del(id) => SubmapSize(before, before - {id});
      case DelPrincipal(iss, sub) => SubmapSize(before, WithoutPrincipal(before, iss, sub));
      case Clear =>
    }
  }

  predicate Erases(op: Op, id: string, held: Held) {
    op.Clear? || (op == Del(id) && id != "") || op == DelPrincipal(held.iss, held.sub)
  }

  predicate Stores(c: Contents, max: nat, op: Op, id: string) {
    op.Put? && op.id == id && Admissible(id, op.held, op.checked) && Accepts(c, max, id, op.now)
  }

  /** A credential is stored exactly when it is complete, not run out, not held already, and among fewer than `max`
      live entries. */
  lemma StoresExactlyWhen(c: Contents, max: nat, id: string, held: Held, checked: int, now: int)
    ensures Stores(c, max, Put(id, held, checked, now), id) <==>
            && id != "" && held.iss != "" && held.sub != "" && held.token != [] && checked < held.expires
            && !(id in c && now < c[id].expires) && |map k | k in c && now < c[k].expires :: c[k]| < max
  {
  }

  lemma EntrySurvives(c: Contents, max: nat, op: Op, id: string)
    requires id in Apply(c, max, op) && !Stores(c, max, op, id)
    ensures id in c && Apply(c, max, op)[id] == c[id] && !Erases(op, id, c[id])
  {
  }

  /** Whatever is held under `id` was stored under `id` by one `put`, and nothing erased it since. */
  lemma {:induction false} HeldWasPut(max: nat, ops: seq<Op>, id: string) returns (n: nat)
    requires id in Run(max, ops)
    ensures n < |ops| && Stores(Run(max, ops[..n]), max, ops[n], id) && ops[n].held == Run(max, ops)[id]
    ensures forall k :: n < k < |ops| ==> !Erases(ops[k], id, ops[n].held)
  {
    var last := |ops| - 1;
    var before, op := Run(max, ops[..last]), ops[last];
    if Stores(before, max, op, id) {
      n := last;
    } else {
      EntrySurvives(before, max, op, id);
      var front := ops[..last];
      n := HeldWasPut(max, front, id);
      assert front[..n] == ops[..n] && front[n] == ops[n];
      forall k | n < k < |ops| ensures !Erases(ops[k], id, ops[n].held) {
        assert k < last ==> front[k] == ops[k];
      }
    }
  }

  /** `get` hands out only bytes stored for that very session id, issuer, subject and expiry
      second, never at or after expiry, and never after an erasure. */
  lemma LookupIsFaithful(max: nat, ops: seq<Op>, id: string, iss: string, sub: string, oidcExpires: Option<int>, now: int)
    returns (n: nat)
    requires Lookup(Run(max, ops), id, iss, sub, oidcExpires, now).Some?
    ensures n < |ops| && ops[n].Put? && ops[n].id == id
    ensures ops[n].held.iss == iss && ops[n].held.sub == sub
    ensures oidcExpires.Some? && Unix(ops[n].held.expires) == Unix(oidcExpires.value)
    ensures Lookup(Run(max, ops), id, iss, sub, oidcExpires, now) == Some(ops[n].held.token)
    ensures now < ops[n].held.expires
    ensures forall k :: n < k < |ops| ==> !Erases(ops[k], id, ops[n].held)
  {
    n := HeldWasPut(max, ops, id);
  }

  /** The clock an operation reads under the lock has not reached `expires`. */
  predicate Before(op: Op, expires: int) {
    op.Put? || op.Get? ==> op.now < expires
  }

  lemma EntryStays(c: Contents, max: nat, op: Op, id: string)
    requires id in c && !Erases(op, id, c[id]) && Before(op, c[id].expires)
    ensures id in Apply(c, max, op) && Apply(c, max, op)[id] == c[id]
  {
  }

  lemma {:induction false} RunStep(max: nat, ops: seq<Op>, m: nat)
    requires m < |ops|
    ensures Run(max, ops[..m + 1]) == Apply(Run(max, ops[..m]), max, ops[m])
  {
    assert ops[..m + 1][..m] == ops[..m];
  }

  lemma {:induction false} HeldStays(max: nat, ops: seq<Op>, id: string, held: Held, n: nat, m: nat)
    requires n <= m <= |ops| && id in Run(max, ops[..n]) && Run(max, ops[..n])[id] == held
    requires forall k :: n <= k < m ==> !Erases(ops[k], id, held) && Before(ops[k], held.expires)
    ensures id in Run(max, ops[..m]) && Run(max, ops[..m])[id] == held
    decreases m
  {
    if n < m {
      HeldStays(max, ops, id, held, n, m - 1);
      RunStep(max, ops, m - 1);
      EntryStays(Run(max, ops[..m - 1]), max, ops[m - 1], id);
    }
  }

  /** What was stored and neither erased nor expired since is returned, to the byte, for that session id, issuer,
      subject and any instant of the expiry second. */
  lemma StoredIsReturned(max: nat, ops: seq<Op>, n: nat, id: string, oidcExpires: int, now: int)
    requires n < |ops| && Stores(Run(max, ops[..n]), max, ops[n], id)
    requires forall k :: n < k < |ops| ==> !Erases(ops[k], id, ops[n].held) && Before(ops[k], ops[n].held.expires)
    requires now < ops[n].held.expires && Unix(oidcExpires) == Unix(ops[n].held.expires)
    ensures Lookup(Run(max, ops), id, ops[n].held.iss, ops[n].held.sub, Some(oidcExpires), now) == Some(ops[n].held.token)
  {
    RunStep(max, ops, n);
    HeldStays(max, ops, id, ops[n].held, n + 1, |ops|);
    assert ops[..|ops|] == ops;
  }

  // ---- The vault on the heap ----

  type Buffer = array<Byte>

  predicate Zero(bytes: Bytes) {
    forall i :: 0 <= i < |bytes| ==> bytes[i] == '\0'
  }

  /** cleanseBytes, in place. */
  method Cleanse(b: Buffer)
    modifies b
    ensures Zero(b[..])
  {
    for i := 0 to b.Length
      invariant forall k :: 0 <= k < i ==> b[k] == '\0'
    {
      b[i] := '\0';
    }
  }

  /** A private copy of the token. */
  method Copied(raw: Bytes) returns (b: Buffer)
    ensures fresh(b) && b[..] == raw
  {
    b := new Byte[|raw|](i requires 0 <= i < |raw| => raw[i]);
  }

  datatype Credential = Credential(token: Buffer, iss: string, sub: string, expires: int)

  /** `c` once all of `ids` but `todo` are gone. */
  ghost function Removed(c: Contents, ids: set<string>, todo: set<string>): Contents {
    c - (ids - todo)
  }

  lemma RemovedNothing(c: Contents, ids: set<string>)
    ensures Removed(c, ids, ids) == c
  {}

  lemma RemovedOne(c: Contents, ids: set<string>, todo: set<string>, id: string)
    requires todo <= ids <= c.Keys && id in todo
    ensures id in Removed(c, ids, todo)
    ensures Removed(c, ids, todo) - {id} == Removed(c, ids, todo - {id})
  {}

  lemma RemovedAll(c: Contents, ids: set<string>)
    ensures Removed(c, ids, {}) == c - ids
  {}

  /** `bytes` gives the present content of every buffer ever allocated and `holder` the session id it was
      copied for: an entry's buffer is its own, and a buffer no entry uses is all zeros. */
  ghost predicate Sound(entries: map<string, Credential>, holder: map<Buffer, string>, bytes: map<Buffer, Bytes>, max: nat) {
    && |entries| <= max
    && (forall id <- entries :: entries[id].token in bytes && entries[id].token in holder && holder[entries[id].token] == id)
    && (forall b <- bytes :: Serves(entries, holder, b) || Zero(bytes[b]))
  }

  ghost predicate Serves(entries: map<string, Credential>, holder: map<Buffer, string>, b: Buffer) {
    b in holder && holder[b] in entries && entries[holder[b]].token == b
  }

  ghost function Seen(entries: map<string, Credential>, bytes: map<Buffer, Bytes>): Contents
    requires forall id <- entries :: entries[id].token in bytes
  {
    map id | id in entries :: Held(bytes[entries[id].token], entries[id].iss, entries[id].sub, entries[id].expires)
  }

  lemma AddedIsSound(entries: map<string, Credential>, holder: map<Buffer, string>, bytes: map<Buffer, Bytes>, max: nat,
                     id: string, c: Credential, content: Bytes)
    requires Sound(entries, holder, bytes, max) && id !in entries && |entries| < max && c.token !in bytes
    ensures Sound(entries[id := c], holder[c.token := id], bytes[c.token := content], max)
  {
    OneMore(entries, id, c);
    var entries', holder', bytes' := entries[id := c], holder[c.token := id], bytes[c.token := content];
    forall b | b in bytes' ensures Serves(entries', holder', b) || Zero(bytes'[b]) {
      if b != c.token {
        assert Serves(entries, holder, b) || Zero(bytes[b]);
      }
    }
  }

  lemma AddedIsSeen(entries: map<string, Credential>, bytes: map<Buffer, Bytes>, id: string, c: Credential, content: Bytes)
    requires (forall k <- entries :: entries[k].token in bytes) && id !in entries && c.token !in bytes
    ensures Seen(entries[id := c], bytes[c.token := content]) == Seen(entries, bytes)[id := Held(content, c.iss, c.sub, c.expires)]
  {
  }

  lemma OneMore(entries: map<string, Credential>, id: string, c: Credential)
    requires id !in entries
    ensures |entries[id := c]| == |entries| + 1
  {
    assert entries[id := c].Keys == entries.Keys + {id};
    assert |entries[id := c]| == |entries[id := c].Keys|;
  }

  lemma RemovedIsSound(entries: map<string, Credential>, holder: map<Buffer, string>, bytes: map<Buffer, Bytes>, max: nat,
                       id: string, content: Bytes)
    requires Sound(entries, holder, bytes, max) && id in entries && Zero(content)
    ensures Sound(entries - {id}, holder, bytes[entries[id].token := content], max)
    ensures Seen(entries - {id}, bytes[entries[id].token := content]) == Seen(entries, bytes) - {id}
  {
    OneLess(entries, id);
    var entries', bytes' := entries - {id}, bytes[entries[id].token := content];
    forall b | b in bytes' ensures Serves(entries', holder, b) || Zero(bytes'[b]) {
      assert Serves(entries, holder, b) || Zero(bytes[b]);
    }
  }

  lemma OneLess(entries: map<string, Credential>, id: string)
    ensures |entries - {id}| <= |entries|
  {
    assert (entries - {id}).Keys == entries.Keys - {id};
    assert |entries - {id}| == |(entries - {id}).Keys|;
  }

  lemma ZeroIsSound(entries: map<string, Credential>, holder: map<Buffer, string>, bytes: map<Buffer, Bytes>, max: nat,
                    token: Buffer, content: Bytes)
    requires Sound(entries, holder, bytes, max) && token !in bytes && Zero(content)
    ensures Sound(entries, holder, bytes[token := content], max)
    ensures Seen(entries, bytes[token := content]) == Seen(entries, bytes)
  {
  }

  class Vault {
    const max: nat
    var entries: map<string, Credential>
    /** Every token buffer this vault ever allocated, and the session id each was copied for. */
    ghost var issued: set<Buffer>
    ghost var holder: map<Buffer, string>

    ghost function Stored(): map<Buffer, Bytes>
      reads this`issued, issued
    {
      map b | b in issued :: b[..]
    }

    ghost predicate Valid()
      reads this, issued
    {
      Sound(entries, holder, Stored(), max)
    }

    ghost function View(): (c: Contents)
      reads this, issued
      requires Valid()
    {
      Seen(entries, Stored())
    }

    constructor (max: int)
      ensures Valid() && View() == map[] && issued == {}
      ensures this.max == if max <= 0 then 4096 else max
    {
      this.max := if max <= 0 then 4096 else max;
      entries, issued, holder := map[], {}, map[];
    }

    /** Zeroes one buffer; all others keep their content. */
    method Erase(token: Buffer)
      requires token in issued
      modifies token
      ensures Zero(token[..]) && Stored() == old(Stored())[token := token[..]]
    {
      Cleanse(token);
      forall b | b in issued ensures b != token ==> b[..] == old(b[..]) {
      }
    }

    method DiscardOne(id: string)
      requires Valid() && id in entries
      modifies this`entries, issued
      ensures Valid() && issued == old(issued)
      ensures View() == old(View()) - {id}
    {
      ghost var was, bytes, token := entries, Stored(), entries[id].token;
      Erase(entries[id].token);
      entries := entries - {id};
      ghost var content := token[..];
      assert Stored() == bytes[token := content];
      RemovedIsSound(was, holder, bytes, max, id, content);
    }

    /** Zeroes and deletes the given entries one by one. */
    method Discard(ids: set<string>)
      requires Valid() && ids <= entries.Keys
      modifies this`entries, issued
      ensures Valid() && issued == old(issued)
      ensures View() == old(View()) - ids
    {
      ghost var before := View();
      var todo := ids;
      RemovedNothing(before, ids);
      while todo != {}
        invariant Valid() && issued == old(issued)
        invariant todo <= ids <= before.Keys
        invariant View() == Removed(before, ids, todo)
        decreases todo
      {
        var id :| id in todo;
        RemovedOne(before, ids, todo, id);
        DiscardOne(id);
        todo := todo - {id};
      }
      RemovedAll(before, ids);
    }

    method PurgeExpired(now: int)
      requires Valid()
      modifies this`entries, issued
      ensures Valid() && issued == old(issued)
      ensures forall k :: (k in View() <==> k in old(View()) && now < old(View())[k].expires)
                          && (k in View() ==> View()[k] == old(View())[k])
      ensures View() == Live(old(View()), now)
    {
      Discard(set id | id in entries && now >= entries[id].expires);
    }

    method StoreNew(id: string, iss: string, sub: string, expires: int, token: Buffer)
      requires Valid() && id !in entries && |entries| < max && token !in issued
      modifies this
      ensures Valid() && issued == old(issued) + {token}
      ensures View() == old(View())[id := Held(token[..], iss, sub, expires)]
    {
      var c := Credential(token, iss, sub, expires);
      ghost var was, held, bytes, content := entries, holder, Stored(), token[..];
      entries := entries[id := c];
      issued, holder := issued + {token}, holder[token := id];
      assert Stored() == bytes[token := content];
      AddedIsSound(was, held, bytes, max, id, c, content);
      AddedIsSeen(was, bytes, id, c, content);
    }

    method RejectNew(token: Buffer)
      requires Valid() && token !in issued
      modifies this`issued, token
      ensures Valid() && issued == old(issued) + {token}
      ensures View() == old(View())
    {
      ghost var bytes := Stored();
      Cleanse(token);
      issued := issued + {token};
      ghost var content := token[..];
      assert Stored() == bytes[token := content];
      ZeroIsSound(entries, holder, bytes, max, token, content);
    }

    lemma SameSize()
      requires Valid()
      ensures View().Keys == entries.Keys && |View()| == |entries|
    {
      assert |View()| == |View().Keys|;
    }

    /** The part of `put` that runs under the lock. */
    method PutLocked(id: string, iss: string, sub: string, expires: int, token: Buffer, now: int) returns (ok: bool)
      requires Valid() && token !in issued
      modifies this, issued, token
      ensures Valid() && issued == old(issued) + {token}
      ensures ok == Accepts(old(View()), max, id, now)
      ensures
        var live, held := Live(old(View()), now), Held(old(token[..]), iss, sub, expires);
        View() == if ok then live[id := held] else live
    {
      PurgeExpired(now);
      SameSize();
      ok := !(id in entries || |entries| >= max);
      if ok {
        StoreNew(id, iss, sub, expires, token);
      } else {
        RejectNew(token);
      }
    }

    /** `checked` and `now` are the two clock readings of one call, before and under the lock. */
    method Put(id: string, iss: string, sub: string, expires: int, raw: Bytes, checked: int, now: int) returns (ok: bool)
      requires Valid()
      modifies this, issued
      ensures Valid() && fresh(issued - old(issued)) && old(issued) <= issued
      ensures View() == Apply(old(View()), max, Op.Put(id, Held(raw, iss, sub, expires), checked, now))
      ensures ok <==> Stores(old(View()), max, Op.Put(id, Held(raw, iss, sub, expires), checked, now), id)
    {
      if id == "" || iss == "" || sub == "" || raw == [] || checked >= expires {
        return false;
      }
      var copyToken := Copied(raw);
      ok := PutLocked(id, iss, sub, expires, copyToken, now);
    }

    method Get(id: string, iss: string, sub: string, oidcExpires: Option<int>, now: int) returns (r: Option<Bytes>)
      requires Valid()
      modifies this`entries, issued
      ensures Valid() && issued == old(issued)
      // the stored bytes, exactly for this id, issuer, subject and expiry second, until expiry
      ensures r.Some? <==>
                && id != "" && oidcExpires.Some? && id in old(View()) && now < old(View())[id].expires
                && old(View())[id].iss == iss && old(View())[id].sub == sub
                && Unix(old(View())[id].expires) == Unix(oidcExpires.value)
      ensures r.Some? ==> r.value == old(View())[id].token
      ensures r == Lookup(old(View()), id, iss, sub, oidcExpires, now)
      ensures View() == if id == "" || oidcExpires.None? then old(View()) else Apply(old(View()), max, Op.Get(now))
    {
      if id == "" || oidcExpires.None? {
        return None;
      }
      PurgeExpired(now);
      if id !in entries || entries[id].iss != iss || entries[id].sub != sub
         || Unix(entries[id].expires) != Unix(oidcExpires.value) {
        return None;
      }
      return Some(entries[id].token[..]);
    }

    method Del(id: string)
      requires Valid()
      modifies this`entries, issued
      ensures Valid() && issued == old(issued)
      ensures View() == if id == "" then old(View()) else old(View()) - {id}
    {
      if id != "" && id in entries {
        DiscardOne(id);
      }
    }

    method DelPrincipal(iss: string, sub: string)
      requires Valid()
      modifies this`entries, issued
      ensures Valid() && issued == old(issued)
      ensures forall k :: (k in View() <==> k in old(View()) && (old(View())[k].iss, old(View())[k].sub) != (iss, sub))
                          && (k in View() ==> View()[k] == old(View())[k])
      ensures View() == WithoutPrincipal(old(View()), iss, sub)
    {
      Discard(set id | id in entries && entries[id].iss == iss && entries[id].sub == sub);
    }

    method Clear()
      requires Valid()
      modifies this`entries, issued
      ensures Valid() && issued == old(issued)
      ensures View() == map[]
    {
      Discard(entries.Keys);
    }
  }
}
