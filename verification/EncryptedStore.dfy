/**
 The encrypted store of `internal/store/encrypted`: plaintext in, ciphertext
 rows underneath. Each operation is a function of the committed table; the
 store object runs them in place, including the PATCH retry loop.
 */
module EncryptedStore {
  import opened Prelude
  import opened Envelope
  import opened ConfigStore

  type Key = k: seq<Byte> | |k| == KEY_SIZE witness seq(KEY_SIZE, _ => 0)
  type Nonce = n: seq<Byte> | |n| == NONCE_SIZE witness seq(NONCE_SIZE, _ => 0)

  datatype PlainConfig = PlainConfig(id: Int64, user: Int64, name: string, content: seq<Byte>, version: string,
                                     createdAt: Instant, modifiedAt: Instant)

  datatype PlainInput = PlainInput(name: string, content: seq<Byte>, version: string)

  /** `None` means the field was absent; `Some` of an empty value clears it. */
  datatype PlainPatch = PlainPatch(name: Option<string>, content: Option<seq<Byte>>, version: Option<string>)

  function ToPlaintext(row: Config, content: seq<Byte>): PlainConfig {
    PlainConfig(row.id, row.user, row.name, content, row.version, row.createdAt, row.modifiedAt)
  }

  function Open(key: Key, user: Int64, row: Config): Result<PlainConfig> {
    var content := Decrypt(key, user, row.id, row.cipher, row.nonce);
    if content.Err? then Err(DecryptFailed) else Ok(ToPlaintext(row, content.value))
  }

  function GetPlain(key: Key, db: Db, user: Int64, id: Int64): Result<PlainConfig> {
    var row := Get(db, user, id);
    if row.Err? then Err(row.error) else Open(key, user, row.value)
  }

  /**
   A read, of any row: not found exactly when the caller does not own it, and
   otherwise the plaintext whose encryption for this very row is what is
   stored, or the decrypt error exactly when there is none.
   */
  lemma GetPlainIff(key: Key, db: Db, user: Int64, id: Int64)
    ensures GetPlain(key, db, user, id) == Err(NotFound) <==> !Owns(db, user, id)
    ensures Owns(db, user, id) ==>
              var row := db.rows[id];
              && (GetPlain(key, db, user, id) == Err(DecryptFailed) <==>
                    forall p :: |row.nonce| == NONCE_SIZE ==> Encrypt(key, user, id, p, row.nonce) != Ok(row.cipher))
              && forall p :: |row.nonce| == NONCE_SIZE && Encrypt(key, user, id, p, row.nonce) == Ok(row.cipher) ==>
                   GetPlain(key, db, user, id) == Ok(ToPlaintext(Scan(id, row), p))
  {
    if Owns(db, user, id) {
      var row := db.rows[id];
      var content := Decrypt(key, user, id, row.cipher, row.nonce);
      OneDecryptError(key, user, id, row.cipher, row.nonce);
      forall p
        ensures content == Ok(p)
           <==> |row.nonce| == NONCE_SIZE && Encrypt(key, user, id, p, row.nonce) == Ok(row.cipher)
      {
        DecryptIff(key, user, id, row.cipher, row.nonce, p);
      }
      if content.Ok? {
        assert Encrypt(key, user, id, content.value, row.nonce) == Ok(row.cipher);
      }
    }
  }

  function OpenAll(key: Key, user: Int64, rows: seq<Config>): Result<seq<PlainConfig>> {
    if rows == [] then Ok([])
    else
      var front := OpenAll(key, user, rows[..|rows| - 1]);
      var last := Open(key, user, rows[|rows| - 1]);
      if front.Err? then front
      else if last.Err? then Err(DecryptFailed)
      else Ok(front.value + [last.value])
  }

  function ListPlain(key: Key, db: Db, user: Int64): Result<seq<PlainConfig>> {
    OpenAll(key, user, List(db, user))
  }

  /** The builder handed to the staged create. */
  function Build(key: Key, user: Int64, input: PlainInput, nonce: Nonce, id: Int64): (r: Result<CreateInput>)
    ensures r.Ok? && ValidInput(r.value)
  {
    var cipher := Encrypt(key, user, id, input.content, nonce).value;
    Ok(CreateInput(input.name, cipher, nonce, input.version))
  }

  function CreatePlain(key: Key, db: Db, user: Int64, input: PlainInput,
                       createdAt: Instant, now: Instant, nonce: Nonce): Outcome
  {
    if db.lastId >= MAX_INT64 then Outcome(db, Some(Failed))
    else Outcome(Insert(db, user, Build(key, user, input, nonce, db.lastId + 1).value, createdAt, now), None)
  }

  // ---------- PATCH ----------

  predicate NameChanges(patch: PlainPatch, current: PlainConfig) {
    patch.name.Some? && patch.name.value != current.name
  }

  predicate ContentChanges(patch: PlainPatch, current: PlainConfig) {
    patch.content.Some? && patch.content.value != current.content
  }

  predicate RealChange(patch: PlainPatch, current: PlainConfig) {
    NameChanges(patch, current) || ContentChanges(patch, current)
  }

  /**
   The inner patch one attempt sends after reading `current`: only the fields
   that differ, or a metadata-only compare-and-set when none does.
   */
  function InnerPatch(key: Key, current: PlainConfig, patch: PlainPatch, nonce: Nonce): (inner: UpdatePatch)
    ensures ValidPatch(inner)
    ensures inner.preserveModifiedAt <==> !RealChange(patch, current)
  {
    if RealChange(patch, current) then
      UpdatePatch(if NameChanges(patch, current) then patch.name else None,
                  if ContentChanges(patch, current)
                  then Encrypt(key, current.user, current.id, patch.content.value, nonce).value else NO_BLOB,
                  if ContentChanges(patch, current) then nonce else [],
                  patch.version, false, None)
    else
      UpdatePatch(None, NO_BLOB, [],
                  if patch.version.Some? && patch.version.value != current.version then patch.version else None,
                  true, Some(current.modifiedAt))
  }

  /** A transaction some other request commits while a PATCH is in progress. */
  datatype Rival =
    | RivalCreate(user: Int64, input: CreateInput, createdAt: Instant, now: Instant)
    | RivalUpdate(user: Int64, id: Int64, patch: UpdatePatch, now: Instant)
    | RivalDelete(user: Int64, id: Int64)

  function RivalCommit(db: Db, rival: Rival): Db {
    match rival
    case RivalCreate(user, input, createdAt, now) =>
      if db.lastId < MAX_INT64 && ValidInput(input) then Insert(db, user, input, createdAt, now) else db
    case RivalUpdate(user, id, patch, now) => Update(db, user, id, patch, now).db
    case RivalDelete(user, id) => Delete(db, user, id).db
  }

  function RivalCommits(db: Db, rivals: seq<Rival>): Db {
    if rivals == [] then db
    else RivalCommit(RivalCommits(db, rivals[..|rivals| - 1]), rivals[|rivals| - 1])
  }

  /** What other requests commit around one attempt: before its write, and after a lost write before the next read. */
  datatype Interference = Interference(beforeWrite: seq<Rival>, afterLoss: seq<Rival>)

  datatype PatchRun = PatchRun(db: Db, result: Result<PlainConfig>, tries: nat)

  /**
   The PATCH retry loop. `rivals[k]` is what other requests commit around
   attempt `k`, and `late` what they commit between the last write and the
   read that makes the answer.
   */
  function PatchLoop(key: Key, db: Db, user: Int64, id: Int64, patch: PlainPatch,
                     now: Instant, nonce: Nonce, rivals: seq<Interference>, late: seq<Rival>): PatchRun
    decreases |rivals|
  {
    var current := GetPlain(key, db, user, id);
    if current.Err? then PatchRun(db, current, 1)
    else
      var met := if rivals == [] then db else RivalCommits(db, rivals[0].beforeWrite);
      var wrote := Update(met, user, id, InnerPatch(key, current.value, patch, nonce), now);
      if wrote.error.None? then
        var after := RivalCommits(wrote.db, late);
        PatchRun(after, GetPlain(key, after, user, id), 1)
      else if wrote.error.value == ConfigChanged then
        var next := RivalCommits(met, rivals[0].afterLoss);
        var again := PatchLoop(key, next, user, id, patch, now, nonce, rivals[1..], late);
        again.(tries := again.tries + 1)
      else PatchRun(wrote.db, Err(wrote.error.value), 1)
  }

  /** The table attempt `k` reads, if all before it lost their races. */
  function AfterLosses(db: Db, rivals: seq<Interference>, k: nat): Db
    requires k <= |rivals|
    decreases k
  {
    if k == 0 then db
    else
      var met := RivalCommits(db, rivals[0].beforeWrite);
      AfterLosses(RivalCommits(met, rivals[0].afterLoss), rivals[1..], k - 1)
  }

  /** What other requests commit between the read and the write of attempt `k`; past the end, nothing. */
  function MetBy(read: Db, rivals: seq<Interference>, k: nat): Db {
    if k < |rivals| then RivalCommits(read, rivals[k].beforeWrite) else read
  }

  /**
   However many races were lost before, the run ends as its last attempt does
   on its own: with the error of its read, or with the caller's whole patch
   compared against that read and written to the row it met, or with that
   write's error, which is never a lost race.
   */
  lemma {:induction false} LastAttemptDecides(key: Key, db: Db, user: Int64, id: Int64, patch: PlainPatch,
                                              now: Instant, nonce: Nonce, rivals: seq<Interference>, late: seq<Rival>)
    ensures var run := PatchLoop(key, db, user, id, patch, now, nonce, rivals, late);
            && 1 <= run.tries <= |rivals| + 1
            && var read := AfterLosses(db, rivals, run.tries - 1);
               var current := GetPlain(key, read, user, id);
               if current.Err? then run.db == read && run.result == current
               else
                 var met := MetBy(read, rivals, run.tries - 1);
                 var wrote := Update(met, user, id, InnerPatch(key, current.value, patch, nonce), now);
                 if wrote.error.None?
                 then run.db == RivalCommits(wrote.db, late) && run.result == GetPlain(key, run.db, user, id)
                 else run.db == met && run.result == Err(wrote.error.value) && wrote.error.value == NotFound
    decreases |rivals|
  {
    var run := PatchLoop(key, db, user, id, patch, now, nonce, rivals, late);
    if run.tries > 1 {
      var next := RivalCommits(RivalCommits(db, rivals[0].beforeWrite), rivals[0].afterLoss);
      LastAttemptDecides(key, next, user, id, patch, now, nonce, rivals[1..], late);
      assert MetBy(AfterLosses(db, rivals, run.tries - 1), rivals, run.tries - 1)
          == MetBy(AfterLosses(next, rivals[1..], run.tries - 2), rivals[1..], run.tries - 2);
    }
  }

  /** Every attempt but the last met rivals that moved the row's timestamp between its read and its write. */
  lemma {:induction false} EveryRetryHadARival(key: Key, db: Db, user: Int64, id: Int64, patch: PlainPatch,
                                               now: Instant, nonce: Nonce, rivals: seq<Interference>,
                                               late: seq<Rival>, k: nat)
    requires k + 1 < PatchLoop(key, db, user, id, patch, now, nonce, rivals, late).tries
    ensures k < |rivals|
    ensures var read := AfterLosses(db, rivals, k);
            var met := RivalCommits(read, rivals[k].beforeWrite);
            && Owns(read, user, id) && Owns(met, user, id)
            && read.rows[id].modifiedAt != met.rows[id].modifiedAt
    decreases k
  {
    if k > 0 {
      var next := RivalCommits(RivalCommits(db, rivals[0].beforeWrite), rivals[0].afterLoss);
      EveryRetryHadARival(key, next, user, id, patch, now, nonce, rivals[1..], late, k - 1);
    }
  }

  // ---------- the store object ----------

  class Store {
    const inner: SqliteStore
    const masterKey: Key

    constructor (inner: SqliteStore, masterKey: Key)
      ensures this.inner == inner && this.masterKey == masterKey
    {
      this.inner, this.masterKey := inner, masterKey;
    }

    method CreateConfigPlaintext(user: Int64, input: PlainInput, createdAt: Instant, now: Instant, nonce: Nonce)
      returns (r: Result<PlainConfig>)
      modifies inner
      ensures var done := CreatePlain(masterKey, old(inner.State()), user, input, createdAt, now, nonce);
              && inner.State() == done.db
              && (r.Ok? <==> done.error.None?)
      ensures r.Ok? ==> r == GetPlain(masterKey, inner.State(), user, inner.lastId)
    {
      var key := masterKey;
      var row := inner.CreateConfigWithID(user, (id: Int64) => Build(key, user, input, nonce, id), createdAt, now);
      if row.Err? {
        return Err(row.error);
      }
      r := Ok(PlainConfig(row.value.id, row.value.user, row.value.name, input.content,
                          row.value.version, row.value.createdAt, row.value.modifiedAt));
    }

    method GetConfigPlaintext(user: Int64, id: Int64) returns (r: Result<PlainConfig>)
      ensures r == GetPlain(masterKey, inner.State(), user, id)
    {
      var row := inner.GetConfig(user, id);
      if row.Err? {
        return Err(row.error);
      }
      var content := Decrypt(masterKey, user, id, row.value.cipher, row.value.nonce);
      if content.Err? {
        return Err(DecryptFailed);
      }
      r := Ok(ToPlaintext(row.value, content.value));
    }

    method ListConfigsByUserPlaintext(user: Int64) returns (r: Result<seq<PlainConfig>>)
      ensures r == ListPlain(masterKey, inner.State(), user)
    {
      var rows := inner.ListConfigsByUser(user);
      var out := [];
      for i := 0 to |rows|
        invariant OpenAll(masterKey, user, rows[..i]) == Ok(out)
      {
        assert rows[..i + 1][..i] == rows[..i];
        var content := Decrypt(masterKey, user, rows[i].id, rows[i].cipher, rows[i].nonce);
        if content.Err? {
          OpenAllFails(masterKey, user, rows, i);
          return Err(DecryptFailed);
        }
        out := out + [ToPlaintext(rows[i], content.value)];
      }
      assert rows[..|rows|] == rows;
      r := Ok(out);
    }

    /** Other requests commit these transactions, in this order. */
    method Interfere(rivals: seq<Rival>)
      modifies inner
      ensures inner.State() == RivalCommits(old(inner.State()), rivals)
    {
      for i := 0 to |rivals|
        invariant inner.State() == RivalCommits(old(inner.State()), rivals[..i])
      {
        assert rivals[..i + 1][..i] == rivals[..i];
        match rivals[i] {
          case RivalCreate(user, input, createdAt, now) =>
            var _ := inner.CreateConfigWithID(user, _ => Ok(input), createdAt, now);
          case RivalUpdate(user, id, patch, now) =>
            var _ := inner.UpdateConfig(user, id, patch, now);
          case RivalDelete(user, id) =>
            var _ := inner.DeleteConfig(user, id);
        }
      }
      assert rivals[..|rivals|] == rivals;
    }

    method UpdateConfigPlaintext(user: Int64, id: Int64, patch: PlainPatch, now: Instant, nonce: Nonce,
                                 rivals: seq<Interference>, late: seq<Rival>)
      returns (r: Result<PlainConfig>, tries: nat)
      modifies inner
      ensures PatchRun(inner.State(), r, tries)
           == PatchLoop(masterKey, old(inner.State()), user, id, patch, now, nonce, rivals, late)
    {
      tries := 0;
      var pending := rivals;
      while true
        invariant var rest := PatchLoop(masterKey, inner.State(), user, id, patch, now, nonce, pending, late);
                  rest.(tries := tries + rest.tries)
                  == PatchLoop(masterKey, old(inner.State()), user, id, patch, now, nonce, rivals, late)
        decreases |pending|
      {
        tries := tries + 1;
        var current := GetConfigPlaintext(user, id);
        if current.Err? {
          return current, tries;
        }
        var nameChanged := patch.name.Some? && patch.name.value != current.value.name;
        var contentChanged := patch.content.Some? && patch.content.value != current.value.content;
        if pending != [] {
          Interfere(pending[0].beforeWrite);
        }
        if nameChanged || contentChanged {
          var innerPatch := UpdatePatch(None, NO_BLOB, [], patch.version, false, None);
          if nameChanged {
            innerPatch := innerPatch.(name := patch.name);
          }
          if contentChanged {
            var cipher := Encrypt(masterKey, user, id, patch.content.value, nonce);
            innerPatch := innerPatch.(cipher := cipher.value, nonce := nonce);
          }
          assert innerPatch == InnerPatch(masterKey, current.value, patch, nonce);
          var wrote := inner.UpdateConfig(user, id, innerPatch, now);
          if wrote.Err? {
            return Err(wrote.error), tries;
          }
          Interfere(late);
          r := GetConfigPlaintext(user, id);
          return;
        }
        var innerPatch := UpdatePatch(None, NO_BLOB, [], None, true, Some(current.value.modifiedAt));
        if patch.version.Some? && patch.version.value != current.value.version {
          innerPatch := innerPatch.(version := patch.version);
        }
        assert innerPatch == InnerPatch(masterKey, current.value, patch, nonce);
        var wrote := inner.UpdateConfig(user, id, innerPatch, now);
        if wrote.Err? {
          if wrote.error == ConfigChanged {
            Interfere(pending[0].afterLoss);
            pending := pending[1..];
            continue;
          }
          return Err(wrote.error), tries;
        }
        Interfere(late);
        r := GetConfigPlaintext(user, id);
        return;
      }
    }
  }

  lemma {:induction false} OpenAllFails(key: Key, user: Int64, rows: seq<Config>, i: nat)
    requires i < |rows| && Open(key, user, rows[i]).Err?
    ensures OpenAll(key, user, rows) == Err(DecryptFailed)
  {
    var front := rows[..|rows| - 1];
    if i < |front| {
      OpenAllFails(key, user, front, i);
    } else {
      OpenAllError(key, user, front);
    }
  }

  lemma {:induction false} OpenAllError(key: Key, user: Int64, rows: seq<Config>)
    ensures var all := OpenAll(key, user, rows); all.Err? ==> all.error == DecryptFailed
  {
    if rows != [] {
      OpenAllError(key, user, rows[..|rows| - 1]);
    }
  }
}
