/**
 The SQLite store of `internal/store/sqlite`: the committed table as a value,
 each transaction as a function on it, and the store object whose methods run
 those transactions in place.
 */
module ConfigStore {
  import opened Prelude
  import opened Envelope

  /** A row of table `configs`; a NULL version is `None`. */
  datatype Row = Row(user: Int64, name: string, cipher: Blob, nonce: seq<Byte>,
                     version: Option<string>, createdAt: Instant, modifiedAt: Instant)

  /** The committed table and the AUTOINCREMENT counter. */
  datatype Db = Db(rows: map<Int64, Row>, lastId: Int64)

  /** A scanned row, as handed to callers: NULL and "" versions are one state. */
  datatype Config = Config(id: Int64, user: Int64, name: string, cipher: Blob, nonce: seq<Byte>,
                           version: string, createdAt: Instant, modifiedAt: Instant)

  datatype CreateInput = CreateInput(name: string, cipher: Blob, nonce: seq<Byte>, version: string)

  /** `None` leaves a column alone, as does an empty blob for ciphertext and nonce. */
  datatype UpdatePatch = UpdatePatch(name: Option<string>, cipher: Blob, nonce: seq<Byte>, version: Option<string>,
                                     preserveModifiedAt: bool, expectedModifiedAt: Option<Instant>)

  /** What a transaction committed, and the error it reported if it did not. */
  datatype Outcome = Outcome(db: Db, error: Option<Error>)

  const NO_BLOB: Blob := Raw([])
  const SENTINEL: Blob := Raw([0])

  ghost predicate WellFormed(db: Db) {
    && 0 <= db.lastId
    && forall id :: id in db.rows ==> 1 <= id <= db.lastId
  }

  predicate Owns(db: Db, user: Int64, id: Int64) {
    id in db.rows && db.rows[id].user == user
  }

  function OwnedIds(db: Db, user: Int64): set<Int64> {
    set id | id in db.rows && db.rows[id].user == user
  }

  function NextModifiedAt(previous: Instant, now: Instant): (t: Instant)
    ensures t > previous
    ensures now > previous ==> t == now
    ensures now <= previous ==> t == previous + 1_000_000
  {
    if now > previous then now else previous + MILLISECOND
  }

  function NullIfEmpty(s: string): Option<string> {
    if s == "" then None else Some(s)
  }

  function Scan(id: Int64, row: Row): Config {
    Config(id, row.user, row.name, row.cipher, row.nonce,
           if row.version.Some? then row.version.value else "",
           row.createdAt, row.modifiedAt)
  }

  function Get(db: Db, user: Int64, id: Int64): Result<Config> {
    if Owns(db, user, id) then Ok(Scan(id, db.rows[id])) else Err(NotFound)
  }

  // ---------- ORDER BY id ASC ----------

  predicate IsLeast(id: Int64, ids: set<Int64>) {
    id in ids && forall other :: other in ids ==> id <= other
  }

  lemma {:induction false} LeastExists(ids: set<Int64>)
    requires ids != {}
    ensures exists id :: IsLeast(id, ids)
  {
    var any :| any in ids;
    var rest := ids - {any};
    assert ids == rest + {any};
    if rest == {} {
      assert IsLeast(any, ids);
    } else {
      LeastExists(rest);
      var least :| IsLeast(least, rest);
      assert IsLeast(if any <= least then any else least, ids);
    }
  }

  function Ascending(ids: set<Int64>): seq<Int64> {
    if ids == {} then []
    else
      LeastExists(ids);
      var least :| IsLeast(least, ids);
      [least] + Ascending(ids - {least})
  }

  ghost predicate StrictlyAscending(s: seq<Int64>) {
    forall i, j :: 0 <= i < j < |s| ==> s[i] < s[j]
  }

  lemma AscendingUnfolds(ids: set<Int64>) returns (least: Int64)
    requires ids != {}
    ensures IsLeast(least, ids)
    ensures Ascending(ids) == [least] + Ascending(ids - {least})
  {
    LeastExists(ids);
    least :| IsLeast(least, ids);
  }

  lemma {:induction false} AscendingElements(ids: set<Int64>)
    ensures forall id :: id in Ascending(ids) <==> id in ids
    ensures |Ascending(ids)| == |ids|
  {
    if ids != {} {
      var least := AscendingUnfolds(ids);
      AscendingElements(ids - {least});
      assert ids == ids - {least} + {least};
    }
  }

  lemma PrependLeast(least: Int64, tail: seq<Int64>)
    requires StrictlyAscending(tail) && forall i :: 0 <= i < |tail| ==> least < tail[i]
    ensures StrictlyAscending([least] + tail)
  {
  }

  lemma {:induction false} AscendingOrders(ids: set<Int64>)
    ensures forall id :: id in Ascending(ids) <==> id in ids
    ensures StrictlyAscending(Ascending(ids))
    ensures |Ascending(ids)| == |ids|
  {
    AscendingElements(ids);
    if ids != {} {
      var least := AscendingUnfolds(ids);
      AscendingOrders(ids - {least});
      var tail := Ascending(ids - {least});
      forall i | 0 <= i < |tail|
        ensures least < tail[i]
      {
        assert tail[i] in ids - {least};
      }
      PrependLeast(least, tail);
    }
  }

  function ScanAll(db: Db, ids: seq<Int64>): (configs: seq<Config>)
    requires forall id :: id in ids ==> id in db.rows
    ensures |configs| == |ids|
    ensures forall i :: 0 <= i < |ids| ==> configs[i] == Scan(ids[i], db.rows[ids[i]])
  {
    seq(|ids|, i requires 0 <= i < |ids| => assert ids[i] in ids; Scan(ids[i], db.rows[ids[i]]))
  }

  function List(db: Db, user: Int64): seq<Config> {
    AscendingOrders(OwnedIds(db, user));
    ScanAll(db, Ascending(OwnedIds(db, user)))
  }

  // ---------- transactions ----------

  predicate ValidPatch(patch: UpdatePatch) {
    && (Length(patch.cipher) > 0 <==> |patch.nonce| > 0)
    && (if patch.preserveModifiedAt
        then patch.expectedModifiedAt.Some? && patch.name.None? && Length(patch.cipher) == 0
        else patch.expectedModifiedAt.None?)
  }

  /** The row one committed UPDATE leaves behind. */
  function Patched(row: Row, patch: UpdatePatch, now: Instant): Row {
    row.(modifiedAt := if patch.preserveModifiedAt then row.modifiedAt else NextModifiedAt(row.modifiedAt, now),
         name := if patch.name.Some? then patch.name.value else row.name,
         cipher := if Length(patch.cipher) > 0 then patch.cipher else row.cipher,
         nonce := if Length(patch.cipher) > 0 then patch.nonce else row.nonce,
         version := if patch.version.Some? then NullIfEmpty(patch.version.value) else row.version)
  }

  /** One `BEGIN IMMEDIATE` update transaction, validation included. */
  function Update(db: Db, user: Int64, id: Int64, patch: UpdatePatch, now: Instant): Outcome {
    if !ValidPatch(patch) then Outcome(db, Some(InvalidPatch))
    else if !Owns(db, user, id) then Outcome(db, Some(NotFound))
    else if patch.preserveModifiedAt && patch.expectedModifiedAt != Some(db.rows[id].modifiedAt) then
      Outcome(db, Some(ConfigChanged))
    else Outcome(db.(rows := db.rows[id := Patched(db.rows[id], patch, now)]), None)
  }

  /** Why an update is refused: a patch that contradicts itself, a row that is not the caller's, a lost race. */
  lemma UpdateRefusedIff(db: Db, user: Int64, id: Int64, patch: UpdatePatch, now: Instant)
    ensures var error := Update(db, user, id, patch, now).error;
            var half := (Length(patch.cipher) == 0) != (|patch.nonce| == 0);
            var content := patch.name.Some? || Length(patch.cipher) > 0 || |patch.nonce| > 0;
            var invalid := half || patch.preserveModifiedAt != patch.expectedModifiedAt.Some?
                           || (patch.preserveModifiedAt && content);
            var owned := id in db.rows && db.rows[id].user == user;
            && (error == Some(InvalidPatch) <==> invalid)
            && (error == Some(NotFound) <==> !invalid && !owned)
            && (error == Some(ConfigChanged) <==>
                  !invalid && owned && patch.preserveModifiedAt
                  && patch.expectedModifiedAt.value != db.rows[id].modifiedAt)
            && (error.None? <==> error !in {Some(InvalidPatch), Some(NotFound), Some(ConfigChanged)})
  {
  }

  predicate SameContent(row: Row, row': Row) {
    row.name == row'.name && row.cipher == row'.cipher && row.nonce == row'.nonce
  }

  /**
   Whatever patch is sent, an update changes one row or nothing; ciphertext and
   nonce change together; the owner and the creation time stay; a change of
   name or content moves the time forward, and a metadata update leaves it; an
   empty version is stored as none.
   */
  lemma AnyUpdateKeepsTheClock(db: Db, user: Int64, id: Int64, patch: UpdatePatch, now: Instant)
    ensures var done := Update(db, user, id, patch, now);
            if done.error.Some? then done.db == db
            else
              && Owns(db, user, id) && Owns(done.db, user, id)
              && done.db.lastId == db.lastId && done.db.rows - {id} == db.rows - {id}
              && var row, row' := db.rows[id], done.db.rows[id];
                 && row'.createdAt == row.createdAt && row'.modifiedAt >= row.modifiedAt
                 && (!SameContent(row, row') ==> row'.modifiedAt > row.modifiedAt)
                 && (row'.modifiedAt == row.modifiedAt <==> patch.preserveModifiedAt)
                 && (row'.cipher, row'.nonce)
                    == (if Length(patch.cipher) > 0 && |patch.nonce| > 0
                        then (patch.cipher, patch.nonce) else (row.cipher, row.nonce))
                 && (patch.version.None? ==> row'.version == row.version)
                 && (patch.version.Some? ==>
                       row'.version != Some("") && Scan(id, row').version == patch.version.value)
  {
    if Owns(db, user, id) {
      var row := Patched(db.rows[id], patch, now);
      assert db.rows[id := row] - {id} == db.rows - {id};
    }
  }

  function Delete(db: Db, user: Int64, id: Int64): Outcome {
    if Owns(db, user, id) then Outcome(db.(rows := db.rows - {id}), None)
    else Outcome(db, Some(NotFound))
  }

  /** Inside a create transaction: insert the sentinel row to learn the id. */
  function Reserve(db: Db, user: Int64, now: Instant): Option<Db> {
    if db.lastId >= MAX_INT64 then None
    else
      var id := db.lastId + 1;
      Some(Db(db.rows[id := Row(user, "", SENTINEL, [0], None, now, now)], id))
  }

  predicate ValidInput(input: CreateInput) {
    Length(input.cipher) > 0 && |input.nonce| > 0
  }

  /** Inside a create transaction: replace the sentinel with the built row. */
  function Finalise(work: Db, user: Int64, id: Int64, input: CreateInput,
                    createdAt: Instant, now: Instant): Result<Db>
  {
    if !ValidInput(input) then Err(InvalidPatch)
    else if !Owns(work, user, id) then Err(Failed)
    else Ok(work.(rows := work.rows[id := work.rows[id].(
                    name := input.name, cipher := input.cipher, nonce := input.nonce,
                    version := NullIfEmpty(input.version),
                    modifiedAt := NextModifiedAt(createdAt, now))]))
  }

  function InsertedRow(user: Int64, input: CreateInput, createdAt: Instant, now: Instant): Row {
    Row(user, input.name, input.cipher, input.nonce, NullIfEmpty(input.version),
        createdAt, NextModifiedAt(createdAt, now))
  }

  /** The atomic insert that the staged create amounts to. */
  function Insert(db: Db, user: Int64, input: CreateInput, createdAt: Instant, now: Instant): Db
    requires db.lastId < MAX_INT64
  {
    Db(db.rows[db.lastId + 1 := InsertedRow(user, input, createdAt, now)], db.lastId + 1)
  }

  /** Reserving and then finalising commits exactly one fully built row under a fresh id. */
  lemma StagedCreateIsOneInsert(db: Db, user: Int64, input: CreateInput, createdAt: Instant, now: Instant)
    requires ValidInput(input)
    ensures var reserved := Reserve(db, user, createdAt);
            if db.lastId >= MAX_INT64 then reserved.None?
            else && reserved.Some?
                 && Finalise(reserved.value, user, reserved.value.lastId, input, createdAt, now)
                    == Ok(Insert(db, user, input, createdAt, now))
  {
    if db.lastId < MAX_INT64 {
      var work := Reserve(db, user, createdAt).value;
      var id := work.lastId;
      assert work.rows[id := InsertedRow(user, input, createdAt, now)]
          == db.rows[id := InsertedRow(user, input, createdAt, now)];
    }
  }

  // ---------- the store object ----------

  datatype Clause =
    | SetModifiedAt(at: Instant)
    | SetName(name: string)
    | SetCipher(cipher: Blob)
    | SetNonce(nonce: seq<Byte>)
    | SetVersion(version: Option<string>)

  function Assign(row: Row, clause: Clause): Row {
    match clause
    case SetModifiedAt(at) => row.(modifiedAt := at)
    case SetName(name) => row.(name := name)
    case SetCipher(cipher) => row.(cipher := cipher)
    case SetNonce(nonce) => row.(nonce := nonce)
    case SetVersion(version) => row.(version := version)
  }

  /** Runs `UPDATE configs SET <clauses>` on one row. */
  function AssignAll(row: Row, clauses: seq<Clause>): Row {
    if clauses == [] then row
    else Assign(AssignAll(row, clauses[..|clauses| - 1]), clauses[|clauses| - 1])
  }

  function Append(row: Row, clauses: seq<Clause>, clause: Clause): (longer: seq<Clause>)
    ensures |longer| == |clauses| + 1
    ensures AssignAll(row, longer) == Assign(AssignAll(row, clauses), clause)
  {
    assert (clauses + [clause])[..|clauses|] == clauses;
    clauses + [clause]
  }

  /** The SET list of an update, clause by clause. */
  method BuildClauses(row: Row, patch: UpdatePatch, now: Instant) returns (clauses: seq<Clause>)
    ensures AssignAll(row, clauses) == Patched(row, patch, now)
  {
    clauses := [];
    if !patch.preserveModifiedAt {
      clauses := Append(row, clauses, SetModifiedAt(NextModifiedAt(row.modifiedAt, now)));
    }
    ghost var row1 := Patched(row, patch.(name := None, cipher := NO_BLOB, version := None), now);
    assert AssignAll(row, clauses) == row1;
    if patch.name.Some? {
      clauses := Append(row, clauses, SetName(patch.name.value));
    }
    ghost var row2 := Patched(row, patch.(cipher := NO_BLOB, version := None), now);
    assert AssignAll(row, clauses) == row2;
    if Length(patch.cipher) > 0 {
      clauses := Append(row, clauses, SetCipher(patch.cipher));
      clauses := Append(row, clauses, SetNonce(patch.nonce));
    }
    ghost var row3 := Patched(row, patch.(version := None), now);
    assert AssignAll(row, clauses) == row3;
    if patch.version.Some? {
      clauses := Append(row, clauses, SetVersion(NullIfEmpty(patch.version.value)));
    }
  }

  class SqliteStore {
    var rows: map<Int64, Row>
    var lastId: Int64

    function State(): Db
      reads this
    {
      Db(rows, lastId)
    }

    constructor ()
      ensures State() == Db(map[], 0)
    {
      rows, lastId := map[], 0;
    }

    method GetConfig(user: Int64, id: Int64) returns (r: Result<Config>)
      ensures r == Get(State(), user, id)
    {
      if id in rows && rows[id].user == user {
        r := Ok(Scan(id, rows[id]));
      } else {
        r := Err(NotFound);
      }
    }

    /**
     `build` runs once, on the id the committed row will have; every return
     before the final assignment discards the working copy.
     */
    method CreateConfigWithID(user: Int64, build: Int64 -> Result<CreateInput>, createdAt: Instant, now: Instant)
      returns (r: Result<Config>)
      modifies this
      ensures r.Ok? <==>
                old(lastId) < MAX_INT64 && build(old(lastId) + 1).Ok? && ValidInput(build(old(lastId) + 1).value)
      ensures r.Ok? ==>
                && State() == Insert(old(State()), user, build(old(lastId) + 1).value, createdAt, now)
                && r == Get(State(), user, lastId)
                && createdAt == r.value.createdAt < r.value.modifiedAt
      ensures r.Err? ==>
                && State() == old(State())
                && (old(lastId) < MAX_INT64 ==>
                      r.error == if build(old(lastId) + 1).Err? then build(old(lastId) + 1).error else InvalidPatch)
    {
      if lastId >= MAX_INT64 {
        return Err(Failed);
      }
      var id := lastId + 1;
      var work := rows[id := Row(user, "", SENTINEL, [0], None, createdAt, createdAt)];
      var built := build(id);
      if built.Err? {
        return Err(built.error);
      }
      var input := built.value;
      if Length(input.cipher) == 0 || |input.nonce| == 0 {
        return Err(InvalidPatch);
      }
      var modifiedAt := NextModifiedAt(createdAt, now);
      work := work[id := work[id].(name := input.name, cipher := input.cipher, nonce := input.nonce,
                                   version := NullIfEmpty(input.version), modifiedAt := modifiedAt)];
      r := Ok(Scan(id, work[id]));
      StagedCreateIsOneInsert(State(), user, input, createdAt, now);
      rows, lastId := work, id;
    }

    method ListConfigsByUser(user: Int64) returns (out: seq<Config>)
      ensures out == List(State(), user)
    {
      var ids := Ascending(OwnedIds(State(), user));
      AscendingOrders(OwnedIds(State(), user));
      out := [];
      for i := 0 to |ids|
        invariant |out| == i
        invariant forall k :: 0 <= k < i ==> ids[k] in rows && out[k] == Scan(ids[k], rows[ids[k]])
      {
        assert ids[i] in ids;
        out := out + [Scan(ids[i], rows[ids[i]])];
      }
    }

    /** Validates, compares, builds the SET list and runs it against the one row. */
    method UpdateConfig(user: Int64, id: Int64, patch: UpdatePatch, now: Instant) returns (r: Result<Config>)
      modifies this
      ensures State() == Update(old(State()), user, id, patch, now).db
      ensures var error := Update(old(State()), user, id, patch, now).error;
              r == if error.Some? then Err(error.value) else Get(State(), user, id)
    {
      var hasCipher := Length(patch.cipher) > 0;
      var hasNonce := |patch.nonce| > 0;
      if hasCipher != hasNonce {
        return Err(InvalidPatch);
      }
      if patch.preserveModifiedAt {
        if patch.expectedModifiedAt.None? || patch.name.Some? || hasCipher {
          return Err(InvalidPatch);
        }
      } else if patch.expectedModifiedAt.Some? {
        return Err(InvalidPatch);
      }
      if id !in rows || rows[id].user != user {
        return Err(NotFound);
      }
      var oldModifiedAt := rows[id].modifiedAt;
      if patch.preserveModifiedAt && oldModifiedAt != patch.expectedModifiedAt.value {
        return Err(ConfigChanged);
      }
      var clauses := BuildClauses(rows[id], patch, now);
      if |clauses| > 0 {
        rows := rows[id := AssignAll(rows[id], clauses)];
      } else {
        assert rows[id := rows[id]] == rows;
      }
      r := GetConfig(user, id);
    }

    method DeleteConfig(user: Int64, id: Int64) returns (error: Option<Error>)
      modifies this
      ensures Outcome(State(), error) == Delete(old(State()), user, id)
    {
      if id in rows && rows[id].user == user {
        rows := rows - {id};
        error := None;
      } else {
        error := Some(NotFound);
      }
    }

    method CountConfigsByUser(user: Int64) returns (count: nat)
      ensures count == |OwnedIds(State(), user)|
    {
      var owned := set id | id in rows && rows[id].user == user;
      assert owned == OwnedIds(State(), user);
      count := |owned|;
    }
  }
}
