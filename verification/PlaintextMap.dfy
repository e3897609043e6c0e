/**
 Sequential refinement: the encrypted store over the SQLite table behaves as a
 plain map from id to owner, name, content, version and times.
 */
module PlaintextMap {
  import opened Prelude
  import opened Envelope
  import opened ConfigStore
  import opened EncryptedStore

  datatype Plain = Plain(user: Int64, name: string, content: seq<Byte>, version: string,
                         createdAt: Instant, modifiedAt: Instant)

  /** The reference store: no keys, no ciphertext, no transactions. */
  datatype PlainStore = PlainStore(rows: map<Int64, Plain>, lastId: Int64)

  datatype Op =
    | DoCreate(user: Int64, input: PlainInput, createdAt: Instant, now: Instant, nonce: Nonce)
    | DoGet(user: Int64, id: Int64)
    | DoList(user: Int64)
    | DoCount(user: Int64)
    | DoPatch(user: Int64, id: Int64, patch: PlainPatch, now: Instant, nonce: Nonce)
    | DoDelete(user: Int64, id: Int64)

  datatype Answer =
    | One(row: Result<PlainConfig>)
    | Many(rows: Result<seq<PlainConfig>>)
    | Count(count: nat)
    | Deleted(error: Option<Error>)

  // ---------- the stack ----------

  function StackStep(key: Key, db: Db, op: Op): (Db, Answer) {
    match op
    case DoCreate(user, input, createdAt, now, nonce) =>
      var done := CreatePlain(key, db, user, input, createdAt, now, nonce);
      (done.db, One(if done.error.Some? then Err(done.error.value) else GetPlain(key, done.db, user, done.db.lastId)))
    case DoGet(user, id) => (db, One(GetPlain(key, db, user, id)))
    case DoList(user) => (db, Many(ListPlain(key, db, user)))
    case DoCount(user) => (db, Count(|OwnedIds(db, user)|))
    case DoPatch(user, id, patch, now, nonce) =>
      var done := PatchLoop(key, db, user, id, patch, now, nonce, [], []);
      (done.db, One(done.result))
    case DoDelete(user, id) =>
      var done := Delete(db, user, id);
      (done.db, Deleted(done.error))
  }

  function StackRun(key: Key, db: Db, ops: seq<Op>): (Db, seq<Answer>)
    decreases |ops|
  {
    if ops == [] then (db, [])
    else
      var (mid, answer) := StackStep(key, db, ops[0]);
      var (end, answers) := StackRun(key, mid, ops[1..]);
      (end, [answer] + answers)
  }

  // ---------- the reference ----------

  function Present(id: Int64, row: Plain): PlainConfig {
    PlainConfig(id, row.user, row.name, row.content, row.version, row.createdAt, row.modifiedAt)
  }

  predicate Has(s: PlainStore, user: Int64, id: Int64) {
    id in s.rows && s.rows[id].user == user
  }

  function PlainGet(s: PlainStore, user: Int64, id: Int64): Result<PlainConfig> {
    if Has(s, user, id) then Ok(Present(id, s.rows[id])) else Err(NotFound)
  }

  function PlainIds(s: PlainStore, user: Int64): set<Int64> {
    set id | id in s.rows && s.rows[id].user == user
  }

  function PlainList(s: PlainStore, user: Int64): (rows: seq<PlainConfig>)
    ensures |rows| == |Ascending(PlainIds(s, user))|
    ensures forall i :: 0 <= i < |rows| ==> Ok(rows[i]) == PlainGet(s, user, Ascending(PlainIds(s, user))[i])
  {
    var ids := Ascending(PlainIds(s, user));
    AscendingOrders(PlainIds(s, user));
    assert forall i :: 0 <= i < |ids| ==> ids[i] in PlainIds(s, user);
    seq(|ids|, i requires 0 <= i < |ids| => assert ids[i] in ids; Present(ids[i], s.rows[ids[i]]))
  }

  function OrElse<T>(field: Option<T>, default: T): T {
    if field.Some? then field.value else default
  }

  /** A whole patch applied at once: `modifiedAt` moves iff name or content really differs. */
  function Apply(row: Plain, patch: PlainPatch, now: Instant): Plain {
    var name, content := OrElse(patch.name, row.name), OrElse(patch.content, row.content);
    row.(name := name, content := content, version := OrElse(patch.version, row.version),
         modifiedAt := if name == row.name && content == row.content
                       then row.modifiedAt else NextModifiedAt(row.modifiedAt, now))
  }

  function PlainStep(s: PlainStore, op: Op): (PlainStore, Answer) {
    match op
    case DoCreate(user, input, createdAt, now, _) =>
      if s.lastId >= MAX_INT64 then (s, One(Err(Failed)))
      else
        var id := s.lastId + 1;
        var row := Plain(user, input.name, input.content, input.version, createdAt, NextModifiedAt(createdAt, now));
        (PlainStore(s.rows[id := row], id), One(Ok(Present(id, row))))
    case DoGet(user, id) => (s, One(PlainGet(s, user, id)))
    case DoList(user) => (s, Many(Ok(PlainList(s, user))))
    case DoCount(user) => (s, Count(|PlainIds(s, user)|))
    case DoPatch(user, id, patch, now, _) =>
      if !Has(s, user, id) then (s, One(Err(NotFound)))
      else
        var row := Apply(s.rows[id], patch, now);
        (s.(rows := s.rows[id := row]), One(Ok(Present(id, row))))
    case DoDelete(user, id) =>
      if Has(s, user, id) then (s.(rows := s.rows - {id}), Deleted(None))
      else (s, Deleted(Some(NotFound)))
  }

  function PlainRun(s: PlainStore, ops: seq<Op>): (PlainStore, seq<Answer>)
    decreases |ops|
  {
    if ops == [] then (s, [])
    else
      var (mid, answer) := PlainStep(s, ops[0]);
      var (end, answers) := PlainRun(mid, ops[1..]);
      (end, [answer] + answers)
  }

  // ---------- the abstraction ----------

  predicate RowOpens(key: Key, id: Int64, row: Row) {
    Decrypt(key, row.user, id, row.cipher, row.nonce).Ok?
  }

  ghost predicate AllOpen(key: Key, db: Db) {
    forall id :: id in db.rows ==> RowOpens(key, id, db.rows[id])
  }

  function PlainOf(key: Key, id: Int64, row: Row): Plain
    requires RowOpens(key, id, row)
  {
    Plain(row.user, row.name, Decrypt(key, row.user, id, row.cipher, row.nonce).value, Scan(id, row).version,
          row.createdAt, row.modifiedAt)
  }

  function Abstract(key: Key, db: Db): PlainStore {
    PlainStore(map id | id in db.rows && RowOpens(key, id, db.rows[id]) :: PlainOf(key, id, db.rows[id]), db.lastId)
  }

  lemma AbstractGet(key: Key, db: Db, user: Int64, id: Int64)
    requires AllOpen(key, db)
    ensures GetPlain(key, db, user, id) == PlainGet(Abstract(key, db), user, id)
  {
  }

  lemma AbstractPut(key: Key, db: Db, id: Int64, row: Row, lastId: Int64)
    requires AllOpen(key, db) && RowOpens(key, id, row)
    ensures var db' := Db(db.rows[id := row], lastId);
            && AllOpen(key, db')
            && Abstract(key, db') == PlainStore(Abstract(key, db).rows[id := PlainOf(key, id, row)], lastId)
  {
    assert Abstract(key, Db(db.rows[id := row], lastId)).rows == Abstract(key, db).rows[id := PlainOf(key, id, row)];
  }

  // ---------- one operation ----------

  lemma CreateRefines(key: Key, db: Db, op: Op)
    requires op.DoCreate? && WellFormed(db) && AllOpen(key, db)
    ensures Refines(key, db, op)
  {
    if db.lastId < MAX_INT64 {
      var id := db.lastId + 1;
      var input := Build(key, op.user, op.input, op.nonce, id).value;
      AbstractPut(key, db, id, InsertedRow(op.user, input, op.createdAt, op.now), id);
    }
  }

  /** Without interference one attempt applies the whole patch. */
  lemma PatchRefines(key: Key, db: Db, op: Op)
    requires op.DoPatch? && WellFormed(db) && AllOpen(key, db)
    ensures Refines(key, db, op)
  {
    var user, id := op.user, op.id;
    AbstractGet(key, db, user, id);
    if Owns(db, user, id) {
      var current := GetPlain(key, db, user, id).value;
      var row := Patched(db.rows[id], InnerPatch(key, current, op.patch, op.nonce), op.now);
      AbstractPut(key, db, id, row, db.lastId);
      assert PlainOf(key, id, row) == Apply(PlainOf(key, id, db.rows[id]), op.patch, op.now);
      AbstractGet(key, db.(rows := db.rows[id := row]), user, id);
    }
  }

  lemma DeleteRefines(key: Key, db: Db, op: Op)
    requires op.DoDelete? && WellFormed(db) && AllOpen(key, db)
    ensures Refines(key, db, op)
  {
    AbstractGet(key, db, op.user, op.id);
    if Owns(db, op.user, op.id) {
      assert Abstract(key, Delete(db, op.user, op.id).db).rows == Abstract(key, db).rows - {op.id};
    }
  }

  lemma ListRefines(key: Key, db: Db, user: Int64)
    requires AllOpen(key, db)
    ensures ListPlain(key, db, user) == Ok(PlainList(Abstract(key, db), user))
  {
    var ids, expected := Ascending(OwnedIds(db, user)), PlainList(Abstract(key, db), user);
    assert PlainIds(Abstract(key, db), user) == OwnedIds(db, user);
    AscendingOrders(OwnedIds(db, user));
    forall i | 0 <= i < |ids|
      ensures GetPlain(key, db, user, ids[i]) == Ok(expected[i])
    {
      AbstractGet(key, db, user, ids[i]);
    }
    forall id | id in ids
      ensures GetPlain(key, db, user, id).Ok?
    {
      var i :| 0 <= i < |ids| && ids[i] == id;
    }
    ListIsPointwise(key, db, user);
    assert ListPlain(key, db, user).value == expected;
  }

  lemma ReadsRefine(key: Key, db: Db, op: Op)
    requires op.DoGet? || op.DoList? || op.DoCount?
    requires WellFormed(db) && AllOpen(key, db)
    ensures Refines(key, db, op)
  {
    match op
    case DoGet(user, id) => AbstractGet(key, db, user, id);
    case DoList(user) => ListRefines(key, db, user);
    case DoCount(user) => assert PlainIds(Abstract(key, db), user) == OwnedIds(db, user);
  }

  /** One operation of the stack is the same operation of the reference. */
  ghost predicate Refines(key: Key, db: Db, op: Op) {
    var (db', answer) := StackStep(key, db, op);
    && WellFormed(db') && AllOpen(key, db')
    && (Abstract(key, db'), answer) == PlainStep(Abstract(key, db), op)
  }

  // ---------- whole runs ----------

  /** Every sequential run answers exactly as the plaintext map does. */
  lemma {:induction false} StackRefinesPlainMap(key: Key, db: Db, ops: seq<Op>)
    requires WellFormed(db) && AllOpen(key, db)
    ensures var (db', answers) := StackRun(key, db, ops);
            && AllOpen(key, db')
            && (Abstract(key, db'), answers) == PlainRun(Abstract(key, db), ops)
    decreases |ops|
  {
    if ops != [] {
      match ops[0] {
        case DoCreate(_, _, _, _, _) => CreateRefines(key, db, ops[0]);
        case DoPatch(_, _, _, _, _) => PatchRefines(key, db, ops[0]);
        case DoDelete(_, _) => DeleteRefines(key, db, ops[0]);
        case _ => ReadsRefine(key, db, ops[0]);
      }
      StackRefinesPlainMap(key, StackStep(key, db, ops[0]).0, ops[1..]);
    }
  }

  /**
   On any table, tampered rows included: the list is the ascending pointwise
   gets, and fails to decrypt exactly when some owned row does.
   */
  lemma ListIsPointwise(key: Key, db: Db, user: Int64)
    ensures var ids := Ascending(OwnedIds(db, user));
            var listed := ListPlain(key, db, user);
            if forall id :: id in ids ==> GetPlain(key, db, user, id).Ok?
            then && listed.Ok? && |listed.value| == |ids|
                 && forall i :: 0 <= i < |ids| ==> Ok(listed.value[i]) == GetPlain(key, db, user, ids[i])
            else listed == Err(DecryptFailed)
  {
    var ids, rows := Ascending(OwnedIds(db, user)), List(db, user);
    AscendingOrders(OwnedIds(db, user));
    forall i | 0 <= i < |ids|
      ensures Open(key, user, rows[i]) == GetPlain(key, db, user, ids[i])
    {
      assert ids[i] in ids;
    }
    if forall id :: id in ids ==> GetPlain(key, db, user, id).Ok? {
      forall i | 0 <= i < |rows|
        ensures Open(key, user, rows[i]).Ok?
      {
        assert ids[i] in ids;
      }
      OpenAllSucceeds(key, user, rows);
    } else {
      var id :| id in ids && GetPlain(key, db, user, id).Err?;
      var i :| 0 <= i < |ids| && ids[i] == id;
      OpenAllFails(key, user, rows, i);
    }
  }

  lemma {:induction false} OpenAllSucceeds(key: Key, user: Int64, rows: seq<Config>)
    requires forall i :: 0 <= i < |rows| ==> Open(key, user, rows[i]).Ok?
    ensures var all := OpenAll(key, user, rows);
            && all.Ok? && |all.value| == |rows|
            && forall i :: 0 <= i < |rows| ==> Ok(all.value[i]) == Open(key, user, rows[i])
  {
    if rows != [] {
      OpenAllSucceeds(key, user, rows[..|rows| - 1]);
    }
  }
}
