/**
 `tabby-sync user add | rm | rotate`, against the loader: every users.yml
 reached by these commands is accepted, and each command changes exactly the
 tokens it should.
 */
module UserCommands {
  import opened Prelude
  import opened Numerals
  import opened Users

  /** A freshly generated token, as the file records it. */
  datatype Credential = Credential(hash: string, prefix: string)

  predicate Minted(c: Credential) {
    IsHash(c.hash) && c.prefix != "" && Trimmed(c.prefix)
  }

  datatype Command =
    | AddUser(name: string, credential: Credential)
    | RmUser(target: string, confirmed: bool)
    | RotateUser(target: string, credential: Credential)

  // ---------- searching the file ----------

  function FirstIndex(file: seq<Entry>, wanted: Entry -> bool): (r: Option<nat>)
    ensures r.Some? ==> r.value < |file| && wanted(file[r.value]) && forall j :: 0 <= j < r.value ==> !wanted(file[j])
    ensures r.None? ==> forall j :: 0 <= j < |file| ==> !wanted(file[j])
  {
    if file == [] then None
    else if wanted(file[0]) then Some(0)
    else
      var rest := FirstIndex(file[1..], wanted);
      assert forall j :: 1 <= j < |file| ==> file[j] == file[1..][j - 1];
      if rest.Some? then Some(rest.value + 1) else None
  }

  /** A numeric target is an id first; otherwise, or if no id matches, a name. */
  function FindUser(fold: Fold, file: seq<Entry>, target: string): Option<nat> {
    var id := ParseInt(target);
    var byId := if id.Some? then FirstIndex(file, (e: Entry) => e.id == id.value) else None;
    if byId.Some? then byId else FirstIndex(file, (e: Entry) => EqualFold(fold, e.name, target))
  }

  method SearchUser(fold: Fold, file: seq<Entry>, target: string) returns (index: int)
    ensures var found := FindUser(fold, file, target); index == if found.Some? then found.value else -1
    ensures var id := ParseInt(target);
            if id.Some? && exists e :: e in file && e.id == id.value then
              && 0 <= index < |file| && file[index].id == id.value
              && forall j :: 0 <= j < index ==> file[j].id != id.value
            else if exists e :: e in file && EqualFold(fold, e.name, target) then
              && 0 <= index < |file| && EqualFold(fold, file[index].name, target)
              && forall j :: 0 <= j < index ==> !EqualFold(fold, file[j].name, target)
            else index == -1
  {
    var id := ParseInt(target);
    if id.Some? {
      for i := 0 to |file|
        invariant forall j :: 0 <= j < i ==> file[j].id != id.value
      {
        if file[i].id == id.value {
          return i;
        }
      }
    }
    for i := 0 to |file|
      invariant forall j :: 0 <= j < i ==> !EqualFold(fold, file[j].name, target)
    {
      if EqualFold(fold, file[i].name, target) {
        return i;
      }
    }
    index := -1;
  }

  /** The largest id in the file, or 0. */
  function MaxId(file: seq<Entry>): (m: Int64)
    ensures m >= 0 && forall e :: e in file ==> e.id <= m
    ensures m > 0 ==> exists e :: e in file && e.id == m
  {
    if file == [] then 0
    else
      var front, last := MaxId(file[..|file| - 1]), file[|file| - 1];
      assert forall e :: e in file ==> e in file[..|file| - 1] || e == last;
      if last.id > front then last.id else front
  }

  /** int64 addition wraps. */
  function NextId(file: seq<Entry>): (id: Int64)
    ensures id == MaxId(file) + 1 || id == MaxId(file) + 1 - 0x1_0000_0000_0000_0000
  {
    if MaxId(file) == MAX_INT64 then MIN_INT64 else MaxId(file) + 1
  }

  // ---------- the commands ----------

  function Add(fold: Fold, file: seq<Entry>, rawName: string, c: Credential): Option<seq<Entry>> {
    var name := TrimSpace(rawName);
    if name == "" || exists e :: e in file && EqualFold(fold, e.name, name) then None
    else Some(file + [Entry(NextId(file), name, c.prefix, c.hash, false)])
  }

  /** An add is refused exactly for a blank name or one that some user has, up to case. */
  lemma AddRefusedIff(fold: Fold, file: seq<Entry>, rawName: string, c: Credential)
    ensures Add(fold, file, rawName, c).None?
       <==> AllSpace(rawName) || exists e :: e in file && EqualFold(fold, e.name, TrimSpace(rawName))
  {
    TrimmedAwayIff(rawName);
  }

  method RunUserAdd(fold: Fold, file: seq<Entry>, rawName: string, c: Credential) returns (r: Option<seq<Entry>>)
    ensures r == Add(fold, file, rawName, c)
  {
    var name := TrimSpace(rawName);
    if name == "" {
      return None;
    }
    for i := 0 to |file|
      invariant forall j :: 0 <= j < i ==> !EqualFold(fold, file[j].name, name)
    {
      if EqualFold(fold, file[i].name, name) {
        return None;
      }
    }
    var maxId: Int64 := 0;
    for i := 0 to |file|
      invariant maxId == MaxId(file[..i])
    {
      assert file[..i + 1][..i] == file[..i];
      if file[i].id > maxId {
        maxId := file[i].id;
      }
    }
    assert file[..|file|] == file;
    var newId := if maxId == MAX_INT64 then MIN_INT64 else maxId + 1;
    r := Some(file + [Entry(newId, name, c.prefix, c.hash, false)]);
  }

  function Remove(fold: Fold, file: seq<Entry>, rawTarget: string, confirmed: bool): Option<seq<Entry>> {
    var found := FindUser(fold, file, TrimSpace(rawTarget));
    if TrimSpace(rawTarget) == "" || found.None? || !confirmed then None
    else Some(file[..found.value] + file[found.value + 1..])
  }

  function Rotated(file: seq<Entry>, i: nat, c: Credential): seq<Entry>
    requires i < |file|
  {
    file[i := file[i].(hash := c.hash, prefix := c.prefix)]
  }

  function Rotate(fold: Fold, file: seq<Entry>, rawTarget: string, c: Credential): Option<seq<Entry>> {
    var found := FindUser(fold, file, TrimSpace(rawTarget));
    if found.None? then None else Some(Rotated(file, found.value, c))
  }

  /** The file after a command; one that fails leaves it alone. */
  function Execute(fold: Fold, file: seq<Entry>, command: Command): seq<Entry> {
    var result :=
      match command
      case AddUser(name, c) => Add(fold, file, name, c)
      case RmUser(target, confirmed) => Remove(fold, file, target, confirmed)
      case RotateUser(target, c) => Rotate(fold, file, target, c);
    if result.Some? then result.value else file
  }

  function ExecuteAll(fold: Fold, file: seq<Entry>, commands: seq<Command>): seq<Entry> {
    if commands == [] then file
    else Execute(fold, ExecuteAll(fold, file, commands[..|commands| - 1]), commands[|commands| - 1])
  }

  // ---------- files that only commands have touched ----------

  predicate CleanEntry(e: Entry) {
    e.id >= 1 && e.name != "" && Trimmed(e.name) && Minted(Credential(e.hash, e.prefix))
  }

  predicate Apart(fold: Fold, a: Entry, b: Entry) {
    a.id != b.id && a.hash != b.hash && !EqualFold(fold, a.name, b.name)
  }

  ghost predicate Clean(fold: Fold, file: seq<Entry>) {
    && (forall e :: e in file ==> CleanEntry(e))
    && forall i, j :: 0 <= i < j < |file| ==> Apart(fold, file[i], file[j])
  }

  lemma HashIsCanonical(h: string)
    requires IsHash(h)
    ensures ToLower(TrimSpace(h)) == h
  {
    TrimSpaceTrims(h);
  }

  lemma CleanEntryIsNormal(e: Entry)
    requires CleanEntry(e)
    ensures Normalised(e) == e && ValidEntry(e)
  {
    TrimSpaceTrims(e.name);
    TrimSpaceTrims(e.prefix);
    HashIsCanonical(e.hash);
  }

  lemma CleanLoads(fold: Fold, file: seq<Entry>)
    requires Clean(fold, file)
    ensures Loads(file) && NormalisedAll(file) == file
  {
    forall i | 0 <= i < |file|
      ensures NormalisedAll(file)[i] == file[i]
    {
      assert file[i] in file;
      CleanEntryIsNormal(file[i]);
    }
    forall e | e in file
      ensures ValidEntry(e)
    {
      CleanEntryIsNormal(e);
    }
    assert NormalisedAll(file) == file;
    forall i, j | 0 <= i < j < |file|
      ensures file[i].id != file[j].id && file[i].name != file[j].name && file[i].hash != file[j].hash
    {
      assert Apart(fold, file[i], file[j]);
    }
  }

  /** What a command needs: a fresh hash, and for `add` an id to spare. */
  ghost predicate Applicable(file: seq<Entry>, command: Command) {
    && (command.AddUser? ==> MaxId(file) < MAX_INT64)
    && (!command.RmUser? ==> Minted(command.credential) && forall e :: e in file ==> e.hash != command.credential.hash)
  }

  lemma AddKeepsClean(fold: Fold, file: seq<Entry>, name: string, c: Credential)
    requires Clean(fold, file) && Applicable(file, AddUser(name, c))
    ensures Clean(fold, Execute(fold, file, AddUser(name, c)))
  {
    TrimSpaceTrims(name);
    if Add(fold, file, name, c).Some? {
      var file' := Add(fold, file, name, c).value;
      assert forall e :: e in file' ==> e in file || e == file'[|file|];
      forall i, j | 0 <= i < j < |file'|
        ensures Apart(fold, file'[i], file'[j])
      {
        assert file'[i] in file;
      }
    }
  }

  lemma RemoveKeepsClean(fold: Fold, file: seq<Entry>, i: nat)
    requires Clean(fold, file) && i < |file|
    ensures Clean(fold, file[..i] + file[i + 1..])
  {
    var file' := file[..i] + file[i + 1..];
    assert forall k :: 0 <= k < |file'| ==> file'[k] == if k < i then file[k] else file[k + 1];
    forall e | e in file'
      ensures CleanEntry(e)
    {
      assert e in file;
    }
  }

  lemma RotateKeepsClean(fold: Fold, file: seq<Entry>, i: nat, c: Credential)
    requires Clean(fold, file) && i < |file| && Minted(c) && forall e :: e in file ==> e.hash != c.hash
    ensures Clean(fold, Rotated(file, i, c))
  {
    var file' := Rotated(file, i, c);
    assert file[i] in file;
    forall e | e in file'
      ensures CleanEntry(e)
    {
      var k :| 0 <= k < |file'| && file'[k] == e;
      assert file[k] in file;
    }
    forall j, k | 0 <= j < k < |file'|
      ensures Apart(fold, file'[j], file'[k])
    {
      assert Apart(fold, file[j], file[k]) && file[j] in file && file[k] in file;
    }
  }

  lemma CommandKeepsClean(fold: Fold, file: seq<Entry>, command: Command)
    requires Clean(fold, file) && Applicable(file, command)
    ensures Clean(fold, Execute(fold, file, command))
  {
    match command
    case AddUser(name, c) => AddKeepsClean(fold, file, name, c);
    case RmUser(target, _) =>
      var found := FindUser(fold, file, TrimSpace(target));
      if found.Some? { RemoveKeepsClean(fold, file, found.value); }
    case RotateUser(target, c) =>
      var found := FindUser(fold, file, TrimSpace(target));
      if found.Some? { RotateKeepsClean(fold, file, found.value, c); }
  }

  ghost predicate AllApplicable(fold: Fold, file: seq<Entry>, commands: seq<Command>) {
    commands == [] ||
    var front := commands[..|commands| - 1];
    AllApplicable(fold, file, front) && Applicable(ExecuteAll(fold, file, front), commands[|commands| - 1])
  }

  /**
   Every file reached from a clean one (the empty skeleton, or the bootstrap
   file) by any commands is accepted by the loader and indexed without panic.
   */
  lemma {:induction false} ReachableFilesLoad(fold: Fold, file: seq<Entry>, commands: seq<Command>)
    requires Clean(fold, file) && AllApplicable(fold, file, commands)
    ensures Clean(fold, ExecuteAll(fold, file, commands)) && Loads(ExecuteAll(fold, file, commands))
  {
    if commands != [] {
      var front := commands[..|commands| - 1];
      ReachableFilesLoad(fold, file, front);
      CommandKeepsClean(fold, ExecuteAll(fold, file, front), commands[|commands| - 1]);
    }
    CleanLoads(fold, ExecuteAll(fold, file, commands));
  }

  lemma StartingFilesAreClean(fold: Fold, rawName: string, c: Credential)
    requires Minted(c) && TrimSpace(rawName) != ""
    ensures Clean(fold, []) && Clean(fold, [Entry(1, TrimSpace(rawName), c.prefix, c.hash, false)])
  {
    TrimSpaceTrims(rawName);
  }

  // ---------- which tokens work ----------

  lemma ScanHits(users: seq<Entry>, k: nat, hash: string)
    requires UniqueHashes(users) && k < |users| && users[k].hash == hash
    ensures Scan(users, hash) == if users[k].disabled then None else Some(users[k])
  {
    ScanFinds(users, hash);
    var found := Scan(users, hash);
    if found.Some? {
      var j :| 0 <= j < |users| && users[j] == found.value;
      assert j == k;
    } else {
      assert users[k] in users;
    }
  }

  lemma ScanMisses(users: seq<Entry>, hash: string)
    requires forall k :: 0 <= k < |users| ==> users[k].hash != hash
    ensures Scan(users, hash) == None
  {
    ScanFinds(users, hash);
  }

  /** Two user lists that agree on every holder of a hash agree on the scan for it. */
  lemma ScanAgrees(users: seq<Entry>, users': seq<Entry>, hash: string)
    requires UniqueHashes(users) && UniqueHashes(users')
    requires forall u: Entry :: u.hash == hash ==> (u in users <==> u in users')
    ensures Scan(users, hash) == Scan(users', hash)
  {
    if k :| 0 <= k < |users| && users[k].hash == hash {
      assert users[k] in users';
      var j :| 0 <= j < |users'| && users'[j] == users[k];
      ScanHits(users, k, hash);
      ScanHits(users', j, hash);
    } else {
      forall j | 0 <= j < |users'|
        ensures users'[j].hash != hash
      {
        assert users'[j] in users';
      }
      ScanMisses(users, hash);
      ScanMisses(users', hash);
    }
  }

  lemma RotatedNormalises(file: seq<Entry>, i: nat, c: Credential)
    requires i < |file| && Minted(c)
    ensures NormalisedAll(Rotated(file, i, c)) == Rotated(NormalisedAll(file), i, c)
  {
    TrimSpaceTrims(c.prefix);
    HashIsCanonical(c.hash);
  }

  lemma RotatedTokens(file: seq<Entry>, i: nat, c: Credential, hash: string)
    requires Loads(file) && i < |file| && Minted(c) && FreshHash(file, c)
    ensures Loads(Rotated(file, i, c))
    ensures var user := NormalisedAll(file)[i];
            Authenticated(Rotated(file, i, c), hash)
            == if hash == c.hash then (if user.disabled then None else Some(user.(hash := c.hash, prefix := c.prefix)))
               else if hash == user.hash then None
               else Authenticated(file, hash)
  {
    var users, file' := NormalisedAll(file), Rotated(file, i, c);
    var users' := NormalisedAll(file');
    RotatedNormalises(file, i, c);
    assert UniqueHashes(users') && UniqueIdsAndNames(users');
    RotatedStaysValid(file, i, c);
    if hash == c.hash {
      ScanHits(users', i, hash);
    } else if hash == users[i].hash {
      ScanMisses(users', hash);
    } else {
      forall u: Entry | u.hash == hash
        ensures u in users <==> u in users'
      {
        if u in users {
          var k :| 0 <= k < |users| && users[k] == u;
          assert users'[k] == u;
        }
        if u in users' {
          var k :| 0 <= k < |users'| && users'[k] == u;
          assert users[k] == u;
        }
      }
      ScanAgrees(users, users', hash);
    }
  }

  lemma RotatedStaysValid(file: seq<Entry>, i: nat, c: Credential)
    requires ValidEntries(file) && i < |file| && Minted(c)
    ensures ValidEntries(Rotated(file, i, c))
  {
    var file' := Rotated(file, i, c);
    TrimSpaceTrims(c.prefix);
    HashIsCanonical(c.hash);
    forall e | e in file'
      ensures ValidEntry(e)
    {
      var k :| 0 <= k < |file'| && file'[k] == e;
      assert file[k] in file;
    }
  }

  /**
   `user rotate` on any loadable file: the file still loads, the new token is
   that user's, the old one is nobody's, every other token is as before.
   */
  lemma RotateReplacesOneToken(fold: Fold, file: seq<Entry>, target: string, i: nat, c: Credential, hash: string)
    requires Loads(file) && FindUser(fold, file, TrimSpace(target)) == Some(i) && Minted(c) && FreshHash(file, c)
    ensures var file', user := Execute(fold, file, RotateUser(target, c)), NormalisedAll(file)[i];
            && Loads(file') && |file'| == |file|
            && Authenticated(file', hash)
               == if hash == c.hash then
                    (if user.disabled then None else Some(user.(hash := c.hash, prefix := c.prefix)))
                  else if hash == user.hash then None
                  else Authenticated(file, hash)
  {
    RotatedTokens(file, i, c, hash);
  }

  // ---------- removing ----------

  function Without(file: seq<Entry>, i: nat): seq<Entry>
    requires i < |file|
  {
    file[..i] + file[i + 1..]
  }

  lemma WithoutAt(file: seq<Entry>, i: nat)
    requires i < |file|
    ensures var rest := Without(file, i);
            && |rest| == |file| - 1
            && forall k :: 0 <= k < |rest| ==> rest[k] == file[if k < i then k else k + 1]
    ensures NormalisedAll(Without(file, i)) == Without(NormalisedAll(file), i)
  {
    assert NormalisedAll(Without(file, i)) == Without(NormalisedAll(file), i);
  }

  lemma WithoutLoads(file: seq<Entry>, i: nat)
    requires Loads(file) && i < |file|
    ensures Loads(Without(file, i))
  {
    assert forall e :: e in Without(file, i) ==> e in file;
    WithoutAt(file, i);
    WithoutIsUnique(NormalisedAll(file), i);
  }

  lemma WithoutIsUnique(users: seq<Entry>, i: nat)
    requires UniqueIdsAndNames(users) && UniqueHashes(users) && i < |users|
    ensures UniqueIdsAndNames(Without(users, i)) && UniqueHashes(Without(users, i))
  {
    var rest := Without(users, i);
    forall j, k | 0 <= j < k < |rest|
      ensures rest[j].id != rest[k].id && rest[j].name != rest[k].name && rest[j].hash != rest[k].hash
    {
      var j', k' := if j < i then j else j + 1, if k < i then k else k + 1;
      assert rest[j] == users[j'] && rest[k] == users[k'];
    }
  }

  lemma WithoutScan(users: seq<Entry>, i: nat, hash: string)
    requires UniqueHashes(users) && i < |users| && UniqueHashes(Without(users, i))
    ensures Scan(Without(users, i), hash) == if hash == users[i].hash then None else Scan(users, hash)
  {
    var rest := Without(users, i);
    WithoutAt(users, i);
    if hash == users[i].hash {
      ScanMisses(rest, hash);
    } else {
      forall u: Entry | u.hash == hash
        ensures u in users <==> u in rest
      {
        if u in users {
          var k :| 0 <= k < |users| && users[k] == u;
          assert rest[if k < i then k else k - 1] == u;
        }
      }
      ScanAgrees(users, rest, hash);
    }
  }

  /**
   A confirmed `user rm` on any loadable file: one user fewer, the file still
   loads, that user's token is nobody's, every other token is as before.
   */
  lemma RmRevokesOneToken(fold: Fold, file: seq<Entry>, target: string, i: nat, hash: string)
    requires Loads(file) && TrimSpace(target) != "" && FindUser(fold, file, TrimSpace(target)) == Some(i)
    ensures var file' := Execute(fold, file, RmUser(target, true));
            && Loads(file') && |file'| == |file| - 1
            && Authenticated(file', hash)
               == if hash == NormalisedAll(file)[i].hash then None else Authenticated(file, hash)
  {
    assert Execute(fold, file, RmUser(target, true)) == Without(file, i);
    WithoutAt(file, i);
    WithoutLoads(file, i);
    WithoutScan(NormalisedAll(file), i, hash);
  }

  /** A target nobody answers to, or a removal not confirmed, changes nothing. */
  lemma MissedTargetChangesNothing(fold: Fold, file: seq<Entry>, target: string, c: Credential)
    ensures Execute(fold, file, RmUser(target, false)) == file
    ensures FindUser(fold, file, TrimSpace(target)).None? ==>
              && Execute(fold, file, RmUser(target, true)) == file
              && Execute(fold, file, RotateUser(target, c)) == file
  {
  }

  // ---------- adding to a file edited by hand ----------

  lemma IdsAreBounded(file: seq<Entry>)
    ensures forall id :: id in Ids(NormalisedAll(file)) ==> id <= MaxId(file)
  {
    var users := NormalisedAll(file);
    forall id | id in Ids(users)
      ensures id <= MaxId(file)
    {
      var u :| u in users && u.id == id;
      var k :| 0 <= k < |users| && users[k] == u;
      assert file[k] in file;
    }
  }

  lemma HashesAppend(users: seq<Entry>, e: Entry)
    requires UniqueHashes(users) && forall k :: 0 <= k < |users| ==> users[k].hash != e.hash
    ensures UniqueHashes(users + [e])
  {
  }

  lemma LoadsAppend(file: seq<Entry>, e: Entry)
    requires Loads(file) && ValidEntry(e) && Normalised(e) == e && e.id !in Ids(NormalisedAll(file))
    requires forall k :: 0 <= k < |file| ==> NormalisedAll(file)[k].hash != e.hash
    ensures Loads(file + [e]) <==> e.name !in Names(NormalisedAll(file))
  {
    var users := NormalisedAll(file);
    ValidEntriesAppend(file, e);
    assert NormalisedAll(file + [e]) == users + [e];
    AppendUser(users, e);
    HashesAppend(users, e);
  }

  lemma WrappedIdFails(file: seq<Entry>, e: Entry)
    requires e.id < 1
    ensures !Loads(file + [e])
  {
    assert (file + [e])[|file|] == e && !ValidEntry(e);
    assert e in file + [e];
  }

  lemma RepeatedHashFails(file: seq<Entry>, e: Entry)
    requires Normalised(e) == e && exists k :: 0 <= k < |file| && NormalisedAll(file)[k].hash == e.hash
    ensures !Loads(file + [e])
  {
    var k :| 0 <= k < |file| && NormalisedAll(file)[k].hash == e.hash;
    var users := NormalisedAll(file + [e]);
    assert users[k] == NormalisedAll(file)[k] && users[|file|] == e;
  }

  ghost predicate FreshHash(file: seq<Entry>, c: Credential) {
    forall k :: 0 <= k < |file| ==> NormalisedAll(file)[k].hash != c.hash
  }

  /**
   `user add` compares the name with the file's raw names, the loader with
   its trimmed ones; the new id wraps at the int64 maximum. On any loadable
   file, the result of a successful add loads exactly when no existing name
   trims to the new one, an id is to spare and the token's hash is new.
   */
  lemma AddLoadsIff(fold: Fold, file: seq<Entry>, rawName: string, c: Credential)
    requires Loads(file) && Minted(c) && Add(fold, file, rawName, c).Some?
    ensures Loads(Add(fold, file, rawName, c).value)
       <==> TrimSpace(rawName) !in Names(NormalisedAll(file)) && MaxId(file) < MAX_INT64 && FreshHash(file, c)
  {
    var e := Entry(NextId(file), TrimSpace(rawName), c.prefix, c.hash, false);
    TrimSpaceTrims(rawName);
    if MaxId(file) == MAX_INT64 {
      WrappedIdFails(file, e);
    } else {
      CleanEntryIsNormal(e);
      IdsAreBounded(file);
      if FreshHash(file, c) {
        LoadsAppend(file, e);
      } else {
        RepeatedHashFails(file, e);
      }
    }
  }

  lemma AppendScan(users: seq<Entry>, e: Entry, hash: string)
    requires UniqueHashes(users + [e]) && !e.disabled
    ensures Scan(users + [e], hash) == if hash == e.hash then Some(e) else Scan(users, hash)
  {
    var longer := users + [e];
    assert longer[|users|] == e;
    assert forall k :: 0 <= k < |users| ==> longer[k] == users[k];
    if hash == e.hash {
      ScanHits(longer, |users|, hash);
    } else {
      assert forall u: Entry :: u.hash == hash ==> (u in longer <==> u in users);
      ScanAgrees(longer, users, hash);
    }
  }

  /**
   A successful `user add` whose result loads: the new token is the new,
   enabled user's, under an id nobody has, and every other token is as before.
   */
  lemma AddGrantsOneToken(fold: Fold, file: seq<Entry>, rawName: string, c: Credential, hash: string)
    requires Loads(file) && Minted(c) && Add(fold, file, rawName, c).Some? && Loads(Add(fold, file, rawName, c).value)
    ensures var file' := Execute(fold, file, AddUser(rawName, c));
            && |file'| == |file| + 1 && MaxId(file) < MAX_INT64
            && Authenticated(file', hash)
               == if hash == c.hash then Some(Entry(MaxId(file) + 1, TrimSpace(rawName), c.prefix, c.hash, false))
                  else Authenticated(file, hash)
  {
    AddLoadsIff(fold, file, rawName, c);
    var e := Entry(NextId(file), TrimSpace(rawName), c.prefix, c.hash, false);
    TrimSpaceTrims(rawName);
    CleanEntryIsNormal(e);
    assert NormalisedAll(file + [e]) == NormalisedAll(file) + [e];
    AppendScan(NormalisedAll(file), e, hash);
  }

  /** Such a file exists: a name stored with a space in front is added again without it. */
  lemma AddCanSpoilAnEditedFile(fold: Fold, c: Credential, c': Credential)
    requires Minted(c) && Minted(c') && c.hash != c'.hash
    ensures var file := [Entry(1, " bob", c.prefix, c.hash, false)];
            && Loads(file)
            && Add(fold, file, "bob", c').Some?
            && !Loads(Add(fold, file, "bob", c').value)
  {
    var e := Entry(1, " bob", c.prefix, c.hash, false);
    var file := [e];
    TrimSpaceTrims("bob");
    assert TrimLeft(" bob") == TrimLeft("bob") by { assert " bob"[1..] == "bob"; }
    assert TrimSpace(" bob") == "bob";
    CleanEntryIsNormal(e.(name := "bob"));
    assert Normalised(e) == e.(name := "bob");
    assert NormalisedAll(file) == [e.(name := "bob")];
    assert MaxId(file) == 1 by { assert file[..0] == []; }
    assert e.(name := "bob") in NormalisedAll(file);
    AddLoadsIff(fold, file, "bob", c');
  }

  // ---------- ids that come back ----------

  /** Every id some file of the history held. */
  function HeldIds(fold: Fold, file: seq<Entry>, commands: seq<Command>): set<Int64> {
    if commands == [] then Ids(file)
    else HeldIds(fold, file, commands[..|commands| - 1]) + Ids(ExecuteAll(fold, file, commands))
  }

  /** The largest of them, or 0. */
  function HighestHeld(fold: Fold, file: seq<Entry>, commands: seq<Command>): Int64 {
    if commands == [] then MaxId(file)
    else
      var before, now := HighestHeld(fold, file, commands[..|commands| - 1]), MaxId(ExecuteAll(fold, file, commands));
      if now > before then now else before
  }

  /** The ids are 1..n, as in the empty and the bootstrap file. */
  ghost predicate Gapless(ids: set<Int64>, highest: Int64) {
    forall id :: id in ids <==> 1 <= id <= highest
  }

  lemma StartingFilesAreGapless(name: string, c: Credential)
    ensures var file := [Entry(1, name, c.prefix, c.hash, false)];
            Gapless(Ids([]), MaxId([])) && Gapless(Ids(file), MaxId(file))
  {
    var e := Entry(1, name, c.prefix, c.hash, false);
    assert [e][..0] == [] && e in [e];
    assert Ids([e]) == {1};
  }

  lemma IdsUpToMax(file: seq<Entry>)
    ensures forall id :: id in Ids(file) ==> id <= MaxId(file)
    ensures MaxId(file) > 0 ==> MaxId(file) in Ids(file)
  {
  }

  lemma SameIds(file: seq<Entry>, i: nat, c: Credential)
    requires i < |file|
    ensures Ids(Rotated(file, i, c)) == Ids(file)
  {
    var file' := Rotated(file, i, c);
    forall id
      ensures id in Ids(file') <==> id in Ids(file)
    {
      if k :| 0 <= k < |file| && file[k].id == id {
        assert file'[k] in file' && file[k] in file;
      }
    }
  }

  /** A command adds at most the next id. */
  lemma CommandIds(fold: Fold, file: seq<Entry>, command: Command)
    requires command.AddUser? ==> MaxId(file) < MAX_INT64
    ensures forall id :: id in Ids(Execute(fold, file, command)) ==> id in Ids(file) || id == MaxId(file) + 1
  {
    match command
    case AddUser(name, c) =>
      if Add(fold, file, name, c).Some? {
        AppendUser(file, Entry(NextId(file), TrimSpace(name), c.prefix, c.hash, false));
      }
    case RmUser(target, _) =>
      var file' := Execute(fold, file, command);
      assert forall e :: e in file' ==> e in file;
    case RotateUser(target, c) =>
      var found := FindUser(fold, file, TrimSpace(target));
      if found.Some? { SameIds(file, found.value, c); }
  }

  lemma GaplessGrows(held: set<Int64>, highest: Int64, now: set<Int64>, max: Int64)
    requires Gapless(held, highest) && highest >= 0 && max >= 0 && (max > 0 ==> max in now)
    requires forall id :: id in now ==> id <= max && (id in held || id == highest + 1)
    ensures Gapless(held + now, if max > highest then max else highest)
  {
  }

  lemma {:induction false} HeldIsGapless(fold: Fold, file: seq<Entry>, commands: seq<Command>)
    requires Gapless(Ids(file), MaxId(file)) && AllApplicable(fold, file, commands)
    ensures Gapless(HeldIds(fold, file, commands), HighestHeld(fold, file, commands))
    ensures 0 <= MaxId(ExecuteAll(fold, file, commands)) <= HighestHeld(fold, file, commands)
    ensures Ids(ExecuteAll(fold, file, commands)) <= HeldIds(fold, file, commands)
  {
    if commands != [] {
      var front := commands[..|commands| - 1];
      HeldIsGapless(fold, file, front);
      var before, after := ExecuteAll(fold, file, front), ExecuteAll(fold, file, commands);
      var held, highest := HeldIds(fold, file, front), HighestHeld(fold, file, front);
      assert after == Execute(fold, before, commands[|commands| - 1]);
      CommandIds(fold, before, commands[|commands| - 1]);
      IdsUpToMax(after);
      assert forall id :: id in Ids(after) ==> id in held || id == highest + 1;
      GaplessGrows(held, highest, Ids(after), MaxId(after));
    }
  }

  /**
   `rm` leaves the removed user's configurations, so a reused id inherits
   them. In every history, the id the next `add` hands out was held before
   exactly when a larger id than any now in the file was once held.
   */
  lemma IdIsReusedIff(fold: Fold, file: seq<Entry>, commands: seq<Command>)
    requires Gapless(Ids(file), MaxId(file)) && AllApplicable(fold, file, commands)
    requires MaxId(ExecuteAll(fold, file, commands)) < MAX_INT64
    ensures var now, held := ExecuteAll(fold, file, commands), HeldIds(fold, file, commands);
            NextId(now) in held <==> exists id :: id in held && id > MaxId(now)
  {
    HeldIsGapless(fold, file, commands);
  }
}
