/**
 Schema migrations: the loader that orders the embedded files, and any
 number of runners applying them to one database, each migration in its own
 `BEGIN IMMEDIATE` transaction, with a failure possible at any statement.
 */
module Migrations {
  import opened Prelude
  import opened Numerals

  datatype Migration = Migration(version: nat, name: string, statements: seq<string>)

  // ---------- loading ----------

  datatype File = File(name: string, isDir: bool, statements: seq<string>)

  /** `^([0-9]{3})_([a-z0-9._-]+)\.sql$` */
  predicate IsMigrationName(name: string) {
    && |name| >= 9 && name[|name| - 4..] == ".sql" && name[3] == '_'
    && IsDigit(name[0]) && IsDigit(name[1]) && IsDigit(name[2])
    && forall i :: 4 <= i < |name| - 4 ==> 'a' <= name[i] <= 'z' || IsDigit(name[i]) || name[i] in {'.', '_', '-'}
  }

  function ToMigration(f: File): Migration
    requires IsMigrationName(f.name)
  {
    Migration(DigitsValue(f.name[..3]), f.name[4..|f.name| - 4], f.statements)
  }

  /** Directories are skipped; any other entry must match the pattern. */
  predicate Accepted(f: File) {
    f.isDir || IsMigrationName(f.name)
  }

  predicate WellNamed(files: seq<File>) {
    forall f :: f in files ==> Accepted(f)
  }

  /** The migrations among the files, in directory order. */
  function Parsed(files: seq<File>): seq<Migration> {
    if files == [] then []
    else
      var front, last := Parsed(files[..|files| - 1]), files[|files| - 1];
      if last.isDir || !IsMigrationName(last.name) then front else front + [ToMigration(last)]
  }

  function DigitOf(c: char): int {
    c as int - '0' as int
  }

  /** The migration is what the file says: its three digits, the rest of its name, its statements. */
  predicate IsMigrationOf(m: Migration, f: File) {
    && !f.isDir && m.statements == f.statements
    && |f.name| >= 4 && IsDigit(f.name[0]) && IsDigit(f.name[1]) && IsDigit(f.name[2])
    && m.version == 100 * DigitOf(f.name[0]) + 10 * DigitOf(f.name[1]) + DigitOf(f.name[2])
    && f.name[3..] == "_" + m.name + ".sql"
  }

  lemma ThreeDigits(s: string)
    requires |s| == 3 && IsDigit(s[0]) && IsDigit(s[1]) && IsDigit(s[2])
    ensures DigitsValue(s) == 100 * DigitOf(s[0]) + 10 * DigitOf(s[1]) + DigitOf(s[2])
  {
    assert s[..2][..1] == [s[0]] && [s[0]][..0] == [];
    assert DigitsValue([s[0]]) == DigitOf(s[0]);
    assert DigitsValue(s[..2]) == DigitsValue([s[0]]) * 10 + DigitOf(s[1]);
  }

  lemma ToMigrationIsOf(f: File)
    requires IsMigrationName(f.name) && !f.isDir
    ensures IsMigrationOf(ToMigration(f), f)
  {
    ThreeDigits(f.name[..3]);
    var stem := f.name[4..|f.name| - 4];
    assert f.name[3..] == "_" + stem + ".sql";
  }

  /** Every migration comes from a file, and every migration file is there. */
  lemma {:induction false} ParsedFrom(files: seq<File>)
    ensures forall m :: m in Parsed(files) ==> exists f :: f in files && IsMigrationOf(m, f)
    ensures forall f :: f in files && !f.isDir && IsMigrationName(f.name) ==>
              exists m :: m in Parsed(files) && IsMigrationOf(m, f)
  {
    if files != [] {
      var front, last := files[..|files| - 1], files[|files| - 1];
      ParsedFrom(front);
      assert forall f :: f in files <==> f in front || f == last;
      if !last.isDir && IsMigrationName(last.name) {
        ToMigrationIsOf(last);
      }
    }
  }

  predicate IsStem(stem: string) {
    && stem != ""
    && forall i :: 0 <= i < |stem| ==>
         'a' <= stem[i] <= 'z' || '0' <= stem[i] <= '9' || stem[i] == '.' || stem[i] == '_' || stem[i] == '-'
  }

  /** The name a migration file is written under. */
  function FileName(version: nat, stem: string): string
    requires version < 1000
  {
    [DigitChar(version / 100), DigitChar(version / 10 % 10), DigitChar(version % 10)] + "_" + stem + ".sql"
  }

  lemma FileNameParses(version: nat, stem: string, statements: seq<string>)
    requires version < 1000 && IsStem(stem)
    ensures IsMigrationName(FileName(version, stem))
    ensures ToMigration(File(FileName(version, stem), false, statements)) == Migration(version, stem, statements)
  {
    var name := FileName(version, stem);
    FileNameShape(version, stem);
    ThreeDigits(name[..3]);
    assert 100 * (version / 100) + 10 * (version / 10 % 10) + version % 10 == version;
  }

  lemma FileNameShape(version: nat, stem: string)
    requires version < 1000
    ensures var name := FileName(version, stem);
            && |name| == |stem| + 8 && name[|name| - 4..] == ".sql" && name[4..|name| - 4] == stem
            && name[..4] == [DigitChar(version / 100), DigitChar(version / 10 % 10), DigitChar(version % 10), '_']
  {
  }

  lemma ParsesAsFileName(name: string)
    requires IsMigrationName(name)
    ensures var m := ToMigration(File(name, false, []));
            m.version < 1000 && IsStem(m.name) && name == FileName(m.version, m.name)
  {
    ThreeDigits(name[..3]);
    DigitsApart(DigitOf(name[0]), DigitOf(name[1]), DigitOf(name[2]));
    var stem := name[4..|name| - 4];
    assert |stem| > 0 && forall i :: 0 <= i < |stem| ==> stem[i] == name[i + 4];
    assert name[..3] == [name[0], name[1], name[2]];
    assert name == name[..3] + "_" + stem + name[|name| - 4..];
  }

  lemma DigitsApart(a: int, b: int, c: int)
    requires 0 <= a < 10 && 0 <= b < 10 && 0 <= c < 10
    ensures var v := 100 * a + 10 * b + c;
            v < 1000 && v / 100 == a && v / 10 % 10 == b && v % 10 == c
  {
  }

  /** The names the loader accepts are the rendered ones, and reading undoes rendering. */
  lemma AcceptedNamesAreRendered(name: string)
    ensures IsMigrationName(name)
       <==> exists version: nat, stem: string :: version < 1000 && IsStem(stem) && name == FileName(version, stem)
  {
    if IsMigrationName(name) {
      ParsesAsFileName(name);
    }
    if version: nat, stem: string :| version < 1000 && IsStem(stem) && name == FileName(version, stem) {
      FileNameParses(version, stem, []);
    }
  }

  predicate Contiguous(migs: seq<Migration>) {
    forall i :: 0 <= i < |migs| ==> migs[i].version == i + 1
  }

  /** No two migrations share a version. */
  predicate Distinct(migs: seq<Migration>) {
    migs == [] || ((forall m :: m in migs[1..] ==> m.version != migs[0].version) && Distinct(migs[1..]))
  }

  /** The versions are 1..n, in some order. */
  predicate IsPermutation(migs: seq<Migration>) {
    Distinct(migs) && forall m :: m in migs ==> 1 <= m.version <= |migs|
  }

  predicate Ascends(migs: seq<Migration>) {
    migs == [] || ((forall m :: m in migs[1..] ==> migs[0].version <= m.version) && Ascends(migs[1..]))
  }

  function Insert(sorted: seq<Migration>, m: Migration): (r: seq<Migration>)
    ensures |r| == |sorted| + 1 && forall x :: x in r <==> x in sorted || x == m
  {
    if sorted == [] || m.version < sorted[0].version then [m] + sorted
    else [sorted[0]] + Insert(sorted[1..], m)
  }

  function Sort(migs: seq<Migration>): (r: seq<Migration>)
    ensures |r| == |migs| && forall x :: x in r <==> x in migs
  {
    if migs == [] then [] else Insert(Sort(migs[1..]), migs[0])
  }

  lemma {:induction false} InsertAscends(sorted: seq<Migration>, m: Migration)
    requires Ascends(sorted)
    ensures Ascends(Insert(sorted, m))
  {
    var r := Insert(sorted, m);
    if sorted == [] || m.version < sorted[0].version {
      assert r[1..] == sorted;
    } else {
      InsertAscends(sorted[1..], m);
      assert r[1..] == Insert(sorted[1..], m);
    }
  }

  lemma {:induction false} InsertDistinct(sorted: seq<Migration>, m: Migration)
    ensures Distinct(Insert(sorted, m)) <==> Distinct(sorted) && forall x :: x in sorted ==> x.version != m.version
  {
    var r := Insert(sorted, m);
    if sorted == [] || m.version < sorted[0].version {
      assert r[1..] == sorted;
    } else {
      InsertDistinct(sorted[1..], m);
      assert r[1..] == Insert(sorted[1..], m);
    }
  }

  lemma {:induction false} InsertAdds(sorted: seq<Migration>, m: Migration)
    ensures multiset(Insert(sorted, m)) == multiset(sorted) + multiset{m}
  {
    if !(sorted == [] || m.version < sorted[0].version) {
      InsertAdds(sorted[1..], m);
      assert sorted == [sorted[0]] + sorted[1..];
    }
  }

  lemma {:induction false} SortSorts(migs: seq<Migration>)
    ensures Ascends(Sort(migs)) && (Distinct(Sort(migs)) <==> Distinct(migs))
  {
    if migs != [] {
      var rest := Sort(migs[1..]);
      SortSorts(migs[1..]);
      InsertAscends(rest, migs[0]);
      InsertDistinct(rest, migs[0]);
    }
  }

  lemma {:induction false} SortPermutes(migs: seq<Migration>)
    ensures multiset(Sort(migs)) == multiset(migs)
  {
    if migs != [] {
      SortPermutes(migs[1..]);
      InsertAdds(Sort(migs[1..]), migs[0]);
      assert migs == [migs[0]] + migs[1..];
    }
  }

  /** A strictly ascending list climbs by at least one per entry. */
  lemma {:induction false} AscendingClimbs(migs: seq<Migration>)
    requires Ascends(migs) && Distinct(migs) && migs != []
    ensures migs[0].version + |migs| - 1 <= migs[|migs| - 1].version
  {
    var rest := migs[1..];
    if rest != [] {
      AscendingClimbs(rest);
      assert rest[0] in rest && rest[|rest| - 1] == migs[|migs| - 1];
    }
  }

  /** One that fits between `from` and its own length therefore fills it without gaps. */
  lemma {:induction false} AscendingFills(migs: seq<Migration>, from: nat)
    requires Ascends(migs) && Distinct(migs)
    requires forall m :: m in migs ==> from <= m.version < from + |migs|
    ensures forall i :: 0 <= i < |migs| ==> migs[i].version == from + i
  {
    if migs != [] {
      var rest := migs[1..];
      AscendingClimbs(migs);
      assert migs[|migs| - 1] in migs && migs[0] in migs;
      AscendingFills(rest, from + 1);
      assert forall i :: 0 < i < |migs| ==> migs[i] == rest[i - 1];
    }
  }

  lemma {:induction false} ContiguousIsDistinct(migs: seq<Migration>, from: nat)
    requires forall i :: 0 <= i < |migs| ==> migs[i].version == from + i
    ensures Distinct(migs)
  {
    if migs != [] {
      ContiguousIsDistinct(migs[1..], from + 1);
    }
  }

  /** The check after the sort passes exactly when the versions are a permutation of 1..n. */
  lemma ContiguousIffPermutation(migs: seq<Migration>)
    ensures Contiguous(Sort(migs)) <==> IsPermutation(migs)
  {
    SortSorts(migs);
    if IsPermutation(migs) {
      AscendingFills(Sort(migs), 1);
    }
    if Contiguous(Sort(migs)) {
      ContiguousIsDistinct(Sort(migs), 1);
    }
  }

  method ParseFiles(files: seq<File>) returns (r: Option<seq<Migration>>)
    ensures r.Some? <==> WellNamed(files)
    ensures r.Some? ==> r.value == Parsed(files)
  {
    var migs: seq<Migration> := [];
    for i := 0 to |files|
      invariant WellNamed(files[..i]) && migs == Parsed(files[..i])
    {
      var f := files[i];
      assert f in files && files[..i + 1] == files[..i] + [f] && files[..i + 1][..i] == files[..i];
      if !Accepted(f) {
        return None;
      }
      if !f.isDir {
        migs := migs + [ToMigration(f)];
      }
    }
    assert files[..|files|] == files;
    r := Some(migs);
  }

  method CheckVersions(migs: seq<Migration>) returns (ok: bool)
    ensures ok <==> Contiguous(migs)
  {
    for i := 0 to |migs|
      invariant forall k :: 0 <= k < i ==> migs[k].version == k + 1
    {
      if migs[i].version != i + 1 {
        return false;
      }
    }
    ok := true;
  }

  /**
   The loader accepts exactly when every file name matches and the versions
   are a permutation of 1..n; the result is those migrations in order.
   */
  method LoadMigrations(files: seq<File>) returns (r: Option<seq<Migration>>)
    ensures r.Some? <==> WellNamed(files) && IsPermutation(Parsed(files))
    ensures r.Some? ==> multiset(r.value) == multiset(Parsed(files)) && Contiguous(r.value)
    ensures r.Some? ==> forall m :: m in r.value ==> exists f :: f in files && IsMigrationOf(m, f)
    ensures r.Some? ==> forall f :: f in files && !f.isDir ==> exists m :: m in r.value && IsMigrationOf(m, f)
  {
    ParsedFrom(files);
    var parsed := ParseFiles(files);
    if parsed.None? {
      return None;
    }
    SortPermutes(parsed.value);
    ContiguousIffPermutation(parsed.value);
    var migs := Sort(parsed.value);
    var ok := CheckVersions(migs);
    r := if ok then Some(migs) else None;
  }

  // ---------- running ----------

  /** One SQL statement; `None` is an SQL error. */
  type Exec<!S> = (S, string) -> Option<S>

  function RunAll<S>(exec: Exec<S>, schema: S, statements: seq<string>): Option<S> {
    if statements == [] then Some(schema)
    else
      var front := RunAll(exec, schema, statements[..|statements| - 1]);
      if front.None? then None else exec(front.value, statements[|statements| - 1])
  }

  /** Running statements in order: first these, then those. */
  lemma {:induction false} RunAllComposes<S>(exec: Exec<S>, schema: S, first: seq<string>, second: seq<string>)
    ensures var mid := RunAll(exec, schema, first);
            RunAll(exec, schema, first + second) == if mid.None? then None else RunAll(exec, mid.value, second)
  {
    if second == [] {
      assert first + second == first;
    } else {
      var fewer := second[..|second| - 1];
      assert (first + second)[..|first + second| - 1] == first + fewer;
      RunAllComposes(exec, schema, first, fewer);
    }
  }

  /** The schema after the first `k` migrations, in order, each once. */
  function SchemaAfter<S>(exec: Exec<S>, migs: seq<Migration>, schema: S, k: nat): Option<S>
    requires k <= |migs|
  {
    if k == 0 then Some(schema)
    else
      var before := SchemaAfter(exec, migs, schema, k - 1);
      if before.None? then None else RunAll(exec, before.value, migs[k - 1].statements)
  }

  function FirstVersions(k: nat): (vs: set<int>)
    ensures |vs| == k && forall v :: v in vs <==> 1 <= v <= k
  {
    if k == 0 then {} else FirstVersions(k - 1) + {k}
  }

  /** Recorded versions are 1..k and the schema is those migrations in order. */
  ghost predicate InStep<S>(exec: Exec<S>, migs: seq<Migration>, initial: S, recorded: set<int>, schema: S) {
    && |recorded| <= |migs| && recorded == FirstVersions(|recorded|)
    && SchemaAfter(exec, migs, initial, |recorded|) == Some(schema)
  }

  // ---------- one runner alone ----------

  datatype Upgraded<S> = Upgraded(recorded: set<int>, schema: S, ok: bool)

  /** One migration in its transaction: all of it, or nothing. */
  function ApplyOne<S>(exec: Exec<S>, m: Migration, recorded: set<int>, schema: S): Upgraded<S> {
    var work := RunAll(exec, schema, m.statements);
    if work.None? || m.version in recorded then Upgraded(recorded, schema, false)
    else Upgraded(recorded + {m.version}, work.value, true)
  }

  /** The first `i` turns of the runner's loop. */
  function Upgrade<S>(exec: Exec<S>, migs: seq<Migration>, recorded: set<int>, schema: S, i: nat): Upgraded<S>
    requires i <= |migs|
  {
    if i == 0 then Upgraded(recorded, schema, true)
    else
      var before := Upgrade(exec, migs, recorded, schema, i - 1);
      if !before.ok || migs[i - 1].version in recorded then before
      else ApplyOne(exec, migs[i - 1], before.recorded, before.schema)
  }

  lemma {:induction false} FailureStays<S>(exec: Exec<S>, migs: seq<Migration>, recorded: set<int>, schema: S,
                                           i: nat, n: nat)
    requires i <= n <= |migs| && !Upgrade(exec, migs, recorded, schema, i).ok
    ensures Upgrade(exec, migs, recorded, schema, n) == Upgrade(exec, migs, recorded, schema, i)
  {
    if i < n {
      FailureStays(exec, migs, recorded, schema, i, n - 1);
    }
  }

  class SchemaStore<S> {
    var recorded: set<int>
    var schema: S

    constructor (initial: S)
      ensures recorded == {} && schema == initial
    {
      recorded, schema := {}, initial;
    }

    method ApplyMigration(exec: Exec<S>, m: Migration) returns (ok: bool)
      modifies this
      ensures Upgraded(recorded, schema, ok) == ApplyOne(exec, m, old(recorded), old(schema))
      ensures if ok then |recorded| == |old(recorded)| + 1 else recorded == old(recorded) && schema == old(schema)
    {
      var work := schema;
      for i := 0 to |m.statements|
        invariant RunAll(exec, schema, m.statements[..i]) == Some(work)
        invariant recorded == old(recorded) && schema == old(schema)
      {
        assert m.statements[..i + 1][..i] == m.statements[..i];
        var after := exec(work, m.statements[i]);
        if after.None? {
          RunStopsAt(exec, schema, m.statements, i + 1);
          return false;
        }
        work := after.value;
      }
      assert m.statements[..|m.statements|] == m.statements;
      if m.version in recorded {
        return false;
      }
      recorded, schema, ok := recorded + {m.version}, work, true;
    }

    method ApplyMigrations(exec: Exec<S>, migs: seq<Migration>) returns (ok: bool)
      modifies this
      ensures Upgraded(recorded, schema, ok) == Upgrade(exec, migs, old(recorded), old(schema), |migs|)
    {
      var applied := recorded;
      for i := 0 to |migs|
        invariant Upgraded(recorded, schema, true) == Upgrade(exec, migs, old(recorded), old(schema), i)
      {
        if migs[i].version !in applied {
          var done := ApplyMigration(exec, migs[i]);
          if !done {
            FailureStays(exec, migs, old(recorded), old(schema), i + 1, |migs|);
            return false;
          }
        }
      }
      ok := true;
    }
  }

  lemma {:induction false} RunStopsAt<S>(exec: Exec<S>, schema: S, statements: seq<string>, i: nat)
    requires i <= |statements| && RunAll(exec, schema, statements[..i]).None?
    ensures RunAll(exec, schema, statements).None?
    decreases |statements|
  {
    if i < |statements| {
      assert statements[..|statements| - 1][..i] == statements[..i];
      RunStopsAt(exec, schema, statements[..|statements| - 1], i);
    } else {
      assert statements[..i] == statements;
    }
  }

  lemma ApplyOneStaysInStep<S>(exec: Exec<S>, migs: seq<Migration>, initial: S, recorded: set<int>, schema: S)
    requires Contiguous(migs) && InStep(exec, migs, initial, recorded, schema) && |recorded| < |migs|
    ensures
      var r := ApplyOne(exec, migs[|recorded|], recorded, schema);
      && InStep(exec, migs, initial, r.recorded, r.schema)
      && (r.ok <==> SchemaAfter(exec, migs, initial, |recorded| + 1).Some?)
      && (r.ok ==> |r.recorded| == |recorded| + 1)
  {
    var k := |recorded|;
    assert migs[k].version == k + 1;
    assert k + 1 !in FirstVersions(k);
    assert recorded + {k + 1} == FirstVersions(k + 1);
  }

  lemma {:induction false} SkipsRecorded<S>(exec: Exec<S>, migs: seq<Migration>, recorded: set<int>, schema: S, i: nat)
    requires Contiguous(migs) && i <= |recorded| <= |migs| && recorded == FirstVersions(|recorded|)
    ensures Upgrade(exec, migs, recorded, schema, i) == Upgraded(recorded, schema, true)
  {
    if i > 0 {
      SkipsRecorded(exec, migs, recorded, schema, i - 1);
      assert migs[i - 1].version == i;
    }
  }

  lemma AppliesPending<S>(exec: Exec<S>, migs: seq<Migration>, recorded: set<int>, schema: S, i: nat)
    requires Contiguous(migs) && |recorded| <= i < |migs| && recorded == FirstVersions(|recorded|)
    ensures
      var before := Upgrade(exec, migs, recorded, schema, i);
      Upgrade(exec, migs, recorded, schema, i + 1)
      == if before.ok then ApplyOne(exec, migs[i], before.recorded, before.schema) else before
  {
    assert migs[i].version == i + 1;
  }

  /**
   From a database in step, a runner alone stays in step whatever fails, it
   succeeds exactly when every pending migration does, and it then leaves
   nothing pending; with nothing pending it changes nothing.
   */
  lemma {:induction false} UpgradeStaysInStep<S>(exec: Exec<S>, migs: seq<Migration>, initial: S,
                                                 recorded: set<int>, schema: S, i: nat)
    requires Contiguous(migs) && InStep(exec, migs, initial, recorded, schema) && |recorded| <= i <= |migs|
    ensures
      var r := Upgrade(exec, migs, recorded, schema, i);
      && InStep(exec, migs, initial, r.recorded, r.schema)
      && (r.ok <==> SchemaAfter(exec, migs, initial, i).Some?)
      && (r.ok ==> |r.recorded| == i)
      && (|recorded| == i ==> r == Upgraded(recorded, schema, true))
    decreases i
  {
    if i == |recorded| {
      SkipsRecorded(exec, migs, recorded, schema, i);
    } else {
      UpgradeStaysInStep(exec, migs, initial, recorded, schema, i - 1);
      AppliesPending(exec, migs, recorded, schema, i - 1);
      var before := Upgrade(exec, migs, recorded, schema, i - 1);
      if before.ok {
        ApplyOneStaysInStep(exec, migs, initial, before.recorded, before.schema);
      }
    }
  }

  // ---------- any number of runners ----------

  /** Where a runner stands: `next` indexes the migration list, `applied` is the set it read at its start. */
  datatype Pc =
    | Looping(next: nat, applied: set<int>)
    | InTransaction(next: nat, applied: set<int>, done: nat)
    | Finished
    | Stopped

  datatype Transaction<S> = Transaction(owner: nat, work: S)

  datatype Database<S> = Database(recorded: set<int>, schema: S, open: Option<Transaction<S>>, runners: map<nat, Pc>)

  datatype Step =
    | Start(p: nat)
    | Advance(p: nat)
    | Statement(p: nat)
    | Record(p: nat)
    | Fail(p: nat)

  function Put<S>(d: Database<S>, p: nat, pc: Pc): Database<S> {
    d.(runners := d.runners[p := pc])
  }

  /** Gives up; an open transaction of this runner is rolled back. */
  function Stop<S>(d: Database<S>, p: nat): Database<S> {
    var free := if d.open.Some? && d.open.value.owner == p then d.(open := None) else d;
    Put(free, p, Stopped)
  }

  function Next<S>(exec: Exec<S>, migs: seq<Migration>, d: Database<S>, step: Step): Option<Database<S>> {
    if step.Start? then
      if step.p in d.runners then None else Some(Put(d, step.p, Looping(0, d.recorded)))
    else if step.p !in d.runners then None
    else
      var p, pc := step.p, d.runners[step.p];
      match step
      case Advance(_) =>
        if !pc.Looping? || pc.next > |migs| then None
        else if pc.next == |migs| then Some(Put(d, p, Finished))
        else if migs[pc.next].version in pc.applied then Some(Put(d, p, Looping(pc.next + 1, pc.applied)))
        else if d.open.Some? then None
        else Some(Put(d, p, InTransaction(pc.next, pc.applied, 0)).(open := Some(Transaction(p, d.schema))))
      case Statement(_) =>
        if !pc.InTransaction? || pc.next >= |migs| || pc.done >= |migs[pc.next].statements|
           || d.open.None? || d.open.value.owner != p then None
        else
          var work := exec(d.open.value.work, migs[pc.next].statements[pc.done]);
          if work.None? then Some(Stop(d, p))
          else Some(Put(d, p, pc.(done := pc.done + 1)).(open := Some(Transaction(p, work.value))))
      case Record(_) =>
        if !pc.InTransaction? || pc.next >= |migs| || pc.done != |migs[pc.next].statements|
           || d.open.None? || d.open.value.owner != p then None
        else if migs[pc.next].version in d.recorded then Some(Stop(d, p))
        else Some(Put(d, p, Looping(pc.next + 1, pc.applied))
                  .(recorded := d.recorded + {migs[pc.next].version}, schema := d.open.value.work, open := None))
      case Fail(_) =>
        if pc.Finished? || pc.Stopped? then None else Some(Stop(d, p))
      case Start(_) => None
  }

  // ---------- the invariant ----------

  /** A runner has passed only migrations that are recorded. */
  predicate RunnerOk(migs: seq<Migration>, recorded: set<int>, pc: Pc) {
    match pc
    case Looping(next, applied) => next <= |recorded| && next <= |migs| && applied <= recorded
    case InTransaction(next, applied, done) =>
      next <= |recorded| && next < |migs| && done <= |migs[next].statements| && applied <= recorded
    case Finished => |recorded| == |migs|
    case Stopped => true
  }

  ghost predicate RunnersOk<S>(migs: seq<Migration>, d: Database<S>) {
    forall p :: p in d.runners ==>
      && RunnerOk(migs, d.recorded, d.runners[p])
      && (d.runners[p].InTransaction? ==> d.open.Some? && d.open.value.owner == p)
  }

  /** The open transaction holds the statements run so far, on the committed schema. */
  ghost predicate OpenOk<S>(exec: Exec<S>, migs: seq<Migration>, d: Database<S>) {
    d.open.Some? ==>
      && d.open.value.owner in d.runners
      && var pc := d.runners[d.open.value.owner];
         && pc.InTransaction? && pc.next < |migs| && pc.done <= |migs[pc.next].statements|
         && RunAll(exec, d.schema, migs[pc.next].statements[..pc.done]) == Some(d.open.value.work)
  }

  ghost predicate Invariant<S>(exec: Exec<S>, migs: seq<Migration>, initial: S, d: Database<S>) {
    InStep(exec, migs, initial, d.recorded, d.schema) && RunnersOk(migs, d) && OpenOk(exec, migs, d)
  }

  lemma RecordKeepsInStep<S>(exec: Exec<S>, migs: seq<Migration>, initial: S,
                             d: Database<S>, step: Step, d': Database<S>)
    requires Contiguous(migs) && Invariant(exec, migs, initial, d)
    requires step.Record? && Next(exec, migs, d, step) == Some(d') && d'.recorded != d.recorded
    ensures InStep(exec, migs, initial, d'.recorded, d'.schema)
    ensures |d'.recorded| == |d.recorded| + 1 == d.runners[step.p].next + 1
  {
    var pc, k := d.runners[step.p], |d.recorded|;
    assert migs[pc.next].version == pc.next + 1;
    assert pc.next + 1 !in FirstVersions(k);
    assert pc.next == k;
    assert migs[k].statements[..pc.done] == migs[k].statements;
    assert d'.recorded == FirstVersions(k + 1);
  }

  /** The runner that steps has still passed only recorded migrations. */
  lemma StepKeepsRunner<S>(exec: Exec<S>, migs: seq<Migration>, d: Database<S>, step: Step, d': Database<S>)
    requires Contiguous(migs) && RunnersOk(migs, d)
    requires |d.recorded| <= |migs| && d.recorded == FirstVersions(|d.recorded|)
    requires Next(exec, migs, d, step) == Some(d')
    requires step.Record? && d'.recorded != d.recorded ==>
               |d'.recorded| == |d.recorded| + 1 == d.runners[step.p].next + 1 <= |migs|
    ensures RunnerOk(migs, d'.recorded, d'.runners[step.p])
  {
    if !step.Start? {
      assert RunnerOk(migs, d.recorded, d.runners[step.p]);
      if step.Advance? && d'.runners[step.p].Looping? {
        var next := d.runners[step.p].next;
        assert migs[next].version == next + 1;
        assert next + 1 in FirstVersions(|d.recorded|);
      }
    }
  }

  lemma StepKeepsRunners<S>(exec: Exec<S>, migs: seq<Migration>, d: Database<S>, step: Step, d': Database<S>)
    requires RunnersOk(migs, d) && Next(exec, migs, d, step) == Some(d')
    requires RunnerOk(migs, d'.recorded, d'.runners[step.p])
    requires d'.recorded != d.recorded ==> |d'.recorded| == |d.recorded| + 1 <= |migs|
    ensures RunnersOk(migs, d')
  {
    forall p | p in d'.runners
      ensures RunnerOk(migs, d'.recorded, d'.runners[p])
      ensures d'.runners[p].InTransaction? ==> d'.open.Some? && d'.open.value.owner == p
    {
      if p != step.p {
        assert d'.runners[p] == d.runners[p];
        assert RunnerOk(migs, d.recorded, d.runners[p]);
      }
    }
  }

  lemma StepKeepsOpen<S>(exec: Exec<S>, migs: seq<Migration>, initial: S, d: Database<S>, step: Step, d': Database<S>)
    requires Invariant(exec, migs, initial, d) && Next(exec, migs, d, step) == Some(d')
    ensures OpenOk(exec, migs, d')
  {
    if step.Statement? && d'.open.Some? {
      var pc := d.runners[step.p];
      var statements := migs[pc.next].statements;
      assert statements[..pc.done + 1][..pc.done] == statements[..pc.done];
    }
  }

  lemma StepKeepsInvariant<S>(exec: Exec<S>, migs: seq<Migration>, initial: S,
                              d: Database<S>, step: Step, d': Database<S>)
    requires Contiguous(migs) && Invariant(exec, migs, initial, d)
    requires Next(exec, migs, d, step) == Some(d')
    ensures Invariant(exec, migs, initial, d')
  {
    if step.Record? && d'.recorded != d.recorded {
      RecordKeepsInStep(exec, migs, initial, d, step, d');
    }
    StepKeepsRunner(exec, migs, d, step, d');
    StepKeepsRunners(exec, migs, d, step, d');
    StepKeepsOpen(exec, migs, initial, d, step, d');
  }

  // ---------- whole runs ----------

  ghost predicate IsRun<S>(exec: Exec<S>, migs: seq<Migration>, initial: S, run: seq<Database<S>>, steps: seq<Step>) {
    && |run| == |steps| + 1
    && run[0] == Database({}, initial, None, map[])
    && forall k {:trigger Next(exec, migs, run[k], steps[k])} :: 0 <= k < |steps| ==>
         Next(exec, migs, run[k], steps[k]) == Some(run[k + 1])
  }

  /**
   With any number of runners and a failure at any point, the recorded
   versions are always 1..k, the schema is exactly those migrations applied in
   order, and a runner that finishes leaves nothing pending.
   */
  lemma {:induction false} MigrationsStayInStep<S>(exec: Exec<S>, migs: seq<Migration>, initial: S,
                                                   run: seq<Database<S>>, steps: seq<Step>, n: nat)
    requires Contiguous(migs)
    requires IsRun(exec, migs, initial, run, steps) && n <= |steps|
    ensures Invariant(exec, migs, initial, run[n])
    ensures forall p :: p in run[n].runners && run[n].runners[p].Finished? ==> |run[n].recorded| == |migs|
  {
    if n > 0 {
      MigrationsStayInStep(exec, migs, initial, run, steps, n - 1);
      StepKeepsInvariant(exec, migs, initial, run[n - 1], steps[n - 1], run[n]);
    }
    assert forall p :: p in run[n].runners ==> RunnerOk(migs, run[n].recorded, run[n].runners[p]);
  }

  /** A runner that read the complete set of versions never opens a transaction. */
  predicate Idle<S>(d: Database<S>, complete: set<int>, p: nat) {
    p in d.runners ==>
      match d.runners[p]
      case Looping(_, applied) => applied == complete
      case InTransaction(_, _, _) => false
      case _ => true
  }

  lemma CompleteStep<S>(exec: Exec<S>, migs: seq<Migration>, initial: S,
                        d: Database<S>, step: Step, d': Database<S>, p: nat)
    requires Contiguous(migs) && Invariant(exec, migs, initial, d) && |d.recorded| == |migs|
    requires Next(exec, migs, d, step) == Some(d')
    ensures d'.recorded == d.recorded && d'.schema == d.schema
    ensures Idle(d, d.recorded, p) ==> Idle(d', d.recorded, p)
  {
    if step.Record? && d'.recorded != d.recorded {
      RecordKeepsInStep(exec, migs, initial, d, step, d');
    }
    if step.Advance? {
      var pc := d.runners[step.p];
      if pc.next < |migs| {
        assert migs[pc.next].version == pc.next + 1 && pc.next + 1 in FirstVersions(|migs|);
      }
    }
  }

  lemma {:induction false} CompleteStays<S>(exec: Exec<S>, migs: seq<Migration>, initial: S,
                                            run: seq<Database<S>>, steps: seq<Step>, i: nat, n: nat)
    requires Contiguous(migs)
    requires IsRun(exec, migs, initial, run, steps) && i <= n <= |steps| && |run[i].recorded| == |migs|
    ensures run[n].recorded == run[i].recorded && run[n].schema == run[i].schema
  {
    if i < n {
      CompleteStays(exec, migs, initial, run, steps, i, n - 1);
      MigrationsStayInStep(exec, migs, initial, run, steps, n - 1);
      CompleteStep(exec, migs, initial, run[n - 1], steps[n - 1], run[n], 0);
    }
  }

  /** Once every migration is recorded no runner changes anything, and one that starts then opens no transaction. */
  lemma {:induction false} RerunIsNoOp<S>(exec: Exec<S>, migs: seq<Migration>, initial: S,
                                          run: seq<Database<S>>, steps: seq<Step>, i: nat, n: nat, p: nat)
    requires Contiguous(migs)
    requires IsRun(exec, migs, initial, run, steps) && i <= n <= |steps| && |run[i].recorded| == |migs|
    ensures run[n].recorded == run[i].recorded && run[n].schema == run[i].schema
    ensures p !in run[i].runners ==> Idle(run[n], run[i].recorded, p)
  {
    CompleteStays(exec, migs, initial, run, steps, i, n);
    if i < n {
      RerunIsNoOp(exec, migs, initial, run, steps, i, n - 1, p);
      MigrationsStayInStep(exec, migs, initial, run, steps, n - 1);
      CompleteStep(exec, migs, initial, run[n - 1], steps[n - 1], run[n], p);
    }
  }

  // ---------- runners get on ----------

  /** A runner stops only on a fault, on a migration that does not run, or on one somebody else has recorded. */
  lemma StopHasCause<S>(exec: Exec<S>, migs: seq<Migration>, initial: S, d: Database<S>, step: Step, d': Database<S>,
                        p: nat)
    requires Invariant(exec, migs, initial, d) && Next(exec, migs, d, step) == Some(d')
    requires p in d.runners && !d.runners[p].Stopped? && d'.runners[p].Stopped?
    ensures || step == Fail(p)
            || (d.runners[p].InTransaction?
                && var m := migs[d.runners[p].next];
                   RunAll(exec, d.schema, m.statements).None? || m.version in d.recorded)
  {
    if step == Statement(p) {
      var pc := d.runners[p];
      var statements := migs[pc.next].statements;
      assert statements[..pc.done + 1][..pc.done] == statements[..pc.done];
      RunStopsAt(exec, d.schema, statements, pc.done + 1);
    }
  }

  /** A runner that has not ended can go on, unless another one holds the write lock. */
  lemma RunnerCanMove<S>(exec: Exec<S>, migs: seq<Migration>, initial: S, d: Database<S>, p: nat) returns (step: Step)
    requires Invariant(exec, migs, initial, d) && p in d.runners && !d.runners[p].Finished? && !d.runners[p].Stopped?
    requires d.open.None? || d.open.value.owner == p
    ensures step.p == p && !step.Fail? && Next(exec, migs, d, step).Some?
  {
    match d.runners[p]
    case Looping(_, _) => step := Advance(p);
    case InTransaction(next, _, done) =>
      step := if done < |migs[next].statements| then Statement(p) else Record(p);
  }

  /** Statements and bookkeeping from migration `i` on. */
  function Work(migs: seq<Migration>, i: nat): nat
    requires i <= |migs|
    decreases |migs| - i
  {
    if i == |migs| then 0 else |migs[i].statements| + 2 + Work(migs, i + 1)
  }

  /** How many steps a runner can still take. */
  function Left(migs: seq<Migration>, pc: Pc): int {
    match pc
    case Looping(next, _) => if next <= |migs| then Work(migs, next) + 1 else 0
    case InTransaction(next, _, done) => if next <= |migs| then Work(migs, next) - done else 0
    case _ => 0
  }

  lemma StepLeavesLess<S>(exec: Exec<S>, migs: seq<Migration>, initial: S, d: Database<S>, step: Step, d': Database<S>)
    requires Invariant(exec, migs, initial, d) && Next(exec, migs, d, step) == Some(d') && !step.Start?
    ensures 0 <= Left(migs, d'.runners[step.p]) < Left(migs, d.runners[step.p])
  {
    assert RunnerOk(migs, d.recorded, d.runners[step.p]);
  }

  function OwnSteps(steps: seq<Step>, p: nat, n: nat): nat
    requires n <= |steps|
  {
    if n == 0 then 0 else OwnSteps(steps, p, n - 1) + if steps[n - 1].p == p && !steps[n - 1].Start? then 1 else 0
  }

  /** In every run each runner takes boundedly many steps, so one that is never kept from moving ends. */
  lemma {:induction false} RunnersEnd<S>(exec: Exec<S>, migs: seq<Migration>, initial: S,
                                         run: seq<Database<S>>, steps: seq<Step>, p: nat, n: nat)
    requires Contiguous(migs) && IsRun(exec, migs, initial, run, steps) && n <= |steps|
    ensures p in run[n].runners ==>
              0 <= Left(migs, run[n].runners[p]) <= Work(migs, 0) + 1 - OwnSteps(steps, p, n)
    ensures p !in run[n].runners ==> OwnSteps(steps, p, n) == 0
  {
    if n > 0 {
      RunnersEnd(exec, migs, initial, run, steps, p, n - 1);
      MigrationsStayInStep(exec, migs, initial, run, steps, n - 1);
      var d, step, d' := run[n - 1], steps[n - 1], run[n];
      assert Next(exec, migs, d, step) == Some(d');
      if step.p == p && !step.Start? {
        StepLeavesLess(exec, migs, initial, d, step, d');
      }
    }
  }
}
