/**
 Credentials: the loader that validates users.yml, and the token-hash index
 the server authenticates against. SHA-256 hashes stand for the tokens they
 were computed from.
 */
module Users {
  import opened Prelude

  // ---------- strings ----------

  /** `unicode.IsSpace`. */
  predicate IsSpace(c: char) {
    || c in {' ', '\t', '\n', '\r', '\U{0B}', '\U{0C}', '\U{85}', '\U{A0}', '\U{1680}'}
    || '\U{2000}' <= c <= '\U{200A}'
    || c in {'\U{2028}', '\U{2029}', '\U{202F}', '\U{205F}', '\U{3000}'}
  }

  function TrimLeft(s: string): string {
    if s != [] && IsSpace(s[0]) then TrimLeft(s[1..]) else s
  }

  function TrimRight(s: string): string {
    if s != [] && IsSpace(s[|s| - 1]) then TrimRight(s[..|s| - 1]) else s
  }

  /** `strings.TrimSpace`. */
  function TrimSpace(s: string): string {
    TrimRight(TrimLeft(s))
  }

  /** A string that neither starts nor ends with a space. */
  predicate Trimmed(s: string) {
    s == [] || (!IsSpace(s[0]) && !IsSpace(s[|s| - 1]))
  }

  lemma {:induction false} TrimLeftStops(s: string)
    ensures TrimLeft(s) == [] || !IsSpace(TrimLeft(s)[0])
  {
    if s != [] && IsSpace(s[0]) {
      TrimLeftStops(s[1..]);
    }
  }

  lemma {:induction false} TrimRightStops(s: string)
    ensures TrimRight(s) <= s && (TrimRight(s) == [] || !IsSpace(TrimRight(s)[|TrimRight(s)| - 1]))
  {
    if s != [] && IsSpace(s[|s| - 1]) {
      TrimRightStops(s[..|s| - 1]);
    }
  }

  /** Trimming yields a trimmed string, and leaves one alone. */
  lemma TrimSpaceTrims(s: string)
    ensures Trimmed(TrimSpace(s))
    ensures Trimmed(s) ==> TrimSpace(s) == s
  {
    TrimLeftStops(s);
    TrimRightStops(TrimLeft(s));
  }

  predicate AllSpace(s: string) {
    forall c :: c in s ==> IsSpace(c)
  }

  lemma {:induction false} TrimLeftOf(left: string, rest: string)
    requires AllSpace(left) && (rest == [] || !IsSpace(rest[0]))
    ensures TrimLeft(left + rest) == rest
  {
    if left == [] {
      assert left + rest == rest;
    } else {
      assert (left + rest)[1..] == left[1..] + rest;
      TrimLeftOf(left[1..], rest);
    }
  }

  lemma {:induction false} TrimRightOf(rest: string, right: string)
    requires AllSpace(right) && (rest == [] || !IsSpace(rest[|rest| - 1]))
    ensures TrimRight(rest + right) == rest
  {
    if right == [] {
      assert rest + right == rest;
    } else {
      var fewer := right[..|right| - 1];
      assert (rest + right)[..|rest + right| - 1] == rest + fewer;
      TrimRightOf(rest, fewer);
    }
  }

  /** Trimming takes off all the space on both sides and nothing else. */
  lemma TrimSpaceOf(left: string, core: string, right: string)
    requires AllSpace(left) && AllSpace(right) && Trimmed(core)
    ensures TrimSpace(left + core + right) == core
  {
    if core == [] {
      assert left + core + right == (left + right) + [];
      TrimLeftOf(left + right, []);
    } else {
      assert left + core + right == left + (core + right);
      TrimLeftOf(left, core + right);
      TrimRightOf(core, right);
    }
  }

  lemma {:induction false} TrimLeftBlank(s: string)
    requires TrimLeft(s) == []
    ensures AllSpace(s)
  {
    if s != [] {
      TrimLeftBlank(s[1..]);
      assert s == [s[0]] + s[1..];
    }
  }

  /** Nothing is left exactly of a string that is all space. */
  lemma TrimmedAwayIff(s: string)
    ensures TrimSpace(s) == "" <==> AllSpace(s)
  {
    if AllSpace(s) {
      TrimSpaceOf(s, "", "");
      assert s + "" + "" == s;
    }
    if TrimSpace(s) == "" {
      TrimLeftStops(s);
      if TrimLeft(s) != [] {
        TrimRightKeepsHead(TrimLeft(s));
      }
      TrimLeftBlank(s);
    }
  }

  lemma {:induction false} TrimRightKeepsHead(s: string)
    requires s != [] && !IsSpace(s[0])
    ensures TrimRight(s) != []
  {
    if IsSpace(s[|s| - 1]) {
      TrimRightKeepsHead(s[..|s| - 1]);
    }
  }

  /** Case folding is a parameter: equal-fold means equal after folding each character. */
  type Fold = char -> char

  predicate EqualFold(fold: Fold, a: string, b: string) {
    |a| == |b| && forall i :: 0 <= i < |a| ==> fold(a[i]) == fold(b[i])
  }

  function LowerChar(c: char): char {
    if 'A' <= c <= 'Z' then (c as int + 32) as char else c
  }

  function ToLower(s: string): (t: string)
    ensures |t| == |s| && forall i :: 0 <= i < |s| ==> t[i] == LowerChar(s[i])
  {
    seq(|s|, i requires 0 <= i < |s| => LowerChar(s[i]))
  }

  /** 64 lowercase hex characters. */
  predicate IsHash(s: string) {
    |s| == 64 && forall i :: 0 <= i < |s| ==> '0' <= s[i] <= '9' || 'a' <= s[i] <= 'f'
  }

  predicate IsHex(c: char) {
    '0' <= c <= '9' || 'a' <= c <= 'f' || 'A' <= c <= 'F'
  }

  /** A stored hash, in any case and with space around it, is accepted exactly when it is 64 hex characters. */
  lemma HashIsAcceptedIff(left: string, h: string, right: string)
    requires AllSpace(left) && AllSpace(right) && Trimmed(h)
    ensures var stored := ToLower(TrimSpace(left + h + right));
            && (IsHash(stored) <==> |h| == 64 && forall i :: 0 <= i < |h| ==> IsHex(h[i]))
            && |stored| == |h|
            && forall i :: 0 <= i < |h| && IsHex(h[i]) ==>
                 stored[i] == if 'A' <= h[i] <= 'F' then (h[i] as int - 'A' as int + 'a' as int) as char else h[i]
  {
    TrimSpaceOf(left, h, right);
    var stored := ToLower(h);
    assert forall i :: 0 <= i < |h| ==> (IsHex(h[i]) <==> '0' <= stored[i] <= '9' || 'a' <= stored[i] <= 'f');
  }

  // ---------- the file ----------

  datatype Entry = Entry(id: Int64, name: string, prefix: string, hash: string, disabled: bool)

  /** What the loader makes of an entry. */
  function Normalised(e: Entry): Entry {
    e.(name := TrimSpace(e.name), prefix := TrimSpace(e.prefix), hash := ToLower(TrimSpace(e.hash)))
  }

  predicate ValidEntry(e: Entry) {
    var n := Normalised(e);
    e.id >= 1 && n.name != "" && n.prefix != "" && IsHash(n.hash)
  }

  /** What the loader makes of an entry is what it accepts as it is. */
  lemma NormalisedIsNormal(e: Entry)
    ensures Normalised(Normalised(e)) == Normalised(e)
    ensures ValidEntry(Normalised(e)) <==> ValidEntry(e)
    ensures ValidEntry(e) ==>
              var u := Normalised(e);
              && u.id == e.id >= 1 && u.disabled == e.disabled
              && u.name != "" && u.prefix != "" && Trimmed(u.name) && Trimmed(u.prefix)
              && |u.hash| == 64
  {
    TrimSpaceTrims(e.name);
    TrimSpaceTrims(TrimSpace(e.name));
    TrimSpaceTrims(e.prefix);
    TrimSpaceTrims(TrimSpace(e.prefix));
    TrimSpaceTrims(e.hash);
    var lower := ToLower(TrimSpace(e.hash));
    TrimSpaceTrims(lower);
    assert ToLower(lower) == lower;
  }

  function NormalisedAll(file: seq<Entry>): (users: seq<Entry>)
    ensures |users| == |file| && forall i :: 0 <= i < |file| ==> users[i] == Normalised(file[i])
  {
    seq(|file|, i requires 0 <= i < |file| => Normalised(file[i]))
  }

  predicate UniqueIdsAndNames(users: seq<Entry>) {
    forall i, j :: 0 <= i < j < |users| ==> users[i].id != users[j].id && users[i].name != users[j].name
  }

  predicate UniqueHashes(users: seq<Entry>) {
    forall i, j :: 0 <= i < j < |users| ==> users[i].hash != users[j].hash
  }

  predicate ValidEntries(file: seq<Entry>) {
    forall e :: e in file ==> ValidEntry(e)
  }

  predicate ValidFile(file: seq<Entry>) {
    ValidEntries(file) && UniqueIdsAndNames(NormalisedAll(file))
  }

  lemma ValidEntriesAppend(file: seq<Entry>, e: Entry)
    ensures ValidEntries(file + [e]) <==> ValidEntries(file) && ValidEntry(e)
  {
    assert forall x :: x in file + [e] <==> x in file || x == e;
  }

  function Ids(users: seq<Entry>): set<Int64> {
    set u | u in users :: u.id
  }

  function Names(users: seq<Entry>): set<string> {
    set u | u in users :: u.name
  }

  lemma AppendUser(users: seq<Entry>, u: Entry)
    ensures Ids(users + [u]) == Ids(users) + {u.id}
    ensures Names(users + [u]) == Names(users) + {u.name}
    ensures UniqueIdsAndNames(users + [u]) <==>
              UniqueIdsAndNames(users) && u.id !in Ids(users) && u.name !in Names(users)
  {
    var longer := users + [u];
    assert forall v :: v in longer <==> v in users || v == u;
    if UniqueIdsAndNames(longer) {
      assert forall i :: 0 <= i < |users| ==> longer[i] == users[i] && longer[|users|] == u;
    }
    if UniqueIdsAndNames(users) && u.id !in Ids(users) && u.name !in Names(users) {
      assert forall i :: 0 <= i < |users| ==> users[i] in users;
    }
  }

  lemma PrefixUnique(users: seq<Entry>, n: nat)
    requires n <= |users| && UniqueIdsAndNames(users)
    ensures UniqueIdsAndNames(users[..n])
  {
  }

  /** One round of the loader's loop. */
  method ValidateEntry(e: Entry, seenIds: set<Int64>, seenNames: set<string>) returns (r: Option<Entry>)
    ensures r.Some? <==> ValidEntry(e) && e.id !in seenIds && TrimSpace(e.name) !in seenNames
    ensures r.Some? ==> r.value == Normalised(e)
  {
    if e.id < 1 || e.id in seenIds {
      return None;
    }
    var name := TrimSpace(e.name);
    if name == "" || name in seenNames {
      return None;
    }
    var prefix := TrimSpace(e.prefix);
    if prefix == "" {
      return None;
    }
    var hash := ToLower(TrimSpace(e.hash));
    if !IsHash(hash) {
      return None;
    }
    r := Some(Entry(e.id, name, prefix, hash, e.disabled));
  }

  lemma UniqueOneFurther(users: seq<Entry>, n: nat)
    requires n < |users|
    ensures UniqueIdsAndNames(users[..n + 1]) <==>
              UniqueIdsAndNames(users[..n]) && users[n].id !in Ids(users[..n]) && users[n].name !in Names(users[..n])
    ensures UniqueIdsAndNames(users) ==> UniqueIdsAndNames(users[..n + 1])
  {
    AppendUser(users[..n], users[n]);
    assert users[..n + 1] == users[..n] + [users[n]];
    if UniqueIdsAndNames(users) {
      PrefixUnique(users, n + 1);
    }
  }

  /** The entry fits after the ones before it. */
  ghost predicate Fits(file: seq<Entry>, i: nat)
    requires i < |file|
  {
    var users := NormalisedAll(file)[..i];
    ValidEntry(file[i]) && file[i].id !in Ids(users) && TrimSpace(file[i].name) !in Names(users)
  }

  lemma MisfitSpoilsFile(file: seq<Entry>, i: nat)
    requires i < |file| && !Fits(file, i)
    ensures !ValidFile(file)
  {
    assert file[i] in file;
    UniqueOneFurther(NormalisedAll(file), i);
  }

  lemma FitExtends(file: seq<Entry>, i: nat)
    requires i < |file| && Fits(file, i) && ValidEntries(file[..i]) && UniqueIdsAndNames(NormalisedAll(file)[..i])
    ensures ValidEntries(file[..i + 1]) && UniqueIdsAndNames(NormalisedAll(file)[..i + 1])
    ensures NormalisedAll(file)[..i + 1] == NormalisedAll(file)[..i] + [Normalised(file[i])]
    ensures Ids(NormalisedAll(file)[..i + 1]) == Ids(NormalisedAll(file)[..i]) + {file[i].id}
    ensures Names(NormalisedAll(file)[..i + 1]) == Names(NormalisedAll(file)[..i]) + {TrimSpace(file[i].name)}
  {
    UniqueOneFurther(NormalisedAll(file), i);
    ValidEntriesAppend(file[..i], file[i]);
    assert file[..i + 1] == file[..i] + [file[i]];
    AppendUser(NormalisedAll(file)[..i], Normalised(file[i]));
    assert NormalisedAll(file)[..i + 1] == NormalisedAll(file)[..i] + [Normalised(file[i])];
  }

  /** The loader's validation loop, with its two seen-sets and early exits. */
  method ValidateAndNormalise(file: seq<Entry>) returns (r: Option<seq<Entry>>)
    ensures r.Some? <==> ValidFile(file)
    ensures r.Some? ==> r.value == NormalisedAll(file)
  {
    var users: seq<Entry>, seenIds: set<Int64>, seenNames: set<string> := [], {}, {};
    for i := 0 to |file|
      invariant users == NormalisedAll(file)[..i] && UniqueIdsAndNames(users)
      invariant ValidEntries(file[..i])
      invariant seenIds == Ids(users) && seenNames == Names(users)
    {
      var checked := ValidateEntry(file[i], seenIds, seenNames);
      if checked.None? {
        MisfitSpoilsFile(file, i);
        return None;
      }
      FitExtends(file, i);
      seenIds := seenIds + {checked.value.id};
      seenNames := seenNames + {checked.value.name};
      users := users + [checked.value];
    }
    assert file[..|file|] == file && NormalisedAll(file)[..|file|] == NormalisedAll(file);
    r := Some(users);
  }

  // ---------- the index ----------

  datatype Snapshot = Snapshot(byHash: map<string, Entry>, ordered: seq<Entry>)

  /** `None` is the duplicate-hash panic. */
  method NewUserSnapshot(users: seq<Entry>) returns (r: Option<Snapshot>)
    ensures r.Some? <==> UniqueHashes(users)
    ensures r.Some? ==> Indexes(r.value, users)
  {
    var snap := Snapshot(map[], []);
    for i := 0 to |users|
      invariant UniqueHashes(users[..i]) && Indexes(snap, users[..i])
    {
      var u := users[i];
      if u.hash in snap.byHash {
        assert exists k :: 0 <= k < i && users[..i][k].hash == u.hash;
        return None;
      }
      assert users[..i + 1] == users[..i] + [u];
      snap := Snapshot(snap.byHash[u.hash := u], snap.ordered + [u]);
    }
    assert users[..|users|] == users;
    r := Some(snap);
  }

  ghost predicate Indexes(snap: Snapshot, users: seq<Entry>) {
    && snap.ordered == users
    && (forall h :: h in snap.byHash ==> snap.byHash[h] in users && snap.byHash[h].hash == h)
    && (forall u :: u in users ==> u.hash in snap.byHash)
  }

  /** The server's lookup of a token by its hash. */
  function Lookup(snap: Snapshot, hash: string): Option<Entry> {
    if hash !in snap.byHash then None
    else
      var candidate := snap.byHash[hash];
      if candidate.hash != hash || candidate.disabled then None else Some(candidate)
  }

  /** The plain reading of the file: the enabled user whose hash matches. */
  function Scan(users: seq<Entry>, hash: string): Option<Entry> {
    if users == [] then None
    else if users[0].hash == hash && !users[0].disabled then Some(users[0])
    else Scan(users[1..], hash)
  }

  lemma {:induction false} ScanFinds(users: seq<Entry>, hash: string)
    ensures var found := Scan(users, hash);
            found.Some? ==> found.value in users && found.value.hash == hash && !found.value.disabled
    ensures Scan(users, hash).None? ==> forall u :: u in users && u.hash == hash ==> u.disabled
  {
    if users != [] {
      ScanFinds(users[1..], hash);
      assert forall u :: u in users ==> u == users[0] || u in users[1..];
    }
  }

  /** The index answers every token as a linear scan of the file would. */
  lemma LookupIsScan(snap: Snapshot, users: seq<Entry>, hash: string)
    requires Indexes(snap, users) && UniqueHashes(users)
    ensures Lookup(snap, hash) == Scan(users, hash)
  {
    ScanFinds(users, hash);
    var found := Scan(users, hash);
    if hash in snap.byHash && found.Some? {
      var i :| 0 <= i < |users| && users[i] == snap.byHash[hash];
      var j :| 0 <= j < |users| && users[j] == found.value;
      assert i == j;
    }
  }

  // ---------- the live store ----------

  /** Accepted by the loader, without its duplicate-hash panic. */
  ghost predicate Loads(file: seq<Entry>) {
    ValidFile(file) && UniqueHashes(NormalisedAll(file))
  }

  /** The user a token hash authenticates, after loading `file`. */
  function Authenticated(file: seq<Entry>, hash: string): Option<Entry> {
    Scan(NormalisedAll(file), hash)
  }

  /** How a reload ends; the panic is the index's, on a repeated hash. */
  datatype Reloaded = Swapped | Refused | Panicked

  /** A loaded file, written back as it was loaded, loads as itself. */
  lemma ReloadsAsItself(file: seq<Entry>)
    requires Loads(file)
    ensures Loads(NormalisedAll(file)) && NormalisedAll(NormalisedAll(file)) == NormalisedAll(file)
  {
    var users := NormalisedAll(file);
    forall i | 0 <= i < |users|
      ensures Normalised(users[i]) == users[i] && ValidEntry(users[i])
    {
      assert file[i] in file;
      NormalisedIsNormal(file[i]);
    }
    assert NormalisedAll(users) == users;
    assert forall u :: u in users ==> exists i :: 0 <= i < |users| && users[i] == u;
  }

  class UserStore {
    var snap: Snapshot

    constructor ()
      ensures snap == Snapshot(map[], [])
    {
      snap := Snapshot(map[], []);
    }

    /** Swaps in the whole new snapshot, or keeps the old one. */
    method Reload(file: seq<Entry>) returns (r: Reloaded)
      modifies this
      ensures r.Refused? <==> !ValidFile(file)
      ensures r.Panicked? <==> ValidFile(file) && !UniqueHashes(NormalisedAll(file))
      ensures r.Swapped? <==> Loads(file)
      ensures r.Swapped? ==> forall hash :: Lookup(snap, hash) == Authenticated(file, hash)
      ensures !r.Swapped? ==> snap == old(snap)
    {
      var users := ValidateAndNormalise(file);
      if users.None? {
        return Refused;
      }
      var built := NewUserSnapshot(users.value);
      if built.None? {
        return Panicked;
      }
      snap := built.value;
      forall hash
        ensures Lookup(snap, hash) == Authenticated(file, hash)
      {
        LookupIsScan(snap, users.value, hash);
      }
      r := Swapped;
    }
  }
}
