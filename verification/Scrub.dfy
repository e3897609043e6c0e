/**
 Washing secrets out of log messages: every secret is replaced by the marker,
 longest first, each replacement working on the result of the one before.
 */
module Scrub {
  import opened Replacement
  import opened SecretOrder

  /** An order the sort may produce; it does not decide between equal lengths. */
  predicate Arrangement(ordered: seq<string>, secrets: seq<string>) {
    LongestFirst(ordered) && multiset(ordered) == multiset(secrets)
  }

  /** Different secrets of one length are independent, or one only absorbs the other. */
  ghost predicate Compatible(s: string, t: string) {
    |s| == |t| && s != t ==> Independent(s, t) || Absorbs(s, t) || Absorbs(t, s)
  }

  lemma CompatibleCommute(msg: string, s: string, t: string)
    requires |s| == |t| && Compatible(s, t)
    ensures Replaced(Replaced(msg, s), t) == Replaced(Replaced(msg, t), s)
  {
    if s != t {
      if Independent(s, t) {
        IndependentCommute(msg, s, t);
      } else if Absorbs(s, t) {
        AbsorbCommute(msg, s, t);
      } else {
        AbsorbCommute(msg, t, s);
      }
    }
  }

  ghost predicate AllCompatible(secrets: seq<string>) {
    forall s, t :: s in secrets && t in secrets ==> Compatible(s, t)
  }

  lemma {:induction false} BringForward(msg: string, secrets: seq<string>, i: nat)
    requires i < |secrets| && AllCompatible(secrets)
    requires forall j :: 0 <= j < i ==> |secrets[j]| == |secrets[i]|
    ensures ReplaceEach(msg, secrets) == ReplaceEach(Replaced(msg, secrets[i]), secrets[..i] + secrets[i + 1..])
    decreases i
  {
    var s, t, rest := secrets[0], secrets[i], secrets[1..];
    if i == 0 {
      assert secrets[..0] + secrets[1..] == rest;
    } else {
      var others := rest[..i - 1] + rest[i..];
      BringForward(Replaced(msg, s), rest, i - 1);
      CompatibleCommute(msg, s, t);
      assert secrets[..i] + secrets[i + 1..] == [s] + others;
      assert ([s] + others)[1..] == others;
    }
  }

  lemma Without(one: seq<string>, two: seq<string>, i: nat)
    requires one != [] && i < |two| && two[i] == one[0] && multiset(one) == multiset(two)
    ensures multiset(two[..i] + two[i + 1..]) == multiset(one[1..])
  {
    assert one == [one[0]] + one[1..];
    assert two == two[..i] + [two[i]] + two[i + 1..];
    assert multiset(one) == multiset{one[0]} + multiset(one[1..]);
    assert multiset(two) == multiset(two[..i]) + multiset{two[i]} + multiset(two[i + 1..]);
    assert multiset(two[..i] + two[i + 1..]) == multiset(two[..i]) + multiset(two[i + 1..]);
    assert multiset(one[1..]) == multiset(one) - multiset{one[0]};
  }

  /** What precedes the first secret of one arrangement in another has its length. */
  lemma SameLengthBefore(one: seq<string>, two: seq<string>, i: nat)
    requires LongestFirst(one) && Arrangement(two, one) && one != [] && i < |two| && two[i] == one[0]
    ensures forall j :: 0 <= j < i ==> |two[j]| == |two[i]|
  {
    forall j | 0 <= j < i
      ensures |two[j]| == |two[i]|
    {
      assert two[j] in multiset(one);
    }
  }

  /** With compatible secrets, every order the sort may produce gives the same result. */
  lemma {:induction false} ArrangementsAgree(msg: string, one: seq<string>, two: seq<string>)
    requires AllCompatible(two) && LongestFirst(one) && Arrangement(two, one)
    ensures ReplaceEach(msg, one) == ReplaceEach(msg, two)
    decreases |one|
  {
    if one == [] {
      assert |multiset(two)| == |two|;
    } else {
      assert one[0] in multiset(two);
      var i :| 0 <= i < |two| && two[i] == one[0];
      var rest := two[..i] + two[i + 1..];
      SameLengthBefore(one, two, i);
      BringForward(msg, two, i);
      Without(one, two, i);
      assert AllCompatible(rest) by {
        assert forall s :: s in rest ==> s in two;
      }
      ArrangementsAgree(Replaced(msg, one[0]), one[1..], rest);
    }
  }

  // ---------- why longest first ----------

  lemma AroundNothing(c: char, v: string, s: string)
    requires s != "" && c !in s
    ensures ReplaceAll([c] + v, s) == [c] + ReplaceAll(v, s)
  {
    var msg := [c] + v;
    assert msg[0] == c && msg[1..] == v;
    StartsAlike(s, msg);
    KeepsHead(msg, s);
  }

  /** A character that is in no secret separates what is replaced on its two sides. */
  lemma {:induction false} ReplaceBefore(u: string, v: string, s: string)
    requires s != "" && v != "" && v[0] !in s
    ensures ReplaceAll(u + v, s) == ReplaceAll(u, s) + ReplaceAll(v, s)
    decreases |u|
  {
    if u == "" {
      assert u + v == v;
    } else if s <= u + v {
      EndsBefore(s, u, v);
      ReplaceBefore(u[|s|..], v, s);
      FrontIsReplaced(u, v, s);
      Regroup(MARKER, ReplaceAll(u[|s|..], s), ReplaceAll(v, s));
    } else {
      ReplaceBefore(u[1..], v, s);
      HeadStays(u, s, v);
      FrontIsKept(u, v, s);
      Regroup([u[0]], ReplaceAll(u[1..], s), ReplaceAll(v, s));
    }
  }

  lemma FrontIsReplaced(u: string, v: string, s: string)
    requires s != "" && s <= u
    ensures ReplaceAll(u + v, s) == MARKER + ReplaceAll(u[|s|..] + v, s)
    ensures ReplaceAll(u, s) == MARKER + ReplaceAll(u[|s|..], s)
  {
    var rest := u[|s|..];
    assert u == s + rest && u + v == s + (rest + v);
    ReplacesFront(s, rest);
    ReplacesFront(s, rest + v);
  }

  lemma FrontIsKept(u: string, v: string, s: string)
    requires s != "" && u != "" && !(s <= u + v)
    ensures ReplaceAll(u + v, s) == [u[0]] + ReplaceAll(u[1..] + v, s)
  {
    assert (u + v)[1..] == u[1..] + v && (u + v)[0] == u[0];
    KeepsHead(u + v, s);
  }

  lemma ReplaceAround(u: string, c: char, v: string, s: string)
    requires s != "" && c !in s
    ensures ReplaceAll(u + [c] + v, s) == ReplaceAll(u, s) + [c] + ReplaceAll(v, s)
  {
    assert u + [c] + v == u + ([c] + v) && ([c] + v)[0] == c;
    ReplaceBefore(u, [c] + v, s);
    AroundNothing(c, v, s);
  }

  lemma StartsAlike(s: string, msg: string)
    requires s != "" && msg != ""
    ensures s <= msg ==> msg[0] in s
  {
  }

  lemma EndsBefore(s: string, u: string, v: string)
    requires v != "" && v[0] !in s && s <= u + v
    ensures s <= u
  {
    var msg := u + v;
    assert msg[|u|] == v[0] && forall i :: 0 <= i < |s| ==> s[i] == msg[i];
    assert |s| <= |u|;
  }

  lemma HeadStays(u: string, s: string, rest: string)
    requires u != "" && s != "" && !(s <= u + rest)
    ensures ReplaceAll(u, s) == [u[0]] + ReplaceAll(u[1..], s)
  {
    assert forall i :: 0 <= i < |u| ==> (u + rest)[i] == u[i];
  }

  predicate NotIn(c: char, secrets: seq<string>) {
    forall s :: s in secrets ==> c !in s
  }

  lemma {:induction false} ReplaceEachAround(u: string, c: char, v: string, secrets: seq<string>)
    requires NotIn(c, secrets)
    ensures ReplaceEach(u + [c] + v, secrets) == ReplaceEach(u, secrets) + [c] + ReplaceEach(v, secrets)
    decreases |secrets|
  {
    if secrets != [] {
      var s := secrets[0];
      if s != "" {
        ReplaceAround(u, c, v, s);
      }
      ReplaceEachAround(Replaced(u, s), c, Replaced(v, s), secrets[1..]);
    }
  }

  lemma {:induction false} MarkerStays(secrets: seq<string>)
    requires forall s :: s in secrets && s != "" ==> !Contains(MARKER, s)
    ensures ReplaceEach(MARKER, secrets) == MARKER
  {
    if secrets != [] {
      if secrets[0] != "" {
        NothingToReplace(MARKER, secrets[0]);
      }
      MarkerStays(secrets[1..]);
    }
  }

  lemma LongerIsNotIn(t: string, s: string)
    requires |s| >= |t| && s != t && s != ""
    ensures !Contains(t, s)
  {
    assert t[0..] == t;
    if Contains(t, s) {
      var k := FirstIn(t, s);
    }
  }

  lemma {:induction false} SecretBecomesMarker(t: string, secrets: seq<string>)
    requires LongestFirst(secrets) && t in secrets && t != ""
    requires forall s :: s in secrets && s != "" ==> !Contains(MARKER, s)
    ensures ReplaceEach(t, secrets) == MARKER
  {
    var s := secrets[0];
    if s == t {
      assert ReplaceAll(t, t) == MARKER + ReplaceAll("", t) == MARKER;
      MarkerStays(secrets[1..]);
    } else {
      LongerIsNotIn(t, s);
      NothingToReplace(t, s);
      SecretBecomesMarker(t, secrets[1..]);
    }
  }

  /**
   A secret that stands by itself in a message, between characters that are in
   no secret, becomes one marker as a whole, however its parts are secrets too.
   */
  lemma WholeSecretIsReplaced(before: string, c: char, t: string, c': char, after: string, secrets: seq<string>)
    requires LongestFirst(secrets) && t in secrets && t != "" && NotIn(c, secrets) && NotIn(c', secrets)
    requires forall s :: s in secrets && s != "" ==> !Contains(MARKER, s)
    ensures ReplaceEach(before + [c] + (t + [c'] + after), secrets)
         == ReplaceEach(before, secrets) + [c] + (MARKER + [c'] + ReplaceEach(after, secrets))
  {
    ReplaceEachAround(before, c, t + [c'] + after, secrets);
    ReplaceEachAround(t, c', after, secrets);
    SecretBecomesMarker(t, secrets);
  }

  /** With the shorter one first, the rest of a longer secret would be left behind. */
  lemma ShorterFirstLeavesTheRest(d: string, rest: string)
    requires d != "" && rest != "" && !Contains(rest, d) && Clean(d + rest)
    ensures ReplaceEach(d + rest, [d, d + rest]) == MARKER + rest
  {
    var t := d + rest;
    assert [d, t][1..] == [t] && [t][1..] == [];
    ReplacesFront(d, rest);
    NothingToReplace(rest, d);
    PassesOverMarker(rest, t);
    assert ReplaceAll(rest, t) == rest;
    assert ReplaceEach(d + rest, [d, t]) == ReplaceEach(ReplaceAll(d + rest, d), [t]) == ReplaceAll(MARKER + rest, t);
  }

  // ---------- the sort and the loop ----------

  lemma InsertedInOrder(ordered: seq<string>, s: string, i: nat)
    requires LongestFirst(ordered) && i <= |ordered|
    requires forall k :: 0 <= k < i ==> |ordered[k]| > |s|
    requires i < |ordered| ==> |ordered[i]| <= |s|
    ensures LongestFirst(ordered[..i] + [s] + ordered[i..])
  {
    var r := ordered[..i] + [s] + ordered[i..];
    assert forall k :: 0 <= k < |r| ==> r[k] == if k < i then ordered[k] else if k == i then s else ordered[k - 1];
  }

  lemma InsertedOnce(ordered: seq<string>, s: string, i: nat)
    requires i <= |ordered|
    ensures multiset(ordered[..i] + [s] + ordered[i..]) == multiset(ordered) + multiset{s}
  {
    assert ordered == ordered[..i] + ordered[i..];
  }

  method InsertByLength(ordered: seq<string>, s: string) returns (r: seq<string>)
    requires LongestFirst(ordered)
    ensures LongestFirst(r) && multiset(r) == multiset(ordered) + multiset{s}
  {
    var i := 0;
    while i < |ordered| && |ordered[i]| > |s|
      invariant i <= |ordered| && forall k :: 0 <= k < i ==> |ordered[k]| > |s|
    {
      i := i + 1;
    }
    r := ordered[..i] + [s] + ordered[i..];
    InsertedInOrder(ordered, s, i);
    InsertedOnce(ordered, s, i);
  }

  method SortLongestFirst(secrets: seq<string>) returns (ordered: seq<string>)
    ensures Arrangement(ordered, secrets)
  {
    ordered := [];
    for i := 0 to |secrets|
      invariant Arrangement(ordered, secrets[..i])
    {
      assert secrets[..i + 1] == secrets[..i] + [secrets[i]];
      ordered := InsertByLength(ordered, secrets[i]);
    }
    assert secrets[..|secrets|] == secrets;
  }

  method ScrubPaths(msg: string, secrets: seq<string>) returns (out: string)
    ensures forall s :: s in secrets && Clean(s) ==> !Contains(out, s)
    ensures exists ordered :: Arrangement(ordered, secrets) && out == ReplaceEach(msg, ordered)
    ensures AllCompatible(secrets) ==>
              forall ordered :: Arrangement(ordered, secrets) ==> out == ReplaceEach(msg, ordered)
  {
    var ordered := SortLongestFirst(secrets);
    out := msg;
    for i := 0 to |ordered|
      invariant ReplaceEach(out, ordered[i..]) == ReplaceEach(msg, ordered)
    {
      assert ordered[i..][1..] == ordered[i + 1..];
      if ordered[i] == "" {
        continue;
      }
      out := ReplaceAll(out, ordered[i]);
    }
    assert out == ReplaceEach(msg, ordered);
    ScrubbedWell(msg, secrets, ordered);
  }

  lemma ScrubbedWell(msg: string, secrets: seq<string>, ordered: seq<string>)
    requires Arrangement(ordered, secrets)
    ensures forall s :: s in secrets && Clean(s) ==> !Contains(ReplaceEach(msg, ordered), s)
    ensures AllCompatible(secrets) ==>
              forall other :: Arrangement(other, secrets) ==> ReplaceEach(msg, other) == ReplaceEach(msg, ordered)
  {
    forall s | s in secrets && Clean(s)
      ensures !Contains(ReplaceEach(msg, ordered), s)
    {
      assert s in multiset(ordered);
      if Contains(ReplaceEach(msg, ordered), s) {
        NoSecretSurvives(msg, ordered, s);
      }
    }
    if AllCompatible(secrets) {
      assert forall s :: s in ordered ==> s in multiset(secrets);
      forall other | Arrangement(other, secrets)
        ensures ReplaceEach(msg, other) == ReplaceEach(msg, ordered)
      {
        ArrangementsAgree(msg, other, ordered);
      }
    }
  }
}
