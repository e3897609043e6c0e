/**
 Replacing a secret by the marker in a log message, and which secrets the
 marker lets back in. A `char` stands for one byte of the Go string.
 */
module Replacement {

  const MARKER := "<redacted>"

  predicate Contains(hay: string, t: string) {
    t <= hay || (hay != "" && Contains(hay[1..], t))
  }

  /** Leftmost non-overlapping replacement of `s` by the marker. */
  function ReplaceAll(msg: string, s: string): string
    requires s != ""
    decreases |msg|
  {
    if |msg| < |s| then msg
    else if s <= msg then MARKER + ReplaceAll(msg[|s|..], s)
    else [msg[0]] + ReplaceAll(msg[1..], s)
  }

  function Replaced(msg: string, s: string): string {
    if s == "" then msg else ReplaceAll(msg, s)
  }

  /** One secret after the other, each on the result of the one before. */
  function ReplaceEach(msg: string, secrets: seq<string>): string
    decreases |secrets|
  {
    if secrets == [] then msg else ReplaceEach(Replaced(msg, secrets[0]), secrets[1..])
  }

  predicate LongestFirst(secrets: seq<string>) {
    forall i, j :: 0 <= i < j < |secrets| ==> |secrets[i]| >= |secrets[j]|
  }

  // ---------- where a text occurs ----------

  lemma {:induction false} ContainsAfter(hay: string, k: nat, t: string)
    requires k <= |hay| && Contains(hay[k..], t)
    ensures Contains(hay, t)
  {
    if k > 0 {
      assert hay[1..][k - 1..] == hay[k..];
      ContainsAfter(hay[1..], k - 1, t);
    } else {
      assert hay[0..] == hay;
    }
  }

  lemma {:induction false} ContainsMore(hay: string, rest: string, t: string)
    requires Contains(hay, t)
    ensures Contains(hay + rest, t)
  {
    if t <= hay {
      assert t == (hay + rest)[..|t|];
    } else {
      assert (hay + rest)[1..] == hay[1..] + rest;
      ContainsMore(hay[1..], rest, t);
    }
  }

  /** The first occurrence of `t`. */
  lemma {:induction false} FirstIn(hay: string, t: string) returns (k: nat)
    requires t != "" && Contains(hay, t)
    ensures k + |t| <= |hay| && t <= hay[k..] && forall j :: 0 <= j < k ==> !(t <= hay[j..])
  {
    assert hay[0..] == hay;
    if t <= hay {
      k := 0;
    } else {
      var i := FirstIn(hay[1..], t);
      k := i + 1;
      assert hay[1..][i..] == hay[k..];
      forall j | 0 <= j < k
        ensures !(t <= hay[j..])
      {
        if j > 0 {
          assert hay[1..][j - 1..] == hay[j..];
        }
      }
    }
  }

  /** No occurrence of `s` starts in the first `k` characters. */
  predicate NoneStarts(msg: string, k: nat, s: string)
    requires k <= |msg|
    decreases k
  {
    k == 0 || (!(s <= msg) && NoneStarts(msg[1..], k - 1, s))
  }

  lemma {:induction false} NoneStartsAt(msg: string, k: nat, s: string)
    requires k <= |msg| && forall i :: 0 <= i < k ==> !(s <= msg[i..])
    ensures NoneStarts(msg, k, s)
    decreases k
  {
    if k > 0 {
      assert msg[0..] == msg;
      var rest := msg[1..];
      forall i | 0 <= i < k - 1
        ensures !(s <= rest[i..])
      {
        assert rest[i..] == msg[i + 1..];
      }
      NoneStartsAt(rest, k - 1, s);
    }
  }

  lemma {:induction false} CopiesFirst(msg: string, k: nat, s: string)
    requires s != "" && k <= |msg| && NoneStarts(msg, k, s)
    ensures ReplaceAll(msg, s) == msg[..k] + ReplaceAll(msg[k..], s)
    decreases k
  {
    if k == 0 {
      assert msg[0..] == msg && msg[..0] == "";
    } else {
      CopiesFirst(msg[1..], k - 1, s);
      KeepsHead(msg, s);
      HeadAndRest(msg, k, ReplaceAll(msg[k..], s));
    }
  }

  lemma HeadAndRest(msg: string, k: nat, tail: string)
    requires 0 < k <= |msg|
    ensures msg[1..][k - 1..] == msg[k..] && [msg[0]] + (msg[1..][..k - 1] + tail) == msg[..k] + tail
  {
  }

  lemma Regroup(x: string, y: string, z: string)
    ensures x + (y + z) == (x + y) + z
  {
  }

  /** Text in which no occurrence of `s` starts is copied as it is. */
  lemma CopiesUpTo(msg: string, k: nat, s: string)
    requires s != "" && k <= |msg| && forall i :: 0 <= i < k ==> !(s <= msg[i..])
    ensures ReplaceAll(msg, s) == msg[..k] + ReplaceAll(msg[k..], s)
  {
    NoneStartsAt(msg, k, s);
    CopiesFirst(msg, k, s);
  }

  lemma PassesOver(head: string, rest: string, s: string)
    requires s != "" && forall i :: 0 <= i < |head| ==> !(s <= (head + rest)[i..])
    ensures ReplaceAll(head + rest, s) == head + ReplaceAll(rest, s)
  {
    CopiesUpTo(head + rest, |head|, s);
    assert (head + rest)[..|head|] == head && (head + rest)[|head|..] == rest;
  }

  lemma {:induction false} NothingToReplace(msg: string, s: string)
    requires s != "" && !Contains(msg, s)
    ensures ReplaceAll(msg, s) == msg
    decreases |msg|
  {
    if |msg| >= |s| {
      NothingToReplace(msg[1..], s);
    }
  }

  /** The output up to and including the first marker. */
  lemma ReplacesFirst(msg: string, s: string, k: nat)
    requires s != "" && k <= |msg| && s <= msg[k..] && forall j :: 0 <= j < k ==> !(s <= msg[j..])
    ensures ReplaceAll(msg, s) == msg[..k] + (MARKER + ReplaceAll(msg[k..][|s|..], s))
  {
    CopiesUpTo(msg, k, s);
  }

  lemma KeepsHead(msg: string, s: string)
    requires msg != "" && s != "" && !(s <= msg)
    ensures ReplaceAll(msg, s) == [msg[0]] + ReplaceAll(msg[1..], s)
  {
  }

  // ---------- how a marker can help to spell a text ----------

  predicate Fit(a: string, b: string) {
    a <= b || b <= a
  }

  /** Read from inside a marker: part of it, or the rest of it and more. */
  predicate StartsInMarker(t: string) {
    exists k :: 0 <= k < |MARKER| && Fit(MARKER[k..], t)
  }

  /** Text before a marker, and then the marker, or its beginning, or it and more. */
  predicate RunsIntoMarker(t: string) {
    exists k :: 0 < k < |t| && Fit(t[k..], MARKER)
  }

  /** In `before + s`, the secret is found only where `before` ends. */
  predicate FoundAfter(before: string, s: string) {
    forall j :: 0 <= j < |before| ==> !(s <= (before + s)[j..])
  }

  /** Replacing `s` can make a `t` that was not there. */
  predicate Made(t: string, s: string) {
    StartsInMarker(t) || exists k :: 0 < k < |t| && Fit(t[k..], MARKER) && FoundAfter(t[..k], s)
  }

  /** No part of a marker can help to spell the text; never true of the empty text. */
  predicate Clean(t: string) {
    !StartsInMarker(t) && !RunsIntoMarker(t)
  }

  lemma FoundInMarker(rest: string, t: string, k: nat)
    requires k < |MARKER| && t <= (MARKER + rest)[k..]
    ensures StartsInMarker(t)
  {
    assert (MARKER + rest)[k..] == MARKER[k..] + rest;
    assert Fit(MARKER[k..], t);
  }

  lemma FitsAcross(t: string, before: string, rest: string)
    requires |before| < |t| && t <= before + (MARKER + rest)
    ensures t[..|before|] == before && Fit(t[|before|..], MARKER)
  {
    assert t[|before|..] <= MARKER + rest;
  }

  lemma PastPrefix(t: string, before: string, rest: string, msg: string)
    requires before <= msg && t <= before + rest && !(t <= msg)
    ensures |before| < |t|
  {
    assert forall i :: 0 <= i < |before| ==> (before + rest)[i] == msg[i];
  }

  lemma FirstIsFoundAfter(msg: string, s: string, k: nat)
    requires k <= |msg| && s <= msg[k..] && forall j :: 0 <= j < k ==> !(s <= msg[j..])
    ensures FoundAfter(msg[..k], s)
  {
    forall j | 0 <= j < k
      ensures !(s <= (msg[..k] + s)[j..])
    {
      assert (msg[..k] + s)[j..] <= msg[j..];
    }
  }

  /** A text at the front of the output that was not at the front of the message runs into the first marker. */
  lemma FrontFits(msg: string, s: string, t: string) returns (k: nat)
    requires s != "" && !(t <= msg) && t <= ReplaceAll(msg, s)
    ensures k < |t| && k <= |msg| && t[..k] == msg[..k] && s <= msg[k..]
    ensures Fit(t[k..], MARKER) && FoundAfter(t[..k], s)
  {
    if !Contains(msg, s) {
      NothingToReplace(msg, s);
    }
    k := FirstIn(msg, s);
    ReplacesFirst(msg, s, k);
    var before, rest := msg[..k], ReplaceAll(msg[k..][|s|..], s);
    PastPrefix(t, before, MARKER + rest, msg);
    FitsAcross(t, before, rest);
    FirstIsFoundAfter(msg, s, k);
  }

  lemma FrontIsMade(msg: string, s: string, t: string)
    requires s != "" && !(t <= msg) && t <= ReplaceAll(msg, s)
    ensures Made(t, s)
  {
    var k := FrontFits(msg, s, t);
    assert t[0..] == t && MARKER[0..] == MARKER;
    assert k == 0 ==> Fit(MARKER[0..], t);
  }

  lemma {:induction false} FoundPast(head: string, rest: string, t: string)
    requires Contains(head + rest, t)
    ensures Contains(rest, t) || exists k :: 0 <= k < |head| && t <= (head + rest)[k..]
  {
    if head == "" {
      assert head + rest == rest;
    } else if t <= head + rest {
      assert (head + rest)[0..] == head + rest;
    } else {
      assert (head + rest)[1..] == head[1..] + rest;
      FoundPast(head[1..], rest, t);
      if k :| 0 <= k < |head[1..]| && t <= (head[1..] + rest)[k..] {
        assert (head + rest)[k + 1..] == (head[1..] + rest)[k..];
      }
    }
  }

  lemma {:induction false} ContainedIsShort(hay: string, t: string)
    requires Contains(hay, t)
    ensures |t| <= |hay|
  {
    if !(t <= hay) {
      ContainedIsShort(hay[1..], t);
    }
  }

  /** What the output holds was made, or was in the message and is not what was replaced. */
  lemma {:induction false} OutputIsMadeOrKept(msg: string, s: string, t: string)
    requires s != "" && Contains(ReplaceAll(msg, s), t)
    ensures Made(t, s) || (Contains(msg, t) && t != s)
    decreases |msg|
  {
    var out := ReplaceAll(msg, s);
    if |msg| < |s| {
      ContainedIsShort(msg, t);
    } else if s <= msg {
      var rest := ReplaceAll(msg[|s|..], s);
      FoundPast(MARKER, rest, t);
      if k :| 0 <= k < |MARKER| && t <= (MARKER + rest)[k..] {
        FoundInMarker(rest, t, k);
      } else {
        OutputIsMadeOrKept(msg[|s|..], s, t);
        if Contains(msg[|s|..], t) {
          ContainsAfter(msg, |s|, t);
        }
      }
    } else if t <= out {
      if !(t <= msg) {
        FrontIsMade(msg, s, t);
      }
    } else {
      assert out[1..] == ReplaceAll(msg[1..], s);
      OutputIsMadeOrKept(msg[1..], s, t);
    }
  }

  // ---------- no clean secret survives ----------

  lemma CleanIsNotMade(t: string, s: string)
    requires Clean(t)
    ensures t != "" && !Made(t, s)
  {
    assert t == "" ==> Fit(MARKER[0..], t);
  }

  /** One replacement creates no clean text, and none of the text it replaces is left. */
  lemma ReplacementAddsNothing(msg: string, s: string, t: string)
    requires s != "" && Clean(t) && Contains(ReplaceAll(msg, s), t)
    ensures Contains(msg, t) && t != s
  {
    CleanIsNotMade(t, s);
    OutputIsMadeOrKept(msg, s, t);
  }

  /** Whatever the order, a clean secret is gone from the result and stays gone through the later replacements. */
  lemma {:induction false} NoSecretSurvives(msg: string, secrets: seq<string>, t: string)
    requires Clean(t) && Contains(ReplaceEach(msg, secrets), t)
    ensures Contains(msg, t) && t !in secrets
    decreases |secrets|
  {
    if secrets != [] {
      var s := secrets[0];
      NoSecretSurvives(Replaced(msg, s), secrets[1..], t);
      if s != "" {
        ReplacementAddsNothing(msg, s, t);
      } else {
        CleanIsNotMade(t, s);
      }
    }
  }

  lemma PrefixEnds(t: string, all: string)
    requires t != "" && t <= all
    ensures t[0] == all[0] && t[|t| - 1] == all[|t| - 1]
    ensures t[|t| - 1] in all
  {
  }

  /** A text without angle brackets that is not part of the word in the marker is clean. */
  lemma PlainIsClean(t: string)
    requires '<' !in t && '>' !in t && !Contains("redacted", t)
    ensures Clean(t)
  {
    forall k | 0 <= k < |MARKER|
      ensures !Fit(MARKER[k..], t)
    {
      if MARKER[k..] <= t {
        PrefixEnds(MARKER[k..], t);
      } else if t <= MARKER[k..] {
        InMarkerWord(t, k);
      }
    }
    forall k | 0 < k < |t|
      ensures !Fit(t[k..], MARKER)
    {
      assert t[k..][0] in t;
    }
  }

  lemma InMarkerWord(t: string, k: nat)
    requires '<' !in t && '>' !in t && k < |MARKER| && t <= MARKER[k..]
    ensures Contains("redacted", t)
  {
    var word := MARKER[1..9];
    assert word == "redacted";
    if t == "" {
      assert t <= word;
    } else {
      InsideMarker(t, k);
      assert word[k - 1..][..|t|] == MARKER[k..][..|t|];
      ContainsAfter(word, k - 1, t);
    }
  }

  lemma InsideMarker(t: string, k: nat)
    requires t != "" && '<' !in t && '>' !in t && k < |MARKER| && t <= MARKER[k..]
    ensures 1 <= k && k + |t| <= 9
  {
    assert MARKER[0] == '<' && MARKER[9] == '>';
    assert forall j :: 0 <= j < |t| ==> t[j] == MARKER[k + j];
  }

  // ---------- every other secret can survive ----------

  /** A message in which a text that starts inside a marker is made by replacing `s`. */
  lemma StartIsMade(t: string, s: string, k: nat) returns (msg: string)
    requires s != "" && |s| == |t| && k < |MARKER| && Fit(MARKER[k..], t)
    ensures Contains(ReplaceAll(msg, s), t)
    ensures s <= msg && |msg| < 2 * |s|
  {
    var more := if t <= MARKER[k..] then "" else t[|MARKER| - k..];
    msg := s + more;
    assert msg[|s|..] == more;
    var out := MARKER + more;
    assert ReplaceAll(msg, s) == out;
    assert out[k..] == MARKER[k..] + more;
    assert t <= out[k..];
    ContainsAfter(out, k, t);
  }

  lemma ReplacesOnly(before: string, s: string, more: string)
    requires FoundAfter(before, s) && |more| < |s|
    ensures ReplaceAll(before + (s + more), s) == before + (MARKER + more)
  {
    var msg := before + (s + more);
    forall j | 0 <= j < |before|
      ensures !(s <= msg[j..])
    {
      assert (before + s)[j..] <= msg[j..];
    }
    PassesOver(before, s + more, s);
    assert (s + more)[|s|..] == more;
  }

  /** What a text that runs into a marker holds after it. */
  function Beyond(t: string, k: nat): (more: string)
    requires 0 < k < |t| && Fit(t[k..], MARKER)
    ensures |more| < |t|
  {
    if t[k..] <= MARKER then "" else t[k + |MARKER|..]
  }

  /** And a message in which one that runs into a marker is made. */
  lemma RunIsMade(t: string, s: string, k: nat)
    requires |s| == |t| && 0 < k < |t| && Fit(t[k..], MARKER) && FoundAfter(t[..k], s)
    ensures Contains(ReplaceAll(t[..k] + (s + Beyond(t, k)), s), t)
  {
    ReplacesOnly(t[..k], s, Beyond(t, k));
    assert t == t[..k] + t[k..];
    assert t[k..] <= MARKER + Beyond(t, k);
  }

  ghost predicate SurvivesAlone(s: string)
    requires s != ""
  {
    exists msg :: Contains(ReplaceAll(msg, s), s)
  }

  /** With no other secrets: some message keeps the secret exactly when replacing it can make it. */
  lemma SurvivesAloneIff(s: string)
    requires s != ""
    ensures SurvivesAlone(s) <==> Made(s, s)
  {
    if StartsInMarker(s) {
      var k :| 0 <= k < |MARKER| && Fit(MARKER[k..], s);
      var msg := StartIsMade(s, s, k);
    } else if Made(s, s) {
      var k :| 0 < k < |s| && Fit(s[k..], MARKER) && FoundAfter(s[..k], s);
      RunIsMade(s, s, k);
    } else if SurvivesAlone(s) {
      var msg :| Contains(ReplaceAll(msg, s), s);
      OutputIsMadeOrKept(msg, s, s);
    }
  }

  /** A character other than these three. */
  function Other(x: char, y: char, z: char): (c: char)
    ensures c != x && c != y && c != z
  {
    if 'a' !in [x, y, z] then 'a' else if 'b' !in [x, y, z] then 'b' else if 'c' !in [x, y, z] then 'c' else 'd'
  }

  /** A second secret, as long as `t`, that is found after `t[..k]` and leaves no room for `t` around it. */
  lemma Accomplice(t: string, k: nat, more: string) returns (o: string)
    requires 0 < k < |t| && |more| < |t|
    ensures |o| == |t| && FoundAfter(t[..k], o)
    ensures forall j :: 0 <= j <= |t[..k] + (o + more)| ==> !(t <= (t[..k] + (o + more))[j..])
  {
    var n := |t|;
    var c := Other(t[0], t[k - 1], t[n - 1]);
    o := seq(n, _ => c);
    var msg := t[..k] + (o + more);
    assert forall i :: k <= i < k + n ==> msg[i] == c;
    forall j | 0 <= j <= |msg|
      ensures !(t <= msg[j..])
    {
      if t <= msg[j..] {
        PrefixEnds(t, msg[j..]);
      }
    }
    forall j | 0 <= j < k
      ensures !(o <= (t[..k] + o)[j..])
    {
      assert (t[..k] + o)[j..][k - 1 - j] == t[k - 1];
    }
  }

  lemma {:induction false} NotContained(hay: string, t: string)
    requires forall j :: 0 <= j <= |hay| ==> !(t <= hay[j..])
    ensures !Contains(hay, t)
  {
    assert hay[0..] == hay;
    if hay != "" {
      forall j | 0 <= j <= |hay[1..]|
        ensures !(t <= hay[1..][j..])
      {
        assert hay[1..][j..] == hay[j + 1..];
      }
      NotContained(hay[1..], t);
    }
  }

  ghost predicate CanSurvive(t: string) {
    exists msg, secrets :: LongestFirst(secrets) && t in secrets && Contains(ReplaceEach(msg, secrets), t)
  }

  lemma SurvivesAmong(msg: string, secrets: seq<string>, t: string)
    requires LongestFirst(secrets) && t in secrets && Contains(ReplaceEach(msg, secrets), t)
    ensures CanSurvive(t)
  {
  }

  lemma RunCanSurvive(t: string, k: nat)
    requires 0 < k < |t| && Fit(t[k..], MARKER)
    ensures CanSurvive(t)
  {
    var o := Accomplice(t, k, Beyond(t, k));
    var msg := t[..k] + (o + Beyond(t, k));
    RunIsMade(t, o, k);
    NotContained(msg, t);
    NothingToReplace(msg, t);
    assert [t, o][1..] == [o] && [o][1..] == [];
    assert ReplaceEach(msg, [t, o]) == ReplaceEach(ReplaceAll(msg, t), [o]) == ReplaceAll(msg, o);
    SurvivesAmong(msg, [t, o], t);
  }

  /** Among other secrets: some message and list keep a secret exactly when it is not clean. */
  lemma CanSurviveIff(t: string)
    requires t != ""
    ensures CanSurvive(t) <==> !Clean(t)
  {
    if StartsInMarker(t) {
      var k :| 0 <= k < |MARKER| && Fit(MARKER[k..], t);
      var msg := StartIsMade(t, t, k);
      assert [t][1..] == [];
      SurvivesAmong(msg, [t], t);
    } else if RunsIntoMarker(t) {
      var k :| 0 < k < |t| && Fit(t[k..], MARKER);
      RunCanSurvive(t, k);
    } else if CanSurvive(t) {
      var msg, secrets :| LongestFirst(secrets) && t in secrets && Contains(ReplaceEach(msg, secrets), t);
      NoSecretSurvives(msg, secrets, t);
    }
  }

  /** A secret that is part of the marker survives its own replacement in exactly the messages that hold it. */
  lemma {:induction false} MarkerTextSurvives(msg: string, s: string)
    requires s != "" && Contains(MARKER, s)
    ensures Contains(ReplaceAll(msg, s), s) <==> Contains(msg, s)
    decreases |msg|
  {
    var out := ReplaceAll(msg, s);
    if |msg| >= |s| {
      if s <= msg {
        ContainsMore(MARKER, ReplaceAll(msg[|s|..], s), s);
      } else {
        MarkerTextSurvives(msg[1..], s);
        assert out[1..] == ReplaceAll(msg[1..], s);
        if !Contains(msg, s) {
          NothingToReplace(msg, s);
        }
      }
    }
  }
}
