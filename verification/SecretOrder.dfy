/**
 Two secrets of one length: the sort does not decide which is replaced first.
 When does it matter?
 */
module SecretOrder {
  import opened Replacement

  /** A proper suffix of `a` is a proper prefix of `b`. */
  predicate Overlap(a: string, b: string) {
    exists k :: 0 < k < |a| && a[k..] <= b
  }

  predicate Apart(a: string, b: string) {
    !Overlap(a, b) && !Overlap(b, a)
  }

  /** Neither touches the other, and neither can be made by replacing the other. */
  predicate Independent(a: string, b: string) {
    a == MARKER || b == MARKER || (Apart(a, b) && !Made(a, b) && !Made(b, a))
  }

  predicate EndsWithMarker(s: string) {
    |s| >= |MARKER| && s[|s| - |MARKER|..] == MARKER
  }

  /** One ends with the marker and the other starts with it, so that one replacement can complete the other. */
  predicate Absorbing(a: string, b: string) {
    (EndsWithMarker(a) && MARKER <= b) || (MARKER <= a && EndsWithMarker(b))
  }

  ghost predicate OrderIsImmaterial(a: string, b: string)
    requires a != "" && b != ""
  {
    forall msg :: ReplaceAll(ReplaceAll(msg, a), b) == ReplaceAll(ReplaceAll(msg, b), a)
  }

  // ---------- independent secrets ----------

  lemma {:induction false} MarkerReplacesItself(msg: string)
    ensures ReplaceAll(msg, MARKER) == msg
  {
    if |msg| >= |MARKER| {
      if MARKER <= msg {
        MarkerReplacesItself(msg[|MARKER|..]);
        assert msg == MARKER + msg[|MARKER|..];
      } else {
        MarkerReplacesItself(msg[1..]);
      }
    }
  }

  lemma PassesOverMarker(rest: string, b: string)
    requires b != "" && !StartsInMarker(b)
    ensures ReplaceAll(MARKER + rest, b) == MARKER + ReplaceAll(rest, b)
  {
    forall i | 0 <= i < |MARKER|
      ensures !(b <= (MARKER + rest)[i..])
    {
      if b <= (MARKER + rest)[i..] {
        FoundInMarker(rest, b, i);
      }
    }
    PassesOver(MARKER, rest, b);
  }

  lemma SuffixIsPrefix(a: string, rest: string, b: string, i: nat)
    requires |a| == |b| && i < |a| && b <= (a + rest)[i..]
    ensures a[i..] <= b && (i == 0 ==> a == b)
  {
    assert b[..|a| - i] == (a + rest)[i..|a|] == a[i..];
    assert a[0..] == a;
  }

  lemma OccursInOther(a: string, rest: string, b: string, i: nat)
    requires |a| == |b| && i < |a| && b <= (a + rest)[i..]
    ensures a == b || Overlap(a, b)
  {
    SuffixIsPrefix(a, rest, b, i);
  }

  lemma PassesOverOther(a: string, rest: string, b: string)
    requires |a| == |b| && a != b && !Overlap(a, b)
    ensures ReplaceAll(a + rest, b) == a + ReplaceAll(rest, b)
  {
    forall i | 0 <= i < |a|
      ensures !(b <= (a + rest)[i..])
    {
      if b <= (a + rest)[i..] {
        OccursInOther(a, rest, b, i);
      }
    }
    PassesOver(a, rest, b);
  }

  lemma ReplacesFront(a: string, rest: string)
    requires a != ""
    ensures ReplaceAll(a + rest, a) == MARKER + ReplaceAll(rest, a)
  {
    assert (a + rest)[|a|..] == rest;
  }

  lemma SwapAtFront(rest: string, a: string, b: string)
    requires |a| == |b| && a != b && Apart(a, b) && !StartsInMarker(b)
    requires ReplaceAll(ReplaceAll(rest, a), b) == ReplaceAll(ReplaceAll(rest, b), a)
    ensures ReplaceAll(ReplaceAll(a + rest, a), b) == ReplaceAll(ReplaceAll(a + rest, b), a)
  {
    ReplacesFront(a, rest);
    PassesOverMarker(ReplaceAll(rest, a), b);
    PassesOverOther(a, rest, b);
    ReplacesFront(a, ReplaceAll(rest, b));
  }

  lemma SwapKeepsHead(msg: string, a: string, b: string)
    requires a != "" && b != "" && !Made(b, a) && msg != "" && !(a <= msg) && !(b <= msg)
    ensures ReplaceAll(ReplaceAll(msg, a), b) == [msg[0]] + ReplaceAll(ReplaceAll(msg[1..], a), b)
  {
    KeepsHead(msg, a);
    var once := ReplaceAll(msg, a);
    if b <= once {
      FrontIsMade(msg, a, b);
    }
    KeepsHead(once, b);
  }

  lemma {:induction false} ApartCommute(msg: string, a: string, b: string)
    requires |a| == |b| && a != b && Apart(a, b) && !Made(a, b) && !Made(b, a)
    ensures ReplaceAll(ReplaceAll(msg, a), b) == ReplaceAll(ReplaceAll(msg, b), a)
    decreases |msg|
  {
    if |msg| >= |a| {
      if a <= msg {
        ApartCommute(msg[|a|..], a, b);
        assert msg == a + msg[|a|..];
        SwapAtFront(msg[|a|..], a, b);
      } else if b <= msg {
        ApartCommute(msg[|b|..], a, b);
        assert msg == b + msg[|b|..];
        SwapAtFront(msg[|b|..], b, a);
      } else {
        ApartCommute(msg[1..], a, b);
        SwapKeepsHead(msg, a, b);
        SwapKeepsHead(msg, b, a);
      }
    }
  }

  /** The order of independent secrets of one length does not matter. */
  lemma IndependentCommute(msg: string, a: string, b: string)
    requires |a| == |b| && a != b && Independent(a, b)
    ensures ReplaceAll(ReplaceAll(msg, a), b) == ReplaceAll(ReplaceAll(msg, b), a)
  {
    if a == MARKER {
      MarkerReplacesItself(msg);
      MarkerReplacesItself(ReplaceAll(msg, b));
    } else if b == MARKER {
      MarkerReplacesItself(msg);
      MarkerReplacesItself(ReplaceAll(msg, a));
    } else {
      ApartCommute(msg, a, b);
    }
  }

  // ---------- a secret made by replacing the other ----------

  lemma {:induction false} OutputLength(msg: string, s: string)
    requires s != ""
    ensures |s| <= |MARKER| ==> |ReplaceAll(msg, s)| >= |msg|
    ensures |s| >= |MARKER| ==> |ReplaceAll(msg, s)| <= |msg|
    decreases |msg|
  {
    if |msg| >= |s| {
      if s <= msg {
        OutputLength(msg[|s|..], s);
      } else {
        OutputLength(msg[1..], s);
      }
    }
  }

  /** A message that holds a secret is changed by replacing it. */
  lemma ChangesWhatItFinds(msg: string, s: string)
    requires s != "" && s != MARKER && Contains(msg, s)
    ensures ReplaceAll(msg, s) != msg
  {
    var k := FirstIn(msg, s);
    ReplacesFirst(msg, s, k);
    OutputLength(msg[k..][|s|..], s);
    var out := ReplaceAll(msg, s);
    assert out[k..][..|MARKER|] == MARKER;
    assert |s| == |MARKER| ==> msg[k..][..|MARKER|] == s;
  }

  /** A message without `a` in which replacing `b` makes an `a` tells the two orders apart. */
  lemma MakingTells(msg: string, a: string, b: string)
    requires a != "" && b != "" && a != MARKER && !Contains(msg, a) && Contains(ReplaceAll(msg, b), a)
    ensures ReplaceAll(ReplaceAll(msg, a), b) != ReplaceAll(ReplaceAll(msg, b), a)
  {
    NothingToReplace(msg, a);
    ChangesWhatItFinds(ReplaceAll(msg, b), a);
  }

  /** A secret inside the marker comes with every replacement of the other. */
  lemma InsideMatters(a: string, b: string)
    requires |a| == |b| && a != b && a != "" && a != MARKER && Contains(MARKER, a)
    ensures ReplaceAll(ReplaceAll(b, a), b) != ReplaceAll(ReplaceAll(b, b), a)
  {
    assert b[0..] == b;
    if Contains(b, a) {
      var k := FirstIn(b, a);
    }
    assert ReplaceAll(b, b) == MARKER + ReplaceAll("", b) == MARKER;
    MakingTells(b, a, b);
  }

  lemma NotNearOther(a: string, b: string, msg: string)
    requires |a| == |b| && a != b && a != "" && !Overlap(b, a) && b <= msg && |msg| < 2 * |b|
    ensures !Contains(msg, a)
  {
    assert msg == b + msg[|b|..];
    if Contains(msg, a) {
      var i := FirstIn(msg, a);
      OccursInOther(b, msg[|b|..], a, i);
    }
  }

  lemma StartMatters(a: string, b: string, k: nat) returns (msg: string)
    requires |a| == |b| && a != b && a != "" && a != MARKER && k < |MARKER| && Fit(MARKER[k..], a)
    requires !Overlap(b, a)
    ensures ReplaceAll(ReplaceAll(msg, a), b) != ReplaceAll(ReplaceAll(msg, b), a)
  {
    msg := StartIsMade(a, b, k);
    NotNearOther(a, b, msg);
    MakingTells(msg, a, b);
  }

  lemma RunMatters(a: string, b: string, k: nat) returns (msg: string)
    requires |a| == |b| && a != b && a != MARKER && Apart(a, b)
    requires 0 < k < |a| && Fit(a[k..], MARKER) && FoundAfter(a[..k], b)
    ensures ReplaceAll(ReplaceAll(msg, a), b) != ReplaceAll(ReplaceAll(msg, b), a)
  {
    msg := a[..k] + (b + Beyond(a, k));
    RunIsMade(a, b, k);
    if Contains(msg, a) {
      var i := FirstIn(msg, a);
      OccursAround(a, b, k, Beyond(a, k), i);
    }
    MakingTells(msg, a, b);
  }

  lemma RestIsPrefix(a: string, b: string, k: nat, more: string, i: nat)
    requires |a| == |b| && i < k < |a| && a <= (a[..k] + (b + more))[i..]
    ensures a[k - i..] <= b
  {
    var msg := a[..k] + (b + more);
    assert a[k - i..] == msg[i..][k - i..|a|] == b[..|a| - (k - i)];
  }

  lemma OccursAround(a: string, b: string, k: nat, more: string, i: nat)
    requires |a| == |b| && 0 < k < |a| && i < k + |b| && a <= (a[..k] + (b + more))[i..]
    ensures a == b || Overlap(a, b) || Overlap(b, a)
  {
    var msg := a[..k] + (b + more);
    if i < k {
      RestIsPrefix(a, b, k, more, i);
    } else {
      assert msg[i..] == (b + more)[i - k..];
      OccursInOther(b, more, a, i - k);
    }
  }

  lemma MadeMatters(a: string, b: string) returns (msg: string)
    requires |a| == |b| && a != b && a != "" && a != MARKER && Apart(a, b) && Made(a, b)
    ensures ReplaceAll(ReplaceAll(msg, a), b) != ReplaceAll(ReplaceAll(msg, b), a)
  {
    if StartsInMarker(a) {
      var k :| 0 <= k < |MARKER| && Fit(MARKER[k..], a);
      msg := StartMatters(a, b, k);
    } else {
      var k :| 0 < k < |a| && Fit(a[k..], MARKER) && FoundAfter(a[..k], b);
      msg := RunMatters(a, b, k);
    }
  }

  // ---------- secrets that overlap ----------

  /** The longest overlap, from `i` on. */
  lemma {:induction false} LongestOverlap(a: string, b: string, i: nat) returns (k: nat)
    requires 0 < i && exists j :: i <= j < |a| && a[j..] <= b
    requires forall j :: 0 < j < i ==> !(a[j..] <= b)
    ensures 0 < k < |a| && a[k..] <= b && forall j :: 0 < j < k ==> !(a[j..] <= b)
    decreases |a| - i
  {
    if a[i..] <= b {
      k := i;
    } else {
      k := LongestOverlap(a, b, i + 1);
    }
  }

  /** `k` is where `b` starts in the longest overlap of `a` and `b`, `tail` what it adds. */
  ghost predicate Joined(a: string, b: string, k: nat, tail: string) {
    && |a| == |b| && a != b && 0 < k < |a| && |tail| == k && b == a[k..] + tail
    && forall j :: 0 < j < k ==> !(a[j..] <= b)
  }

  lemma Join(a: string, b: string) returns (k: nat, tail: string)
    requires |a| == |b| && a != b && Overlap(a, b)
    ensures Joined(a, b, k, tail)
  {
    k := LongestOverlap(a, b, 1);
    tail := b[|a| - k..];
    assert b == b[..|a| - k] + tail;
  }

  function Joint(a: string, k: nat, b: string): string
    requires k <= |a|
  {
    a[..k] + b
  }

  lemma JointIsBoth(a: string, b: string, k: nat, tail: string)
    requires Joined(a, b, k, tail)
    ensures Joint(a, k, b) == a + tail
  {
    assert a == a[..k] + a[k..];
  }

  /** In the joint text `b` is first found at `k`, and `a` only at the front. */
  lemma FoundInJoint(a: string, b: string, k: nat, tail: string, j: nat)
    requires Joined(a, b, k, tail) && j <= |Joint(a, k, b)|
    ensures b <= Joint(a, k, b)[j..] ==> j >= k
    ensures a <= Joint(a, k, b)[j..] ==> j == 0
  {
    var joint := Joint(a, k, b);
    JointIsBoth(a, b, k, tail);
    assert a[..k] + (b + "") == joint && joint[k..] == b;
    if b <= joint[j..] && j < k {
      SuffixIsPrefix(a, tail, b, j);
    }
    if a <= joint[j..] && 0 < j < k {
      RestIsPrefix(a, b, k, "", j);
    }
  }

  lemma FoundAfterPart(a: string, b: string, k: nat, tail: string, i: nat)
    requires Joined(a, b, k, tail) && i <= k
    ensures FoundAfter(a[i..k], b) && Joint(a, k, b)[i..] == a[i..k] + b
  {
    assert Joint(a, k, b)[i..] == a[i..k] + b;
    forall j | 0 <= j < k - i
      ensures !(b <= (a[i..k] + b)[j..])
    {
      assert (a[i..k] + b)[j..] == Joint(a, k, b)[i + j..];
      FoundInJoint(a, b, k, tail, i + j);
    }
  }

  lemma ReplacesPart(a: string, b: string, k: nat, tail: string, i: nat)
    requires Joined(a, b, k, tail) && i <= k
    ensures ReplaceAll(a[i..k] + b, b) == a[i..k] + MARKER
  {
    FoundAfterPart(a, b, k, tail, i);
    ReplacesOnly(a[i..k], b, "");
    assert b + "" == b && MARKER + "" == MARKER;
  }

  lemma NoneLater(a: string, b: string, k: nat, tail: string, i: nat)
    requires Joined(a, b, k, tail) && 0 < i <= k
    ensures !Contains(a[i..k] + b, a)
  {
    var msg := a[i..k] + b;
    forall j | 0 <= j <= |msg|
      ensures !(a <= msg[j..])
    {
      assert msg[j..] == Joint(a, k, b)[i + j..];
      FoundInJoint(a, b, k, tail, i + j);
    }
    NotContained(msg, a);
  }

  lemma DropInside(a: string, k: nat, rest: string, i: nat)
    requires i <= k <= |a|
    ensures (a[..k] + rest)[i..] == a[i..k] + rest
  {
  }

  /** If replacing `b` makes an `a` further on, the text from there tells the orders apart. */
  lemma LaterFrontTells(a: string, b: string, k: nat, tail: string, i: nat)
    requires Joined(a, b, k, tail) && a != MARKER && 0 < i < k && a <= (a[..k] + MARKER)[i..]
    ensures ReplaceAll(ReplaceAll(a[i..k] + b, a), b) != ReplaceAll(ReplaceAll(a[i..k] + b, b), a)
  {
    ReplacesPart(a, b, k, tail, i);
    DropInside(a, k, MARKER, i);
    NoneLater(a, b, k, tail, i);
    assert a <= a[i..k] + MARKER;
    MakingTells(a[i..k] + b, a, b);
  }

  /** If replacing `a` makes a `b` that ends early, the text up to there does. */
  lemma EarlyEndTells(a: string, b: string, k: nat, tail: string, m: nat)
    requires Joined(a, b, k, tail) && b != MARKER && m < k && Contains(MARKER + tail[..m], b)
    ensures ReplaceAll(ReplaceAll(a + tail[..m], a), b) != ReplaceAll(ReplaceAll(a + tail[..m], b), a)
  {
    var msg := a + tail[..m];
    assert msg[|a|..] == tail[..m];
    JointIsBoth(a, b, k, tail);
    forall j | 0 <= j <= |msg|
      ensures !(b <= msg[j..])
    {
      if b <= msg[j..] {
        assert msg[j..] <= Joint(a, k, b)[j..];
        FoundInJoint(a, b, k, tail, j);
      }
    }
    NotContained(msg, b);
    MakingTells(msg, b, a);
  }

  // ---------- the joint text itself ----------

  lemma MarkerStartsOnce(k: nat)
    requires 0 < k < |MARKER|
    ensures MARKER[k] != MARKER[0]
  {
  }

  lemma ShiftedMarkers(a: string, b: string, k: nat, tail: string)
    requires Joined(a, b, k, tail) && MARKER + tail == a[..k] + MARKER
    ensures Absorbing(a, b)
  {
    var all := MARKER + tail;
    assert all[k] == MARKER[0];
    if k < |MARKER| {
      MarkerStartsOnce(k);
    }
    assert a[..|MARKER|] == all[..|MARKER|] == MARKER;
    assert b[|b| - |MARKER|..] == tail[k - |MARKER|..] == all[k..] == MARKER;
  }

  /** Neither replacement makes anything more. */
  lemma NothingMadeTells(a: string, b: string, k: nat, tail: string)
    requires Joined(a, b, k, tail) && !Absorbing(a, b)
    ensures MARKER + tail != a[..k] + MARKER
  {
    if MARKER + tail == a[..k] + MARKER {
      ShiftedMarkers(a, b, k, tail);
    }
  }

  /** Only replacing `a` makes a `b`, at the very end. */
  lemma EndMadeTells(a: string, b: string, k: nat, tail: string, i: nat)
    requires Joined(a, b, k, tail) && a != MARKER && i < |MARKER| && b == MARKER[i..] + tail
    ensures MARKER[..i] + MARKER != a[..k] + MARKER
  {
    assert a[k..] == b[..|b| - k] == MARKER[i..];
    assert a == a[..k] + a[k..] && MARKER == MARKER[..i] + MARKER[i..];
    assert (MARKER[..i] + MARKER)[..i] == MARKER[..i] && (a[..k] + MARKER)[..k] == a[..k];
  }

  /** Only replacing `b` makes an `a`, at the very front. */
  lemma FrontMadeTells(a: string, b: string, k: nat, tail: string)
    requires Joined(a, b, k, tail) && b != MARKER && a <= a[..k] + MARKER
    ensures MARKER + tail != MARKER + (a[..k] + MARKER)[|a|..]
  {
    var n, all := |a|, a[..k] + MARKER;
    assert a[k..] == all[k..n] == MARKER[..n - k];
    assert all[n..] == MARKER[n - k..];
    assert (MARKER + tail)[|MARKER|..] == tail && (MARKER + all[n..])[|MARKER|..] == all[n..];
    assert MARKER == MARKER[..n - k] + MARKER[n - k..];
  }

  /** Both cannot happen unless one secret absorbs the other. */
  lemma NotBothMade(a: string, b: string, k: nat, tail: string, i: nat)
    requires Joined(a, b, k, tail) && a <= a[..k] + MARKER && i < |MARKER| && b == MARKER[i..] + tail
    ensures Absorbing(a, b)
  {
    var n := |a|;
    assert a[k..] == (a[..k] + MARKER)[k..n] == MARKER[..n - k];
    assert a[k..] == b[..n - k] == MARKER[i..];
    assert MARKER[..n - k][0] == MARKER[0] && MARKER[i..][0] == MARKER[i];
    if i > 0 {
      MarkerStartsOnce(i);
    }
    assert MARKER[0..] == MARKER;
  }

  /** Replacing `b` in the marker and `tail`: nothing, or a `b` that ends with `tail`. */
  lemma AfterFirst(b: string, tail: string, i: nat)
    requires b != "" && EndsWithTail(b, tail, i)
    ensures ReplaceAll(MARKER + tail, b) == MARKER[..i] + MARKER
  {
    var all := MARKER + tail;
    assert all[i..] == b;
    ReplacesFirst(all, b, i);
    assert all[i..][|b|..] == "" && all[..i] == MARKER[..i];
    assert MARKER + ReplaceAll("", b) == MARKER;
  }

  /** Replacing `a` in the text before `b` and the marker: an `a` at the front. */
  lemma AfterFront(a: string, k: nat)
    requires 0 < k < |a| && !Contains(MARKER, a) && a <= a[..k] + MARKER
    ensures ReplaceAll(a[..k] + MARKER, a) == MARKER + (a[..k] + MARKER)[|a|..]
  {
    var rest := (a[..k] + MARKER)[|a|..];
    assert rest == MARKER[|a| - k..];
    if Contains(rest, a) {
      ContainsAfter(MARKER, |a| - k, a);
    }
    NothingToReplace(rest, a);
  }

  /** In the marker and `tail`, `b` is first found at `i` and ends with `tail`. */
  predicate EndsWithTail(b: string, tail: string, i: nat) {
    i < |MARKER| && b == MARKER[i..] + tail && forall j :: 0 <= j < i ==> !(b <= (MARKER + tail)[j..])
  }

  ghost predicate OnlyAtEnd(b: string, tail: string) {
    Contains(MARKER + tail, b) ==> exists i: nat :: EndsWithTail(b, tail, i)
  }

  /** Where no shorter text does, the joint text tells the orders apart. */
  lemma JointTells(a: string, b: string, k: nat, tail: string)
    requires Joined(a, b, k, tail) && a != MARKER && b != MARKER && !Absorbing(a, b) && !Contains(MARKER, a)
    requires Contains(a[..k] + MARKER, a) ==> a <= a[..k] + MARKER
    requires OnlyAtEnd(b, tail)
    ensures ReplaceAll(MARKER + tail, b) != ReplaceAll(a[..k] + MARKER, a)
  {
    if Contains(a[..k] + MARKER, a) {
      AfterFront(a, k);
    } else {
      NothingToReplace(a[..k] + MARKER, a);
    }
    if Contains(MARKER + tail, b) {
      var i: nat :| EndsWithTail(b, tail, i);
      AfterFirst(b, tail, i);
      if Contains(a[..k] + MARKER, a) {
        NotBothMade(a, b, k, tail, i);
      } else {
        EndMadeTells(a, b, k, tail, i);
      }
    } else {
      NothingToReplace(MARKER + tail, b);
      if Contains(a[..k] + MARKER, a) {
        FrontMadeTells(a, b, k, tail);
      } else {
        NothingMadeTells(a, b, k, tail);
      }
    }
  }

  lemma JointOutputs(a: string, b: string, k: nat, tail: string)
    requires Joined(a, b, k, tail)
    ensures ReplaceAll(a + tail, a) == MARKER + tail && ReplaceAll(a + tail, b) == a[..k] + MARKER
  {
    assert (a + tail)[|a|..] == tail;
    JointIsBoth(a, b, k, tail);
    ReplacesPart(a, b, k, tail, 0);
    assert a[0..k] == a[..k];
  }

  lemma FoundInHead(head: string, tail: string, t: string, i: nat)
    requires i + |t| <= |head| && t <= (head + tail)[i..]
    ensures Contains(head, t)
  {
    assert (head + tail)[i..] == head[i..] + tail;
    assert t == (head[i..] + tail)[..|t|];
    assert t <= head[i..];
    ContainsAfter(head, i, t);
  }

  lemma FoundInTail(head: string, tail: string, t: string, i: nat)
    requires |head| <= i <= |head + tail| && t <= (head + tail)[i..]
    ensures Contains(tail, t)
  {
    assert (head + tail)[i..] == tail[i - |head|..];
    ContainsAfter(tail, i - |head|, t);
  }

  lemma EndsWithin(head: string, tail: string, t: string, i: nat, m: nat)
    requires i <= |head| && m <= |tail| && i + |t| == |head| + m && t <= (head + tail)[i..]
    ensures t == head[i..] + tail[..m] && Contains(head + tail[..m], t)
  {
    assert (head + tail)[i..] == head[i..] + tail;
    assert t == (head[i..] + tail)[..|t|];
    assert t == head[i..] + tail[..m];
    assert (head + tail[..m])[i..] == t;
    ContainsAfter(head + tail[..m], i, t);
  }

  lemma FrontTells(a: string, b: string, k: nat, tail: string) returns (msg: string)
    requires Joined(a, b, k, tail) && a != MARKER && !Contains(MARKER, a)
    requires Contains(a[..k] + MARKER, a) && !(a <= a[..k] + MARKER)
    ensures ReplaceAll(ReplaceAll(msg, a), b) != ReplaceAll(ReplaceAll(msg, b), a)
  {
    var i := FirstIn(a[..k] + MARKER, a);
    assert (a[..k] + MARKER)[0..] == a[..k] + MARKER;
    if i >= k {
      FoundInTail(a[..k], MARKER, a, i);
    }
    LaterFrontTells(a, b, k, tail, i);
    msg := a[i..k] + b;
  }

  lemma EndTells(a: string, b: string, k: nat, tail: string) returns (msg: string)
    requires Joined(a, b, k, tail) && b != MARKER && !Contains(MARKER, b) && !OnlyAtEnd(b, tail)
    ensures ReplaceAll(ReplaceAll(msg, a), b) != ReplaceAll(ReplaceAll(msg, b), a)
  {
    var i := FirstIn(MARKER + tail, b);
    if i + |b| <= |MARKER| {
      FoundInHead(MARKER, tail, b, i);
    }
    var m: nat := i + |b| - |MARKER|;
    EndsWithin(MARKER, tail, b, i, m);
    assert tail[..|tail|] == tail;
    assert m == |tail| ==> EndsWithTail(b, tail, i);
    EarlyEndTells(a, b, k, tail, m);
    msg := a + tail[..m];
  }

  /** Overlapping secrets, neither inside the marker and neither absorbing the other, are told apart. */
  lemma OverlapMatters(a: string, b: string) returns (msg: string)
    requires |a| == |b| && a != b && a != MARKER && b != MARKER && Overlap(a, b)
    requires !Contains(MARKER, a) && !Contains(MARKER, b) && !Absorbing(a, b)
    ensures ReplaceAll(ReplaceAll(msg, a), b) != ReplaceAll(ReplaceAll(msg, b), a)
  {
    var k, tail := Join(a, b);
    if Contains(a[..k] + MARKER, a) && !(a <= a[..k] + MARKER) {
      msg := FrontTells(a, b, k, tail);
    } else if !OnlyAtEnd(b, tail) {
      msg := EndTells(a, b, k, tail);
    } else {
      JointTells(a, b, k, tail);
      JointOutputs(a, b, k, tail);
      msg := a + tail;
    }
  }

  // ---------- the exact condition ----------

  lemma DependentMatters(a: string, b: string) returns (msg: string)
    requires |a| == |b| && a != b && a != "" && !Independent(a, b) && !Absorbing(a, b)
    ensures ReplaceAll(ReplaceAll(msg, a), b) != ReplaceAll(ReplaceAll(msg, b), a)
  {
    if Contains(MARKER, a) {
      InsideMatters(a, b);
      msg := b;
    } else if Contains(MARKER, b) {
      InsideMatters(b, a);
      msg := a;
    } else if Overlap(a, b) {
      msg := OverlapMatters(a, b);
    } else if Overlap(b, a) {
      msg := OverlapMatters(b, a);
    } else if Made(a, b) {
      msg := MadeMatters(a, b);
    } else {
      msg := MadeMatters(b, a);
    }
  }

  /**
   For two secrets of one length, unless one ends with the marker and the other
   starts with it, the order is immaterial on every message exactly when they
   are independent.
   */
  lemma OrderMattersIff(a: string, b: string)
    requires |a| == |b| && a != b && a != "" && !Absorbing(a, b)
    ensures OrderIsImmaterial(a, b) <==> Independent(a, b)
  {
    if Independent(a, b) {
      forall msg
        ensures ReplaceAll(ReplaceAll(msg, a), b) == ReplaceAll(ReplaceAll(msg, b), a)
      {
        IndependentCommute(msg, a, b);
      }
    } else {
      var msg := DependentMatters(a, b);
    }
  }

  // ---------- secrets that absorb each other ----------

  /** `a` ends with the marker, `b` starts with it, and that is all the two and the marker share. */
  ghost predicate Absorbs(a: string, b: string) {
    && |a| == |b| > |MARKER| && EndsWithMarker(a) && MARKER <= b && !Overlap(b, a)
    && !StartsInMarker(a) && (forall k :: 0 < k < |MARKER| ==> !Fit(MARKER[k..], b))
    && !RunsIntoMarker(b) && (forall k :: 0 < k < |a| && Fit(a[k..], MARKER) ==> k == |a| - |MARKER|)
  }

  /** What `b` adds to the marker. */
  function Added(b: string): string
    requires MARKER <= b
  {
    b[|MARKER|..]
  }

  lemma StaysInFront(a: string, b: string, rest: string)
    requires Absorbs(a, b)
    ensures ReplaceAll(a + rest, b) == a[..|a| - |MARKER|] + ReplaceAll(MARKER + rest, b)
  {
    var head := a[..|a| - |MARKER|];
    assert a + rest == head + (MARKER + rest);
    forall i | 0 <= i < |head|
      ensures !(b <= (head + (MARKER + rest))[i..])
    {
      if b <= (a + rest)[i..] {
        SuffixIsPrefix(a, rest, b, i);
        FitOfPrefix(a, b, i);
      }
    }
    PassesOver(head, MARKER + rest, b);
  }

  lemma FitOfPrefix(a: string, b: string, i: nat)
    requires Absorbs(a, b) && i < |a| && a[i..] <= b
    ensures i == |a| - |MARKER|
  {
    assert Fit(a[i..], MARKER);
    assert a[0..] == a && MARKER[0..] == MARKER;
    assert i == 0 ==> Fit(MARKER[0..], a);
  }

  lemma AtMarker(a: string, b: string, rest: string)
    requires Absorbs(a, b)
    ensures ReplaceAll(MARKER + rest, b)
         == MARKER + ReplaceAll(if Added(b) <= rest then rest[|Added(b)|..] else rest, b)
  {
    var all := MARKER + rest;
    assert b == MARKER + Added(b);
    if Added(b) <= rest {
      assert all == b + rest[|Added(b)|..];
      assert all[|b|..] == rest[|Added(b)|..];
    } else {
      forall i | 0 <= i < |MARKER|
        ensures !(b <= all[i..])
      {
        if b <= all[i..] {
          if i == 0 {
            AddedFollows(b, rest);
          } else {
            FitsFrom(b, rest, i);
          }
        }
      }
      PassesOver(MARKER, rest, b);
    }
  }

  lemma AddedFollows(b: string, rest: string)
    requires MARKER <= b <= (MARKER + rest)[0..]
    ensures Added(b) <= rest
  {
    assert (MARKER + rest)[0..] == MARKER + rest && (MARKER + rest)[|MARKER|..] == rest;
  }

  lemma FitsFrom(b: string, rest: string, i: nat)
    requires i < |MARKER| && b <= (MARKER + rest)[i..]
    ensures Fit(MARKER[i..], b)
  {
    assert (MARKER + rest)[i..] == MARKER[i..] + rest;
  }

  lemma AddedRuns(b: string, k: nat)
    requires MARKER <= b && k < |Added(b)| && Fit(Added(b)[k..], MARKER)
    ensures RunsIntoMarker(b)
  {
    assert Added(b)[k..] == b[|MARKER| + k..];
  }

  /** Replacing `a` neither makes nor unmakes what `b` adds. */
  lemma AddedIsKept(a: string, b: string, rest: string)
    requires Absorbs(a, b)
    ensures Added(b) <= ReplaceAll(rest, a) <==> Added(b) <= rest
    ensures Added(b) <= rest ==> ReplaceAll(rest, a) == Added(b) + ReplaceAll(rest[|Added(b)|..], a)
  {
    var v := Added(b);
    if v <= rest {
      var more := rest[|v|..];
      assert rest == v + more;
      forall i | 0 <= i < |v|
        ensures !(a <= (v + more)[i..])
      {
        if a <= (v + more)[i..] {
          assert (b + more)[|MARKER| + i..] == (v + more)[i..];
          SuffixIsPrefix(b, more, a, |MARKER| + i);
        }
      }
      PassesOver(v, more, a);
    } else if v <= ReplaceAll(rest, a) {
      var k := FrontFits(rest, a, v);
      AddedRuns(b, k);
    }
  }

  /** What is left to replace after `a + rest` has become a marker. */
  function Unabsorbed(b: string, rest: string): string
    requires MARKER <= b
  {
    if Added(b) <= rest then rest[|Added(b)|..] else rest
  }

  lemma FirstThenAbsorb(rest: string, a: string, b: string)
    requires Absorbs(a, b)
    ensures ReplaceAll(ReplaceAll(a + rest, a), b) == MARKER + ReplaceAll(ReplaceAll(Unabsorbed(b, rest), a), b)
  {
    ReplacesFront(a, rest);
    var once := ReplaceAll(rest, a);
    AddedIsKept(a, b, rest);
    AtMarker(a, b, once);
    var v := Added(b);
    if v <= rest {
      assert once[|v|..] == ReplaceAll(rest[|v|..], a);
    }
  }

  lemma AbsorbThenFirst(rest: string, a: string, b: string)
    requires Absorbs(a, b)
    ensures ReplaceAll(ReplaceAll(a + rest, b), a) == MARKER + ReplaceAll(ReplaceAll(Unabsorbed(b, rest), b), a)
  {
    var after := ReplaceAll(Unabsorbed(b, rest), b);
    StaysInFront(a, b, rest);
    AtMarker(a, b, rest);
    MarkerAtEnd(a, after);
    ReplacesFront(a, after);
  }

  lemma MarkerAtEnd(a: string, after: string)
    requires EndsWithMarker(a)
    ensures a[..|a| - |MARKER|] + (MARKER + after) == a + after
  {
    assert a == a[..|a| - |MARKER|] + MARKER;
  }

  lemma AbsorbBehind(rest: string, a: string, b: string)
    requires Absorbs(a, b) && ReplaceAll(ReplaceAll(rest, a), b) == ReplaceAll(ReplaceAll(rest, b), a)
    ensures ReplaceAll(ReplaceAll(b + rest, a), b) == ReplaceAll(ReplaceAll(b + rest, b), a)
  {
    ReplacesFront(b, rest);
    PassesOverMarker(ReplaceAll(rest, b), a);
    PassesOverOther(b, rest, a);
    ReplacesFront(b, ReplaceAll(rest, a));
  }

  lemma AbsorbKeepsHead(msg: string, a: string, b: string)
    requires Absorbs(a, b) && msg != "" && !(a <= msg) && !(b <= msg)
    ensures ReplaceAll(ReplaceAll(msg, a), b) == [msg[0]] + ReplaceAll(ReplaceAll(msg[1..], a), b)
    ensures ReplaceAll(ReplaceAll(msg, b), a) == [msg[0]] + ReplaceAll(ReplaceAll(msg[1..], b), a)
  {
    assert msg[0..] == msg && a[0..] == a;
    KeepsHead(msg, a);
    KeepsHead(msg, b);
    if b <= ReplaceAll(msg, a) {
      var k := FrontFits(msg, a, b);
    }
    if a <= ReplaceAll(msg, b) {
      var k := FrontFits(msg, b, a);
      AbsorbedInMessage(msg, a, b, k);
    }
    KeepsHead(ReplaceAll(msg, a), b);
    KeepsHead(ReplaceAll(msg, b), a);
  }

  lemma AbsorbedInMessage(msg: string, a: string, b: string, k: nat)
    requires Absorbs(a, b) && k < |a| && k <= |msg| && a[..k] == msg[..k] && b <= msg[k..] && Fit(a[k..], MARKER)
    ensures a <= msg || b <= msg
  {
    assert msg[0..] == msg;
    if k > 0 {
      assert a == a[..k] + MARKER;
      assert MARKER <= msg[k..];
    }
  }

  /** Such secrets overlap, and still their order does not matter. */
  lemma {:induction false} AbsorbCommute(msg: string, a: string, b: string)
    requires Absorbs(a, b)
    ensures ReplaceAll(ReplaceAll(msg, a), b) == ReplaceAll(ReplaceAll(msg, b), a)
    decreases |msg|
  {
    if |msg| >= |a| {
      if a <= msg {
        var rest := msg[|a|..];
        AbsorbCommute(Unabsorbed(b, rest), a, b);
        assert msg == a + rest;
        FirstThenAbsorb(rest, a, b);
        AbsorbThenFirst(rest, a, b);
      } else if b <= msg {
        AbsorbCommute(msg[|b|..], a, b);
        assert msg == b + msg[|b|..];
        AbsorbBehind(msg[|b|..], a, b);
      } else {
        AbsorbCommute(msg[1..], a, b);
        AbsorbKeepsHead(msg, a, b);
      }
    }
  }

  /** Overlapping secrets whose order does not matter exist. */
  lemma OverlapCanBeHarmless()
    ensures var a, b := "x" + MARKER, MARKER + "y";
            Overlap(a, b) && Absorbing(a, b) && OrderIsImmaterial(a, b)
  {
    var a, b := "x" + MARKER, MARKER + "y";
    assert a[1..] == MARKER && a[|a| - |MARKER|..] == MARKER;
    assert forall k :: 0 <= k < |MARKER| ==> MARKER[k] != 'x' && MARKER[k] != 'y';
    assert forall k :: 0 < k < |MARKER| ==> MARKER[k] != '<';
    ExampleAbsorbs(a, b);
    forall msg
      ensures ReplaceAll(ReplaceAll(msg, a), b) == ReplaceAll(ReplaceAll(msg, b), a)
    {
      AbsorbCommute(msg, a, b);
    }
  }

  lemma FitStartsAlike(s: string, t: string)
    requires s != "" && t != ""
    ensures Fit(s, t) ==> s[0] == t[0]
  {
  }

  lemma ExampleAbsorbs(a: string, b: string)
    requires a == "x" + MARKER && b == MARKER + "y"
    requires forall k :: 0 <= k < |MARKER| ==> MARKER[k] != 'x' && MARKER[k] != 'y'
    requires forall k :: 0 < k < |MARKER| ==> MARKER[k] != '<'
    ensures Absorbs(a, b)
  {
    assert a[|a| - |MARKER|..] == MARKER && a[0] == 'x';
    assert forall k :: 0 < k < |a| ==> a[k] == MARKER[k - 1];
    assert forall k :: 0 < k < |b| ==> b[k] == if k < |MARKER| then MARKER[k] else 'y';
    assert MARKER[0] == '<';
    forall k | 0 < k < |b|
      ensures !(b[k..] <= a) && !Fit(b[k..], MARKER)
    {
      assert b[k..][0] == b[k];
      FitStartsAlike(b[k..], MARKER);
      FitStartsAlike(b[k..], a);
    }
    forall k | 0 <= k < |MARKER|
      ensures !Fit(MARKER[k..], a) && (k > 0 ==> !Fit(MARKER[k..], b))
    {
      assert MARKER[k..][0] == MARKER[k];
      FitStartsAlike(MARKER[k..], a);
      FitStartsAlike(MARKER[k..], b);
    }
    forall k | 0 < k < |a|
      ensures Fit(a[k..], MARKER) ==> k == |a| - |MARKER|
    {
      FitStartsAlike(a[k..], MARKER);
    }
  }
}
