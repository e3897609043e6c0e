/**
 The token-bucket limiter of `internal/ratelimit`, with its idle-bucket
 sweep. Token counts are real numbers; clock readings are arbitrary integers
 of nanoseconds, in the order in which the mutex was taken.
 */
module RateLimit {
  import opened Prelude
  import opened Numerals

  const SECOND: int := 1_000_000_000

  datatype Bucket = Bucket(tokens: real, lastCheck: Instant)

  type Buckets = map<string, Bucket>

  type Limits = l: RawLimits | l.rate >= 1 && l.window >= SECOND witness RawLimits(1, SECOND)

  datatype RawLimits = RawLimits(rate: int, window: int)

  /** The clamps `New` applies. */
  function Clamp(rate: int, window: int): Limits {
    RawLimits(if rate < 1 then 1 else rate, if window < SECOND then SECOND else window)
  }

  function Seconds(d: int): real {
    d as real / SECOND as real
  }

  /** Tokens earned over `d` nanoseconds; negative if the clock ran backwards. */
  function Gain(l: Limits, d: int): real {
    Seconds(d) * (l.rate as real / Seconds(l.window))
  }

  function Refilled(l: Limits, b: Bucket, now: Instant): real {
    var tokens := b.tokens + Gain(l, now - b.lastCheck);
    if tokens > l.rate as real then l.rate as real else tokens
  }

  /** One call on one bucket; a missing bucket is made full. */
  function Touch(l: Limits, found: Option<Bucket>, now: Instant): (Bucket, bool) {
    var b := if found.Some? then found.value else Bucket(l.rate as real, now);
    var tokens := Refilled(l, b, now);
    if tokens < 1.0 then (Bucket(tokens, now), false) else (Bucket(tokens - 1.0, now), true)
  }

  function Find(buckets: Buckets, key: string): Option<Bucket> {
    if key in buckets then Some(buckets[key]) else None
  }

  function Swept(l: Limits, buckets: Buckets, now: Instant): Buckets {
    map key | key in buckets && !(buckets[key].lastCheck < now - 2 * l.window) :: buckets[key]
  }

  class Limiter {
    const limits: Limits
    var buckets: Buckets

    constructor (rate: int, window: int)
      ensures limits.rate == (if rate >= 1 then rate else 1) && buckets == map[]
      ensures limits.window == if window >= 1_000_000_000 then window else 1_000_000_000
    {
      limits, buckets := Clamp(rate, window), map[];
    }

    method Allow(key: string, now: Instant) returns (allowed: bool)
      modifies this
      ensures buckets == old(buckets)[key := Touch(limits, Find(old(buckets), key), now).0]
      ensures allowed == Touch(limits, Find(old(buckets), key), now).1
    {
      if key !in buckets {
        buckets := buckets[key := Bucket(limits.rate as real, now)];
      }
      var b := buckets[key];
      var elapsed := now - b.lastCheck;
      var tokens := b.tokens + Seconds(elapsed) * (limits.rate as real / Seconds(limits.window));
      if tokens > limits.rate as real {
        tokens := limits.rate as real;
      }
      if tokens < 1.0 {
        buckets := buckets[key := Bucket(tokens, now)];
        return false;
      }
      buckets := buckets[key := Bucket(tokens - 1.0, now)];
      return true;
    }

    /** One tick of the background sweep. */
    method Sweep(now: Instant)
      modifies this
      ensures buckets == Swept(limits, old(buckets), now)
    {
      var cutoff := now - 2 * limits.window;
      var keys := buckets.Keys;
      while keys != {}
        invariant keys <= old(buckets).Keys
        invariant forall key :: key in buckets <==>
                    key in old(buckets) && (key in keys || !(old(buckets)[key].lastCheck < cutoff))
        invariant forall key :: key in buckets ==> buckets[key] == old(buckets)[key]
        decreases keys
      {
        var key :| key in keys;
        if buckets[key].lastCheck < cutoff {
          buckets := buckets - {key};
        }
        keys := keys - {key};
      }
    }
  }

  // ---------- earning tokens ----------

  lemma GainIsProportional(l: Limits, d: int)
    ensures Gain(l, d) == l.rate as real * d as real / l.window as real
  {
    var s, r, w, x := SECOND as real, l.rate as real, l.window as real, d as real;
    calc {
      (x / s) * (r / (w / s));
      { assert r / (w / s) == r * s / w by { assert (w / s) * (r * s / w) == r; } }
      (x / s) * (r * s / w);
      r * x / w;
    }
  }

  lemma GainAdds(l: Limits, a: int, b: int)
    ensures Gain(l, a + b) == Gain(l, a) + Gain(l, b)
  {
    var perSecond := l.rate as real / Seconds(l.window);
    assert Seconds(a + b) == Seconds(a) + Seconds(b);
    assert (Seconds(a) + Seconds(b)) * perSecond == Seconds(a) * perSecond + Seconds(b) * perSecond;
  }

  lemma GainIsMonotone(l: Limits, a: int, b: int)
    requires a <= b
    ensures Gain(l, a) <= Gain(l, b)
  {
    var r, w := l.rate as real, l.window as real;
    GainIsProportional(l, a);
    GainIsProportional(l, b);
    assert r * a as real <= r * b as real;
    assert r * a as real / w <= r * b as real / w;
  }

  lemma GainMilestones(l: Limits)
    ensures Gain(l, 0) == 0.0 && Gain(l, l.window) == l.rate as real
  {
    GainIsProportional(l, 0);
    GainIsProportional(l, l.window);
  }

  // ---------- runs ----------

  /** What takes the mutex: a request's call or a sweep, with the clock reading it brought along. */
  datatype Event = Call(key: string, now: Instant) | Sweep(now: Instant)

  /** The bucket table after `events`; with `evict` off, sweeps remove nothing. */
  function Table(l: Limits, events: seq<Event>, evict: bool): Buckets {
    if events == [] then map[]
    else
      var before := Table(l, events[..|events| - 1], evict);
      match events[|events| - 1]
      case Call(key, now) => before[key := Touch(l, Find(before, key), now).0]
      case Sweep(now) => if evict then Swept(l, before, now) else before
  }

  /** The answer call number `n` gets. */
  function Allowed(l: Limits, events: seq<Event>, evict: bool, n: nat): bool
    requires n < |events| && events[n].Call?
  {
    Touch(l, Find(Table(l, events[..n], evict), events[n].key), events[n].now).1
  }

  predicate CallOn(event: Event, key: string) {
    event.Call? && event.key == key
  }

  function Count(yes: nat -> bool, i: nat, j: nat): nat
    requires i <= j
    decreases j
  {
    if i == j then 0 else Count(yes, i, j - 1) + if yes(j - 1) then 1 else 0
  }

  /** Whether event `n` is a call on `key` that was let through. */
  function Passes(l: Limits, events: seq<Event>, evict: bool, key: string): nat -> bool {
    (n: nat) => n < |events| && CallOn(events[n], key) && Allowed(l, events, evict, n)
  }

  /** How many of the calls on `key` in `events[i..j]` were let through. */
  function AllowedBetween(l: Limits, events: seq<Event>, evict: bool, key: string, i: nat, j: nat): nat
    requires i <= j <= |events|
  {
    Count(Passes(l, events, evict, key), i, j)
  }

  /** No reading is more than `skew` behind one that took the mutex before it; 0 is lock order. */
  predicate Skewed(events: seq<Event>, skew: nat) {
    forall i, j :: 0 <= i < j < |events| ==> events[i].now - skew <= events[j].now
  }

  /** The state after one more event. */
  lemma TableStep(l: Limits, events: seq<Event>, evict: bool, n: nat)
    requires n < |events|
    ensures var before := Table(l, events[..n], evict);
            Table(l, events[..n + 1], evict)
            == match events[n]
               case Call(key, now) => before[key := Touch(l, Find(before, key), now).0]
               case Sweep(now) => if evict then Swept(l, before, now) else before
  {
    assert events[..n + 1][..n] == events[..n];
  }

  lemma CallTouches(l: Limits, events: seq<Event>, evict: bool, n: nat)
    requires n < |events| && events[n].Call?
    ensures var Call(key, now) := events[n];
            Find(Table(l, events[..n + 1], evict), key)
            == Some(Touch(l, Find(Table(l, events[..n], evict), key), now).0)
  {
    TableStep(l, events, evict, n);
  }

  /** Any other event leaves the key's bucket, unless it sweeps it. */
  lemma OthersKeepBucket(l: Limits, events: seq<Event>, evict: bool, key: string, n: nat)
    requires n < |events| && !CallOn(events[n], key)
    ensures var found, event := Find(Table(l, events[..n], evict), key), events[n];
            Find(Table(l, events[..n + 1], evict), key)
            == if evict && event.Sweep? && found.Some? && found.value.lastCheck < event.now - 2 * l.window then None
               else found
  {
    TableStep(l, events, evict, n);
  }

  // ---------- eviction is unobservable ----------

  /** Dropping a bucket before a call changes nothing exactly when the bucket would have been full. */
  lemma DroppingIsHarmlessIff(l: Limits, b: Bucket, now: Instant)
    ensures Touch(l, None, now) == Touch(l, Some(b), now)
       <==> b.tokens + Gain(l, now - b.lastCheck) >= l.rate as real
  {
    GainMilestones(l);
  }

  /** The bucket owes no more than what its clock has run back since some earlier event. */
  ghost predicate Backed(l: Limits, events: seq<Event>, skew: nat, n: nat, b: Bucket)
    requires n <= |events|
  {
    exists i :: 0 <= i < n && events[i].now - skew <= b.lastCheck && b.tokens >= Gain(l, b.lastCheck - events[i].now)
  }

  /** Some earlier event was more than two windows ahead of the bucket. */
  ghost predicate Idle(l: Limits, events: seq<Event>, n: nat, b: Bucket)
    requires n <= |events|
  {
    exists j :: 0 <= j < n && b.lastCheck < events[j].now - 2 * l.window
  }

  lemma TouchStaysBacked(l: Limits, events: seq<Event>, skew: nat, n: nat, found: Option<Bucket>)
    requires Skewed(events, skew) && n < |events|
    requires found.Some? ==> Backed(l, events, skew, n, found.value)
    ensures Backed(l, events, skew, n + 1, Touch(l, found, events[n].now).0)
  {
    var now, b' := events[n].now, Touch(l, found, events[n].now).0;
    GainMilestones(l);
    if found.Some? {
      var b := found.value;
      var i :| 0 <= i < n && events[i].now - skew <= b.lastCheck && b.tokens >= Gain(l, b.lastCheck - events[i].now);
      GainAdds(l, b.lastCheck - events[i].now, now - b.lastCheck);
      if now <= events[i].now {
        GainIsMonotone(l, now - events[i].now, 0);
        assert b'.tokens >= Gain(l, b'.lastCheck - events[i].now);
      } else {
        GainIsMonotone(l, 0, now - events[i].now);
        assert b'.tokens >= Gain(l, b'.lastCheck - events[n].now);
      }
    } else {
      assert b'.tokens >= Gain(l, b'.lastCheck - events[n].now);
    }
  }

  /** With at most half a window of skew, an idle bucket is full again before its next call. */
  lemma IdleIsFull(l: Limits, events: seq<Event>, skew: nat, n: nat, b: Bucket)
    requires Skewed(events, skew) && 2 * skew <= l.window + 1 && n < |events|
    requires Backed(l, events, skew, n, b) && Idle(l, events, n, b)
    ensures b.tokens + Gain(l, events[n].now - b.lastCheck) >= l.rate as real
  {
    var now := events[n].now;
    var i :| 0 <= i < n && events[i].now - skew <= b.lastCheck && b.tokens >= Gain(l, b.lastCheck - events[i].now);
    var j :| 0 <= j < n && b.lastCheck < events[j].now - 2 * l.window;
    assert l.window <= now - events[i].now;
    GainMilestones(l);
    GainIsMonotone(l, l.window, now - events[i].now);
    GainAdds(l, b.lastCheck - events[i].now, now - b.lastCheck);
  }

  /** After `n` events, one key's bucket with sweeping and without: the same, or swept and idle. */
  ghost predicate Agree(l: Limits, events: seq<Event>, skew: nat, n: nat, swept: Option<Bucket>, kept: Option<Bucket>)
    requires n <= |events|
  {
    && (kept.Some? ==> Backed(l, events, skew, n, kept.value))
    && (swept == kept || (swept.None? && kept.Some? && Idle(l, events, n, kept.value)))
  }

  lemma SameTouch(l: Limits, events: seq<Event>, skew: nat, n: nat, swept: Option<Bucket>, kept: Option<Bucket>)
    requires Skewed(events, skew) && 2 * skew <= l.window + 1 && n < |events|
    requires Agree(l, events, skew, n, swept, kept)
    ensures Touch(l, swept, events[n].now) == Touch(l, kept, events[n].now)
  {
    if swept != kept {
      IdleIsFull(l, events, skew, n, kept.value);
      DroppingIsHarmlessIff(l, kept.value, events[n].now);
    }
  }

  lemma TouchKeepsAgreement(l: Limits, events: seq<Event>, skew: nat, n: nat,
                            swept: Option<Bucket>, kept: Option<Bucket>)
    requires Skewed(events, skew) && 2 * skew <= l.window + 1 && n < |events|
    requires Agree(l, events, skew, n, swept, kept)
    ensures Agree(l, events, skew, n + 1, Some(Touch(l, swept, events[n].now).0), Some(Touch(l, kept, events[n].now).0))
  {
    SameTouch(l, events, skew, n, swept, kept);
    TouchStaysBacked(l, events, skew, n, kept);
  }

  lemma StillAgree(l: Limits, events: seq<Event>, skew: nat, n: nat, swept: Option<Bucket>, kept: Option<Bucket>)
    requires n < |events| && Agree(l, events, skew, n, swept, kept)
    ensures Agree(l, events, skew, n + 1, swept, kept)
  {
  }

  /** What a sweep drops is idle by that sweep's own reading. */
  lemma SweptIsIdle(l: Limits, events: seq<Event>, n: nat, b: Bucket)
    requires n < |events| && b.lastCheck < events[n].now - 2 * l.window
    ensures Idle(l, events, n + 1, b)
  {
  }

  ghost predicate TablesAgreeOn(l: Limits, events: seq<Event>, skew: nat, n: nat, key: string)
    requires n <= |events|
  {
    Agree(l, events, skew, n, Find(Table(l, events[..n], true), key), Find(Table(l, events[..n], false), key))
  }

  lemma CallKeepsAgreement(l: Limits, events: seq<Event>, skew: nat, n: nat, key: string)
    requires Skewed(events, skew) && 2 * skew <= l.window + 1 && n < |events| && CallOn(events[n], key)
    requires TablesAgreeOn(l, events, skew, n, key)
    ensures TablesAgreeOn(l, events, skew, n + 1, key)
  {
    CallTouches(l, events, true, n);
    CallTouches(l, events, false, n);
    var swept, kept := Find(Table(l, events[..n], true), key), Find(Table(l, events[..n], false), key);
    TouchKeepsAgreement(l, events, skew, n, swept, kept);
  }

  lemma OthersKeepAgreement(l: Limits, events: seq<Event>, skew: nat, n: nat, key: string)
    requires n < |events| && !CallOn(events[n], key) && TablesAgreeOn(l, events, skew, n, key)
    ensures TablesAgreeOn(l, events, skew, n + 1, key)
  {
    var swept, kept := Find(Table(l, events[..n], true), key), Find(Table(l, events[..n], false), key);
    OthersKeepBucket(l, events, true, key, n);
    OthersKeepBucket(l, events, false, key, n);
    StillAgree(l, events, skew, n, swept, kept);
    if events[n].Sweep? && swept.Some? && swept.value.lastCheck < events[n].now - 2 * l.window {
      SweptIsIdle(l, events, n, swept.value);
    }
  }

  lemma {:induction false} TablesAgree(l: Limits, events: seq<Event>, skew: nat, n: nat, key: string)
    requires Skewed(events, skew) && 2 * skew <= l.window + 1 && n <= |events|
    ensures TablesAgreeOn(l, events, skew, n, key)
  {
    if n > 0 {
      TablesAgree(l, events, skew, n - 1, key);
      if CallOn(events[n - 1], key) {
        CallKeepsAgreement(l, events, skew, n - 1, key);
      } else {
        OthersKeepAgreement(l, events, skew, n - 1, key);
      }
    }
  }

  /** With readings out of lock order by at most half a window, sweeping at any points changes no answer. */
  lemma SweepingIsUnobservable(l: Limits, events: seq<Event>, skew: nat, n: nat)
    requires Skewed(events, skew) && 2 * skew <= l.window + 1 && n < |events| && events[n].Call?
    ensures Allowed(l, events, true, n) == Allowed(l, events, false, n)
  {
    var key := events[n].key;
    TablesAgree(l, events, skew, n, key);
    SameTouch(l, events, skew, n, Find(Table(l, events[..n], true), key), Find(Table(l, events[..n], false), key));
  }

  // ---------- keys do not share tokens ----------

  /** The calls on `key`, and the sweeps. */
  function Only(events: seq<Event>, key: string): seq<Event> {
    if events == [] then []
    else
      var front, last := Only(events[..|events| - 1], key), events[|events| - 1];
      if last.Sweep? || last.key == key then front + [last] else front
  }

  /** One key's bucket, with or without sweeping, is that of a run with this key's calls alone. */
  lemma {:induction false} KeysAreIndependent(l: Limits, events: seq<Event>, evict: bool, key: string)
    ensures Find(Table(l, events, evict), key) == Find(Table(l, Only(events, key), evict), key)
  {
    if events != [] {
      var front, only := events[..|events| - 1], Only(events, key);
      KeysAreIndependent(l, front, evict, key);
      if only != Only(front, key) {
        assert only[..|only| - 1] == Only(front, key);
      }
    }
  }

  /** And so is every answer it gets. */
  lemma AnswersAreIndependent(l: Limits, events: seq<Event>, evict: bool, key: string, n: nat)
    requires n < |events| && CallOn(events[n], key)
    ensures var only := Only(events[..n + 1], key);
            && |only| > 0 && only[|only| - 1] == events[n]
            && Allowed(l, events, evict, n) == Allowed(l, only, evict, |only| - 1)
  {
    var only := Only(events[..n + 1], key);
    assert events[..n + 1][..n] == events[..n];
    assert only[..|only| - 1] == Only(events[..n], key);
    KeysAreIndependent(l, events[..n], evict, key);
  }

  // ---------- the limit ----------

  /** After calls from `i` on, what is left plus what was let through is at most what was earned. */
  lemma {:induction false} Spent(l: Limits, events: seq<Event>, key: string, i: nat, n: nat)
    requires i < n <= |events| && CallOn(events[i], key)
    ensures var table := Table(l, events[..n], false);
            && key in table
            && table[key].tokens + AllowedBetween(l, events, false, key, i, n) as real
               <= l.rate as real + Gain(l, table[key].lastCheck - events[i].now)
  {
    TableStep(l, events, false, n - 1);
    GainMilestones(l);
    if n == i + 1 {
      assert AllowedBetween(l, events, false, key, i, i) == 0;
    } else {
      Spent(l, events, key, i, n - 1);
      if CallOn(events[n - 1], key) {
        var b := Table(l, events[..n - 1], false)[key];
        GainAdds(l, b.lastCheck - events[i].now, events[n - 1].now - b.lastCheck);
      }
    }
  }

  /** An allowed call leaves a bucket that is not overdrawn. */
  lemma AllowedLeavesNoDebt(l: Limits, events: seq<Event>, j: nat)
    requires j < |events| && events[j].Call? && Allowed(l, events, false, j)
    ensures var table := Table(l, events[..j + 1], false);
            && events[j].key in table
            && 0.0 <= table[events[j].key].tokens && table[events[j].key].lastCheck == events[j].now
  {
    TableStep(l, events, false, j);
  }

  /** A full bucket, and then `rate` per `window`. */
  function Limit(l: Limits, elapsed: int): real {
    l.rate as real + l.rate as real * elapsed as real / l.window as real
  }

  lemma LimitIsTokensEarned(l: Limits, elapsed: int, count: real)
    requires count <= l.rate as real + Gain(l, elapsed)
    ensures count <= Limit(l, elapsed)
  {
    GainIsProportional(l, elapsed);
  }

  lemma LimitInTokensEarned(l: Limits, events: seq<Event>, key: string, i: nat, j: nat)
    requires i <= j < |events| && CallOn(events[i], key) && CallOn(events[j], key)
    requires Allowed(l, events, false, j)
    ensures AllowedBetween(l, events, false, key, i, j + 1) as real
         <= l.rate as real + Gain(l, events[j].now - events[i].now)
  {
    Spent(l, events, key, i, j + 1);
    AllowedLeavesNoDebt(l, events, j);
  }

  /**
   Between two calls on one key, the later of them allowed, no more than
   rate + rate * elapsed / window calls were allowed: for any order of clock
   readings when nothing is swept.
   */
  lemma LimitHolds(l: Limits, events: seq<Event>, key: string, i: nat, j: nat)
    requires i <= j < |events| && CallOn(events[i], key) && CallOn(events[j], key)
    requires Allowed(l, events, false, j)
    ensures AllowedBetween(l, events, false, key, i, j + 1) as real
         <= Limit(l, events[j].now - events[i].now)
  {
    LimitInTokensEarned(l, events, key, i, j);
    LimitIsTokensEarned(l, events[j].now - events[i].now, AllowedBetween(l, events, false, key, i, j + 1) as real);
  }

  lemma {:induction false} SameCounts(one: nat -> bool, two: nat -> bool, i: nat, j: nat)
    requires i <= j && forall n: nat :: n < j ==> one(n) == two(n)
    ensures Count(one, i, j) == Count(two, i, j)
    decreases j
  {
    if i < j {
      SameCounts(one, two, i, j - 1);
    }
  }

  lemma LimitHoldsIfUnseen(l: Limits, events: seq<Event>, key: string, i: nat, j: nat)
    requires i <= j < |events| && CallOn(events[i], key) && CallOn(events[j], key)
    requires Allowed(l, events, true, j)
    requires forall n: nat :: n <= j && events[n].Call? ==> Allowed(l, events, true, n) == Allowed(l, events, false, n)
    ensures AllowedBetween(l, events, true, key, i, j + 1) as real
         <= Limit(l, events[j].now - events[i].now)
  {
    SameCounts(Passes(l, events, true, key), Passes(l, events, false, key), i, j + 1);
    LimitHolds(l, events, key, i, j);
  }

  /** The same bound with sweeps anywhere, for readings out of lock order by at most half a window. */
  lemma LimitHoldsWithSweeps(l: Limits, events: seq<Event>, skew: nat, key: string, i: nat, j: nat)
    requires Skewed(events, skew) && 2 * skew <= l.window + 1
    requires i <= j < |events| && CallOn(events[i], key) && CallOn(events[j], key)
    requires Allowed(l, events, true, j)
    ensures AllowedBetween(l, events, true, key, i, j + 1) as real
         <= Limit(l, events[j].now - events[i].now)
  {
    forall n: nat | n <= j && events[n].Call?
      ensures Allowed(l, events, true, n) == Allowed(l, events, false, n)
    {
      SweepingIsUnobservable(l, events, skew, n);
    }
    LimitHoldsIfUnseen(l, events, key, i, j);
  }

  // ---------- half a window is exact ----------

  /** On every run with this much skew, sweeping changes no answer. */
  ghost predicate SweepsUnseen(l: Limits, skew: nat) {
    forall events: seq<Event>, n: nat :: Skewed(events, skew) && n < |events| && events[n].Call? ==>
      Allowed(l, events, true, n) == Allowed(l, events, false, n)
  }

  /** With sweeping, calls `i` to `j` on `key`, the last of them allowed, stay within the limit. */
  predicate WithinLimit(l: Limits, events: seq<Event>, key: string, i: nat, j: nat) {
    i <= j < |events| && CallOn(events[i], key) && CallOn(events[j], key) && Allowed(l, events, true, j) ==>
      AllowedBetween(l, events, true, key, i, j + 1) as real <= Limit(l, events[j].now - events[i].now)
  }

  /** On every run with this much skew, the limit holds with sweeping. */
  ghost predicate LimitKept(l: Limits, skew: nat) {
    forall events: seq<Event>, key: string, i: nat, j: nat :: Skewed(events, skew) ==> WithinLimit(l, events, key, i, j)
  }

  /** Calls that spend the bucket, one that sets its clock back, a sweep, and calls that find it forgiven. */
  function Forgiven(l: Limits, skew: nat): (events: seq<Event>)
    ensures |events| == 2 * l.rate + 2
  {
    seq(2 * l.rate + 2, i =>
      if i < l.rate then Call("k", skew)
      else if i == l.rate then Call("k", 0)
      else if i == l.rate + 1 then Sweep(2 * l.window + 1)
      else Call("k", 2 * l.window + 1 - skew))
  }

  function BurstBucket(l: Limits, now: Instant, m: nat): Option<Bucket> {
    if m == 0 then None else Some(Bucket((l.rate - m) as real, now))
  }

  lemma BurstTouch(l: Limits, now: Instant, m: nat)
    requires m < l.rate
    ensures Touch(l, BurstBucket(l, now, m), now) == (BurstBucket(l, now, m + 1).value, true)
  {
    GainMilestones(l);
  }

  /** Events `i` to `i + m` are calls on `key` at one time, and start on a missing bucket. */
  ghost predicate Burst(l: Limits, events: seq<Event>, evict: bool, key: string, now: Instant, i: nat, m: nat) {
    && i + m <= |events| && m <= l.rate && key !in Table(l, events[..i], evict)
    && forall n :: i <= n < i + m ==> events[n] == Call(key, now)
  }

  lemma {:induction false} BurstSpends(l: Limits, events: seq<Event>, evict: bool, key: string, now: Instant,
                                       i: nat, m: nat)
    requires Burst(l, events, evict, key, now, i, m)
    ensures Find(Table(l, events[..i + m], evict), key) == BurstBucket(l, now, m)
  {
    if m > 0 {
      BurstSpends(l, events, evict, key, now, i, m - 1);
      BurstStep(l, events, evict, key, now, i + m - 1, m - 1);
    }
  }

  lemma BurstStep(l: Limits, events: seq<Event>, evict: bool, key: string, now: Instant, n: nat, m: nat)
    requires n < |events| && events[n] == Call(key, now) && m < l.rate
    requires Find(Table(l, events[..n], evict), key) == BurstBucket(l, now, m)
    ensures Find(Table(l, events[..n + 1], evict), key) == BurstBucket(l, now, m + 1)
  {
    CallTouches(l, events, evict, n);
    BurstTouch(l, now, m);
  }

  /** A burst on a missing bucket is let through, up to the rate. */
  lemma BurstPasses(l: Limits, events: seq<Event>, evict: bool, key: string, now: Instant, i: nat, m: nat, n: nat)
    requires i <= n < i + m && Burst(l, events, evict, key, now, i, m)
    ensures Passes(l, events, evict, key)(n)
  {
    BurstSpends(l, events, evict, key, now, i, n - i);
    BurstTouch(l, now, n - i);
  }

  /** Two stretches that all count. */
  lemma {:induction false} CountTwice(yes: nat -> bool, m: nat, j: nat, n: nat)
    requires forall k: nat :: k < m || j <= k < j + m ==> yes(k)
    requires m <= j && n <= j + m
    ensures Count(yes, 0, n) >= (if n <= m then n else if n <= j then m else m + n - j)
  {
    if n > 0 {
      CountTwice(yes, m, j, n - 1);
    }
  }

  /** Beyond half a window the run stays within the skew, yet the sweep drops the bucket. */
  lemma SweepForgives(l: Limits, skew: nat)
    requires skew <= l.window
    ensures var events := Forgiven(l, skew);
            && Skewed(events, skew)
            && Burst(l, events, true, "k", skew, 0, l.rate)
            && Burst(l, events, true, "k", 2 * l.window + 1 - skew, l.rate + 2, l.rate)
  {
    var events, r := Forgiven(l, skew), l.rate;
    assert events[..0] == [];
    TableStep(l, events, true, r);
    TableStep(l, events, true, r + 1);
  }

  /** Two bursts that each find no bucket are both let through. */
  lemma TwoBursts(l: Limits, events: seq<Event>, key: string, one: Instant, two: Instant, j: nat, m: nat)
    requires m <= j && Burst(l, events, true, key, one, 0, m) && Burst(l, events, true, key, two, j, m)
    ensures AllowedBetween(l, events, true, key, 0, j + m) >= 2 * m
  {
    var yes := Passes(l, events, true, key);
    forall k: nat | k < m || j <= k < j + m
      ensures yes(k)
    {
      if k < m {
        BurstPasses(l, events, true, key, one, 0, m, k);
      } else {
        BurstPasses(l, events, true, key, two, j, m, k);
      }
    }
    CountTwice(yes, m, j, j + m);
  }

  /** Which is more than the limit if they come less than a window apart. */
  lemma BurstsBreakTheLimit(l: Limits, events: seq<Event>, key: string, one: Instant, two: Instant)
    requires |events| == 2 * l.rate + 2 && two - one < l.window
    requires Burst(l, events, true, key, one, 0, l.rate) && Burst(l, events, true, key, two, l.rate + 2, l.rate)
    ensures !WithinLimit(l, events, key, 0, 2 * l.rate + 1)
  {
    var last := 2 * l.rate + 1;
    assert events[0] == Call(key, one) && events[last] == Call(key, two);
    TwoBursts(l, events, key, one, two, l.rate + 2, l.rate);
    TooSoon(l, two - one);
    BurstPasses(l, events, true, key, two, l.rate + 2, l.rate, last);
  }

  lemma SkewBreaksTheLimit(l: Limits, skew: nat)
    requires l.window + 1 < 2 * skew <= 2 * l.window
    ensures Skewed(Forgiven(l, skew), skew) && !WithinLimit(l, Forgiven(l, skew), "k", 0, 2 * l.rate + 1)
  {
    SweepForgives(l, skew);
    BurstsBreakTheLimit(l, Forgiven(l, skew), "k", skew, 2 * l.window + 1 - skew);
  }

  lemma TooSoon(l: Limits, elapsed: int)
    requires elapsed < l.window
    ensures Limit(l, elapsed) < (2 * l.rate) as real
  {
    var r, w, d := l.rate as real, l.window as real, elapsed as real;
    assert r * d < r * w;
    assert r * d / w < r;
  }

  lemma SkewedMore(events: seq<Event>, skew: nat, more: nat)
    requires Skewed(events, skew) && skew <= more
    ensures Skewed(events, more)
  {
  }

  lemma SmallSkewIsHarmless(l: Limits, skew: nat)
    requires 2 * skew <= l.window + 1
    ensures SweepsUnseen(l, skew) && LimitKept(l, skew)
  {
    forall events: seq<Event>, n: nat | Skewed(events, skew) && n < |events| && events[n].Call?
      ensures Allowed(l, events, true, n) == Allowed(l, events, false, n)
    {
      SweepingIsUnobservable(l, events, skew, n);
    }
    forall events: seq<Event>, key: string, i: nat, j: nat | Skewed(events, skew)
      ensures WithinLimit(l, events, key, i, j)
    {
      if i <= j < |events| && CallOn(events[i], key) && CallOn(events[j], key) && Allowed(l, events, true, j) {
        LimitHoldsWithSweeps(l, events, skew, key, i, j);
      }
    }
  }

  lemma UnseenKeepsLimit(l: Limits, skew: nat)
    requires SweepsUnseen(l, skew)
    ensures LimitKept(l, skew)
  {
    forall events: seq<Event>, key: string, i: nat, j: nat | Skewed(events, skew)
      ensures WithinLimit(l, events, key, i, j)
    {
      if i <= j < |events| && CallOn(events[i], key) && CallOn(events[j], key) && Allowed(l, events, true, j) {
        LimitHoldsIfUnseen(l, events, key, i, j);
      }
    }
  }

  lemma LargeSkewShows(l: Limits, skew: nat)
    requires 2 * skew > l.window + 1
    ensures !LimitKept(l, skew)
  {
    var some: nat := if skew <= l.window then skew else l.window;
    SkewBreaksTheLimit(l, some);
    SkewedMore(Forgiven(l, some), some, skew);
  }

  /** Sweeping is unobservable, and the limit survives it, exactly when readings are at most half a window late. */
  lemma SkewToleranceIff(l: Limits, skew: nat)
    ensures SweepsUnseen(l, skew) <==> 2 * skew <= l.window + 1
    ensures LimitKept(l, skew) <==> 2 * skew <= l.window + 1
  {
    if 2 * skew <= l.window + 1 {
      SmallSkewIsHarmless(l, skew);
    } else {
      LargeSkewShows(l, skew);
      if SweepsUnseen(l, skew) {
        UnseenKeepsLimit(l, skew);
      }
    }
  }

  // ---------- polite clients ----------

  /** Calls on `key` at least window / rate apart. */
  ghost predicate Spaced(l: Limits, events: seq<Event>, key: string) {
    forall i, j :: 0 <= i < j < |events| && CallOn(events[i], key) && CallOn(events[j], key) ==>
      (events[j].now - events[i].now) * l.rate >= l.window
  }

  lemma OneTokenEarned(l: Limits, d: int)
    requires d * l.rate >= l.window
    ensures Gain(l, d) >= 1.0
  {
    GainIsProportional(l, d);
    assert l.rate as real * d as real == (d * l.rate) as real;
  }

  /** What the bucket of a spaced key, if it has one, holds before its next call. */
  ghost predicate SpacedBucket(events: seq<Event>, key: string, n: nat, found: Option<Bucket>)
    requires n <= |events|
  {
    found.Some? ==>
      && 0.0 <= found.value.tokens
      && exists i :: 0 <= i < n && CallOn(events[i], key) && events[i].now == found.value.lastCheck
  }

  lemma {:induction false} StaysSpaced(l: Limits, events: seq<Event>, evict: bool, key: string, n: nat)
    requires Spaced(l, events, key) && n <= |events|
    ensures SpacedBucket(events, key, n, Find(Table(l, events[..n], evict), key))
  {
    if n > 0 {
      StaysSpaced(l, events, evict, key, n - 1);
      TableStep(l, events, evict, n - 1);
      if CallOn(events[n - 1], key) {
        SpacedIsAllowed(l, events, evict, key, n - 1);
      }
    }
  }

  lemma SpacedIsAllowed(l: Limits, events: seq<Event>, evict: bool, key: string, n: nat)
    requires Spaced(l, events, key) && n < |events| && CallOn(events[n], key)
    requires SpacedBucket(events, key, n, Find(Table(l, events[..n], evict), key))
    ensures Allowed(l, events, evict, n)
  {
    var found := Find(Table(l, events[..n], evict), key);
    GainMilestones(l);
    if found.Some? {
      var i :| 0 <= i < n && CallOn(events[i], key) && events[i].now == found.value.lastCheck;
      OneTokenEarned(l, events[n].now - events[i].now);
    }
  }

  /** A client that keeps window / rate between its calls is never rejected, whatever is swept and whenever. */
  lemma SpacedIsNeverRejected(l: Limits, events: seq<Event>, evict: bool, key: string, n: nat)
    requires Spaced(l, events, key) && n < |events| && CallOn(events[n], key)
    ensures Allowed(l, events, evict, n)
  {
    StaysSpaced(l, events, evict, key, n);
    SpacedIsAllowed(l, events, evict, key, n);
  }

  // ---------- rejected calls lose nothing ----------

  /** Between `i` and `j`, every call on `key` was rejected. */
  ghost predicate AllRejected(l: Limits, events: seq<Event>, evict: bool, key: string, i: nat, j: nat)
    requires j <= |events|
  {
    forall n: nat :: i < n < j && CallOn(events[n], key) ==> !Allowed(l, events, evict, n)
  }

  /** A rejected call leaves everything the bucket has earned. */
  lemma RejectionKeepsTokens(l: Limits, b: Bucket, now: Instant)
    requires !Touch(l, Some(b), now).1
    ensures Touch(l, Some(b), now).0 == Bucket(b.tokens + Gain(l, now - b.lastCheck), now)
  {
  }

  lemma {:induction false} RejectedBucket(l: Limits, events: seq<Event>, key: string, i: nat, n: nat)
    requires i < n <= |events| && CallOn(events[i], key) && AllRejected(l, events, false, key, i, n)
    ensures var b, found := Table(l, events[..i + 1], false), Find(Table(l, events[..n], false), key);
            && key in b && found.Some?
            && found.value.tokens == b[key].tokens + Gain(l, found.value.lastCheck - b[key].lastCheck)
  {
    if n == i + 1 {
      CallTouches(l, events, false, i);
      GainMilestones(l);
    } else {
      RejectedBucket(l, events, key, i, n - 1);
      if CallOn(events[n - 1], key) {
        var first, b := Table(l, events[..i + 1], false)[key], Table(l, events[..n - 1], false)[key];
        CallTouches(l, events, false, n - 1);
        assert !Allowed(l, events, false, n - 1);
        RejectionKeepsTokens(l, b, events[n - 1].now);
        GainAdds(l, b.lastCheck - first.lastCheck, events[n - 1].now - b.lastCheck);
      } else {
        OthersKeepBucket(l, events, false, key, n - 1);
      }
    }
  }

  /**
   After any call on a key, and however often it is rejected in between, the
   next call is allowed exactly when what that call left and what was earned
   since make a whole token.
   */
  lemma AllowedAgainIff(l: Limits, events: seq<Event>, key: string, i: nat, j: nat)
    requires i < j < |events| && CallOn(events[i], key) && CallOn(events[j], key)
    requires AllRejected(l, events, false, key, i, j)
    ensures var table := Table(l, events[..i + 1], false);
            && key in table && table[key].lastCheck == events[i].now
            && (Allowed(l, events, false, j) <==> table[key].tokens + Gain(l, events[j].now - events[i].now) >= 1.0)
  {
    CallTouches(l, events, false, i);
    RejectedBucket(l, events, key, i, j);
    var first, b := Table(l, events[..i + 1], false)[key], Table(l, events[..j], false)[key];
    GainAdds(l, b.lastCheck - first.lastCheck, events[j].now - b.lastCheck);
  }

  /** The bucket of a key that waits since `from`, if it has one, has kept all it earned. */
  ghost predicate Waiting(l: Limits, from: Instant, found: Option<Bucket>) {
    found.Some? ==> found.value.tokens >= Gain(l, found.value.lastCheck - from)
  }

  lemma WaitingCall(l: Limits, from: Instant, found: Option<Bucket>, now: Instant)
    requires Waiting(l, from, found)
    ensures !Touch(l, found, now).1 ==> Waiting(l, from, Some(Touch(l, found, now).0))
    ensures Gain(l, now - from) >= 1.0 ==> Touch(l, found, now).1
  {
    GainMilestones(l);
    if found.Some? {
      GainAdds(l, found.value.lastCheck - from, now - found.value.lastCheck);
    }
  }

  lemma {:induction false} StaysWaiting(l: Limits, events: seq<Event>, evict: bool, key: string, i: nat, n: nat)
    requires i < n <= |events| && CallOn(events[i], key) && Allowed(l, events, evict, i)
    requires AllRejected(l, events, evict, key, i, n)
    ensures Waiting(l, events[i].now, Find(Table(l, events[..n], evict), key))
  {
    if n == i + 1 {
      CallTouches(l, events, evict, i);
      GainMilestones(l);
    } else {
      StaysWaiting(l, events, evict, key, i, n - 1);
      if CallOn(events[n - 1], key) {
        CallTouches(l, events, evict, n - 1);
        assert !Allowed(l, events, evict, n - 1);
        WaitingCall(l, events[i].now, Find(Table(l, events[..n - 1], evict), key), events[n - 1].now);
      } else {
        OthersKeepBucket(l, events, evict, key, n - 1);
      }
    }
  }

  /**
   Polling does not lock a client out: a call at least window / rate after the
   last allowed one is allowed, whatever was rejected or swept in between and
   whatever the order of those readings.
   */
  lemma PatientCallIsAllowed(l: Limits, events: seq<Event>, evict: bool, key: string, i: nat, j: nat)
    requires i < j < |events| && CallOn(events[i], key) && CallOn(events[j], key)
    requires Allowed(l, events, evict, i) && AllRejected(l, events, evict, key, i, j)
    requires (events[j].now - events[i].now) * l.rate >= l.window
    ensures Allowed(l, events, evict, j)
  {
    StaysWaiting(l, events, evict, key, i, j);
    OneTokenEarned(l, events[j].now - events[i].now);
    WaitingCall(l, events[i].now, Find(Table(l, events[..j], evict), key), events[j].now);
  }

  // ---------- bucket keys ----------

  datatype Caller = KnownUser(id: Int64) | Anonymous(host: string)

  function ExtractKey(caller: Caller): string {
    match caller
    case KnownUser(id) => "user:" + FormatInt(id)
    case Anonymous(host) => "ip:" + host
  }

  /** Two callers share a bucket only if they are the same user or the same host. */
  lemma KeysNeverCollide(a: Caller, b: Caller)
    ensures ExtractKey(a) == ExtractKey(b) <==> a == b
  {
    match (a, b) {
      case (KnownUser(i), KnownUser(j)) =>
        FormatIntRoundTrip(i);
        FormatIntRoundTrip(j);
        assert ExtractKey(a)[5..] == FormatInt(i) && ExtractKey(b)[5..] == FormatInt(j);
      case (Anonymous(h), Anonymous(g)) =>
        assert ExtractKey(a)[3..] == h && ExtractKey(b)[3..] == g;
      case _ =>
        assert ExtractKey(a)[0] != ExtractKey(b)[0];
    }
  }
}
