/**
 Decimal and big-endian renderings of 64-bit integers, each with the reader
 that undoes it.
 */
module Numerals {
  import opened Prelude

  // ---------- decimal ----------

  function DigitChar(d: int): char
    requires 0 <= d < 10
  {
    ('0' as int + d) as char
  }

  predicate IsDigit(c: char) {
    '0' <= c <= '9'
  }

  function Digits(n: nat): (s: string)
    ensures s != [] && forall c :: c in s ==> IsDigit(c)
  {
    if n < 10 then [DigitChar(n)] else Digits(n / 10) + [DigitChar(n % 10)]
  }

  /** `strconv.FormatInt(n, 10)`, also what the `%d` verb prints. */
  function FormatInt(n: int): string {
    if n < 0 then "-" + Digits(-n) else Digits(n)
  }

  function DigitsValue(s: string): nat
    requires forall c :: c in s ==> IsDigit(c)
  {
    if s == [] then 0
    else
      assert IsDigit(s[|s| - 1]);
      DigitsValue(s[..|s| - 1]) * 10 + (s[|s| - 1] as int - '0' as int)
  }

  /** `strconv.ParseInt(s, 10, 64)`: an optional sign, then digits only, in range. */
  function ParseInt(s: string): Option<int> {
    var negative := s != [] && s[0] == '-';
    var body := if s != [] && (s[0] == '-' || s[0] == '+') then s[1..] else s;
    if body == [] || exists c :: c in body && !IsDigit(c) then None
    else
      var n: int := if negative then 0 - DigitsValue(body) else DigitsValue(body);
      if MIN_INT64 <= n <= MAX_INT64 then Some(n) else None
  }

  lemma {:induction false} DigitsRoundTrip(n: nat)
    ensures DigitsValue(Digits(n)) == n
  {
    if n < 10 {
      assert [DigitChar(n)][..0] == [];
    } else {
      DigitsRoundTrip(n / 10);
      assert Digits(n)[..|Digits(n)| - 1] == Digits(n / 10);
    }
  }

  lemma FormatIntRoundTrip(n: Int64)
    ensures ParseInt(FormatInt(n)) == Some(n)
  {
    var magnitude: int := if n < 0 then 0 - n else n;
    DigitsRoundTrip(magnitude);
    if n < 0 {
      assert FormatInt(n)[1..] == Digits(magnitude);
    } else {
      assert IsDigit(FormatInt(n)[0]);
    }
  }

  lemma {:induction false} LeadingZero(s: string)
    requires forall c :: c in s ==> IsDigit(c)
    ensures DigitsValue("0" + s) == DigitsValue(s)
  {
    if s == [] {
      assert "0" + s == "0" && "0"[..0] == [];
    } else {
      LeadingZero(s[..|s| - 1]);
      assert ("0" + s)[..|s|] == "0" + s[..|s| - 1];
    }
  }

  /** Reading is more liberal than writing: a plus sign and leading zeros are let pass. */
  lemma LiberalReading(s: string)
    requires s != [] && forall c :: c in s ==> IsDigit(c)
    ensures ParseInt("+" + s) == ParseInt(s) == ParseInt("0" + s)
  {
    LeadingZero(s);
    assert IsDigit(s[0]);
    assert ("+" + s)[1..] == s;
    assert forall c :: c in "0" + s ==> IsDigit(c);
  }

  /** Digits without a leading zero. */
  predicate PlainDigits(s: string) {
    s != [] && (forall c :: c in s ==> IsDigit(c)) && (s[0] == '0' ==> |s| == 1)
  }

  /** No plus sign, no leading zero, no minus zero. */
  predicate Canonical(s: string) {
    s != [] && if s[0] == '-' then PlainDigits(s[1..]) && s[1] != '0' else PlainDigits(s)
  }

  lemma {:induction false} DigitsArePlain(n: nat)
    ensures PlainDigits(Digits(n)) && (n > 0 ==> Digits(n)[0] != '0')
  {
    if n >= 10 {
      DigitsArePlain(n / 10);
    }
  }

  lemma AppendDigit(n: nat, d: int)
    requires n > 0 && 0 <= d < 10
    ensures Digits(n * 10 + d) == Digits(n) + [DigitChar(d)]
  {
    assert (n * 10 + d) / 10 == n && (n * 10 + d) % 10 == d;
  }

  lemma {:induction false} DigitsOfValue(s: string)
    requires PlainDigits(s)
    ensures Digits(DigitsValue(s)) == s && (DigitsValue(s) == 0 ==> s == "0")
  {
    var front, last := s[..|s| - 1], s[|s| - 1];
    assert IsDigit(last);
    if front == [] {
      assert DigitsValue(front) == 0;
      assert s == [last];
    } else {
      assert PlainDigits(front) && front[0] != '0';
      DigitsOfValue(front);
      AppendDigit(DigitsValue(front), last as int - '0' as int);
      assert s == front + [last];
    }
  }

  lemma CanonicalParses(s: string, n: Int64)
    requires Canonical(s) && ParseInt(s) == Some(n)
    ensures s == FormatInt(n)
  {
    if s[0] == '-' {
      DigitsOfValue(s[1..]);
      assert s == "-" + s[1..];
    } else {
      assert IsDigit(s[0]);
      DigitsOfValue(s);
    }
  }

  /** The rendering is the one canonical text that reads back as the number. */
  lemma FormatIntIsCanonical(n: Int64, s: string)
    ensures s == FormatInt(n) <==> Canonical(s) && ParseInt(s) == Some(n)
  {
    FormatIntRoundTrip(n);
    var magnitude: int := if n < 0 then 0 - n else n;
    DigitsArePlain(magnitude);
    if n < 0 {
      assert FormatInt(n)[1..] == Digits(magnitude);
    } else {
      assert IsDigit(FormatInt(n)[0]);
    }
    if Canonical(s) && ParseInt(s) == Some(n) {
      CanonicalParses(s, n);
    }
  }

  // ---------- big-endian ----------

  function Power256(k: nat): nat {
    if k == 0 then 1 else 256 * Power256(k - 1)
  }

  /** The `k` low-order bytes of `v`, most significant first. */
  function BigEndian(v: nat, k: nat): (bytes: seq<Byte>)
    ensures |bytes| == k
  {
    if k == 0 then [] else BigEndian(v / 256, k - 1) + [v % 256]
  }

  function FromBigEndian(bytes: seq<Byte>): nat {
    if bytes == [] then 0
    else FromBigEndian(bytes[..|bytes| - 1]) * 256 + bytes[|bytes| - 1]
  }

  lemma {:induction false} BigEndianRoundTrip(v: nat, k: nat)
    requires v < Power256(k)
    ensures FromBigEndian(BigEndian(v, k)) == v
  {
    if k > 0 {
      BigEndianRoundTrip(v / 256, k - 1);
      assert BigEndian(v, k)[..k - 1] == BigEndian(v / 256, k - 1);
    }
  }

  /** The first byte is the most significant. */
  lemma {:induction false} FirstByteWeighsMost(first: Byte, rest: seq<Byte>)
    ensures FromBigEndian([first] + rest) == first * Power256(|rest|) + FromBigEndian(rest)
  {
    var all := [first] + rest;
    if rest == [] {
      assert all == [first] && all[..0] == [];
      assert FromBigEndian([first]) == first;
    } else {
      var fewer, last := rest[..|rest| - 1], rest[|rest| - 1];
      assert all[..|all| - 1] == [first] + fewer;
      FirstByteWeighsMost(first, fewer);
      var p := Power256(|fewer|);
      assert first * p * 256 == first * (256 * p);
    }
  }

  /** The conversion `uint64(n)`: two's complement. */
  function Unsigned(n: Int64): (u: nat)
    ensures u < 0x1_0000_0000_0000_0000 && (u == n || u == n + 0x1_0000_0000_0000_0000)
  {
    if n < 0 then n + 0x1_0000_0000_0000_0000 else n
  }

  function Signed(u: nat): int {
    if u > MAX_INT64 then u - 0x1_0000_0000_0000_0000 else u
  }

  lemma Power256Of8()
    ensures Power256(8) == 0x1_0000_0000_0000_0000
  {
    assert Power256(2) == 65536;
    assert Power256(4) == 65536 * 65536;
    assert Power256(6) == 65536 * 65536 * 65536;
  }
}
