/** String operations of the JavaScript runtime that the services rely on
    (`trim`, `toLowerCase`, `includes`, `endsWith`, `String(n)`), over ASCII text. */
module Text {

  /** JavaScript's `\s` restricted to ASCII: space, tab, line feed, vertical tab,
      form feed and carriage return. */
  predicate IsSpace(c: char) {
    c == ' ' || c == '\t' || c == '\n' || c == '\r' || c as int == 11 || c as int == 12
  }

  predicate IsDigit(c: char) {
    '0' <= c <= '9'
  }

  /** A lower-case hexadecimal digit, as `toString(16)` and `toString('hex')` print. */
  predicate IsHexDigit(c: char) {
    IsDigit(c) || 'a' <= c <= 'f'
  }

  predicate IsUpper(c: char) {
    'A' <= c <= 'Z'
  }

  predicate IsLower(c: char) {
    'a' <= c <= 'z'
  }

  predicate AllDigits(s: string) {
    forall i :: 0 <= i < |s| ==> IsDigit(s[i])
  }

  /** `toLowerCase` on one ASCII character. */
  function Lower(c: char): (r: char)
    ensures IsUpper(c) ==> r as int == c as int + 32
    ensures !IsUpper(c) ==> r == c
    ensures !IsUpper(r)
  {
    if IsUpper(c) then (c as int + 32) as char else c
  }

  /** `toLowerCase`: every character mapped by `Lower`, length kept. */
  function ToLower(s: string): (r: string)
    ensures |r| == |s|
    ensures forall i :: 0 <= i < |s| ==> r[i] == Lower(s[i])
  {
    seq(|s|, i requires 0 <= i < |s| => Lower(s[i]))
  }

  /** Leading whitespace removed. */
  function TrimStart(s: string): (r: string)
    ensures |r| <= |s| && r == s[|s| - |r|..]
    ensures forall i :: 0 <= i < |s| - |r| ==> IsSpace(s[i])
    ensures r == [] || !IsSpace(r[0])
  {
    if |s| > 0 && IsSpace(s[0]) then TrimStart(s[1..]) else s
  }

  /** Trailing whitespace removed. */
  function TrimEnd(s: string): (r: string)
    ensures |r| <= |s| && r == s[..|r|]
    ensures forall i :: |r| <= i < |s| ==> IsSpace(s[i])
    ensures r == [] || !IsSpace(r[|r| - 1])
  {
    if |s| > 0 && IsSpace(s[|s| - 1]) then TrimEnd(s[..|s| - 1]) else s
  }

  predicate AllSpace(s: string) {
    forall i :: 0 <= i < |s| ==> IsSpace(s[i])
  }

  /** `r` sits at index k of `s` with only whitespace before and after it. */
  predicate SpaceAround(s: string, r: string, k: int) {
    OccursAt(s, r, k) && AllSpace(s[..k]) && AllSpace(s[k + |r|..])
  }

  /** `trim`: the longest infix that neither starts nor ends with whitespace. */
  function Trim(s: string): (r: string)
    ensures |r| <= |s|
    ensures r == [] || (!IsSpace(r[0]) && !IsSpace(r[|r| - 1]))
    ensures exists k :: SpaceAround(s, r, k)
    ensures (forall i :: 0 <= i < |s| ==> IsSpace(s[i])) <==> r == []
  {
    var t := TrimStart(s);
    var r := TrimEnd(t);
    TrimSpaceAround(s);
    TrimmedAway(s);
    r
  }

  /** What trimming removes is whitespace on both sides. */
  lemma TrimSpaceAround(s: string)
    ensures var t := TrimStart(s); var r := TrimEnd(t);
      OccursAt(s, r, |s| - |t|) && SpaceAround(s, r, |s| - |t|)
  {
    var lead, trail := TrimSplit(s);
    SpaceAroundOfSplit(lead, TrimEnd(TrimStart(s)), trail);
  }

  /** A string is its trim with whitespace before and after. */
  lemma TrimSplit(s: string) returns (lead: string, trail: string)
    ensures AllSpace(lead) && AllSpace(trail)
    ensures s == lead + TrimEnd(TrimStart(s)) + trail
    ensures |lead| == |s| - |TrimStart(s)|
  {
    var t := TrimStart(s);
    lead := TrimStartSplit(s);
    trail := TrimEndSplit(t);
  }

  /** What `TrimStart` removes is whitespace in front. */
  lemma TrimStartSplit(s: string) returns (lead: string)
    ensures AllSpace(lead) && s == lead + TrimStart(s)
  {
    var t := TrimStart(s);
    lead := s[..|s| - |t|];
    forall i | 0 <= i < |lead| ensures IsSpace(lead[i]) {
      assert lead[i] == s[i];
    }
  }

  /** What `TrimEnd` removes is whitespace behind. */
  lemma TrimEndSplit(t: string) returns (trail: string)
    ensures AllSpace(trail) && t == TrimEnd(t) + trail
  {
    var r := TrimEnd(t);
    trail := t[|r|..];
    forall i | 0 <= i < |trail| ensures IsSpace(trail[i]) {
      assert trail[i] == t[|r| + i];
    }
  }

  /** The middle of three strings sits after the first. */
  lemma SpaceAroundOfSplit(lead: string, r: string, trail: string)
    requires AllSpace(lead) && AllSpace(trail)
    ensures SpaceAround(lead + r + trail, r, |lead|)
  {
    var s := lead + r + trail;
    assert s[..|lead|] == lead;
    assert s[|lead| + |r|..] == trail;
    assert s[|lead|..|lead| + |r|] == r;
  }

  /** Whitespace around a string that neither starts nor ends with whitespace is
      exactly what trimming removes. */
  lemma TrimOfPadded(lead: string, m: string, trail: string)
    requires AllSpace(lead) && AllSpace(trail)
    requires m != [] && !IsSpace(m[0]) && !IsSpace(m[|m| - 1])
    ensures Trim(lead + m + trail) == m
  {
    assert lead + m + trail == lead + (m + trail);
    TrimStartOfPadded(lead, m + trail);
    TrimEndOfPadded(m, trail);
  }

  lemma TrimStartOfPadded(lead: string, rest: string)
    requires AllSpace(lead) && rest != [] && !IsSpace(rest[0])
    ensures TrimStart(lead + rest) == rest
  {
    var s := lead + rest;
    var t := TrimStart(s);
    assert s[|lead|] == rest[0];
    assert forall j :: 0 <= j < |lead| ==> s[j] == lead[j];
    assert |t| == |rest|;
    assert t == s[|lead|..] == rest;
  }

  lemma TrimEndOfPadded(m: string, trail: string)
    requires AllSpace(trail) && m != [] && !IsSpace(m[|m| - 1])
    ensures TrimEnd(m + trail) == m
  {
    var t := m + trail;
    var r := TrimEnd(t);
    assert t[|m| - 1] == m[|m| - 1];
    assert forall j :: |m| <= j < |t| ==> t[j] == trail[j - |m|];
    assert |r| == |m|;
    assert r == t[..|m|] == m;
  }

  /** Trimming leaves nothing exactly when there is only whitespace. */
  lemma TrimmedAway(s: string)
    ensures (forall i :: 0 <= i < |s| ==> IsSpace(s[i])) <==> TrimEnd(TrimStart(s)) == []
  {
    var t := TrimStart(s);
    assert t != [] ==> t[0] == s[|s| - |t|] && !IsSpace(t[0]);
    assert TrimEnd(t) == [] ==> t == [];
  }

  /** A string that already starts and ends with non-whitespace is its own trim. */
  lemma TrimOfTrimmed(s: string)
    requires s == [] || (!IsSpace(s[0]) && !IsSpace(s[|s| - 1]))
    ensures Trim(s) == s
  {
    assert TrimStart(s) == s;
  }

  lemma TrimIdempotent(s: string)
    ensures Trim(Trim(s)) == Trim(s)
  {
    TrimOfTrimmed(Trim(s));
  }

  lemma ToLowerIdempotent(s: string)
    ensures ToLower(ToLower(s)) == ToLower(s)
  {
  }

  /** Lower-casing never turns a character into whitespace or back. */
  lemma LowerKeepsSpace(c: char)
    ensures IsSpace(Lower(c)) <==> IsSpace(c)
  {
  }

  /** `s.endsWith(suffix)`. */
  predicate EndsWith(s: string, suffix: string) {
    |suffix| <= |s| && s[|s| - |suffix|..] == suffix
  }

  /** `pattern` occurs in `s` starting at index k. */
  predicate OccursAt(s: string, pattern: string, k: int) {
    0 <= k <= |s| - |pattern| && s[k..k + |pattern|] == pattern
  }

  /** `s.includes(pattern)` (Prisma's case-sensitive `contains`). */
  predicate Contains(s: string, pattern: string) {
    exists k | 0 <= k <= |s| - |pattern| :: OccursAt(s, pattern, k)
  }

  /** The decimal digits of n, as `String(n)` prints a non-negative integer. */
  function DecimalString(n: nat): (r: string)
    ensures |r| >= 1 && AllDigits(r)
    ensures n < 10 <==> |r| == 1
    ensures n >= 10 ==> r[0] != '0'
  {
    if n < 10 then [('0' as int + n) as char]
    else DecimalString(n / 10) + [('0' as int + n % 10) as char]
  }

  /** The value of a string of decimal digits (`Number(s)` on such a string). */
  function DigitsValue(s: string): nat
    requires AllDigits(s)
  {
    if s == [] then 0 else DigitsValue(s[..|s| - 1]) * 10 + (s[|s| - 1] as int - '0' as int)
  }

  /** Reading back what `DecimalString` prints gives the number. */
  lemma {:induction false} DecimalRoundTrip(n: nat)
    ensures DigitsValue(DecimalString(n)) == n
  {
    if n >= 10 {
      DecimalRoundTrip(n / 10);
      var r := DecimalString(n);
      assert r[..|r| - 1] == DecimalString(n / 10);
    }
  }

  /** `padStart(width, c)`: c repeated in front of s up to the width. */
  function PadStart(s: string, width: nat, c: char): (r: string)
    ensures |r| == if |s| >= width then |s| else width
    ensures EndsWith(r, s)
    ensures forall i :: 0 <= i < |r| - |s| ==> r[i] == c
  {
    if |s| >= width then s else seq(width - |s|, _ => c) + s
  }

  /** Leading zeros do not change a digit string's value. */
  lemma {:induction false} LeadingZeros(z: string, s: string)
    requires AllDigits(s) && forall i :: 0 <= i < |z| ==> z[i] == '0'
    ensures AllDigits(z + s) && DigitsValue(z + s) == DigitsValue(s)
  {
    if s == [] {
      assert z + s == z;
      AllZeros(z);
    } else {
      var init := s[..|s| - 1];
      LeadingZeros(z, init);
      assert (z + s)[..|z + s| - 1] == z + init;
    }
  }

  lemma {:induction false} AllZeros(z: string)
    requires forall i :: 0 <= i < |z| ==> z[i] == '0'
    ensures AllDigits(z) && DigitsValue(z) == 0
  {
    if z != [] {
      AllZeros(z[..|z| - 1]);
    }
  }

  function Pow10(k: nat): (p: nat)
    ensures p >= 1
  {
    if k == 0 then 1 else 10 * Pow10(k - 1)
  }

  /** A number below 10^k prints in at most k digits. */
  lemma {:induction false} DecimalWidth(n: nat, k: nat)
    requires k >= 1 && n < Pow10(k)
    ensures |DecimalString(n)| <= k
  {
    if n >= 10 {
      assert k >= 2;
      assert n / 10 < Pow10(k - 1);
      DecimalWidth(n / 10, k - 1);
    }
  }

  /** n printed in decimal and zero-padded to `width` characters. */
  function ZeroPadded(n: nat, width: nat): (r: string)
    ensures AllDigits(r) && DigitsValue(r) == n
    ensures width >= 1 && n < Pow10(width) ==> |r| == width
  {
    PaddedRoundTrip(n, width);
    PadStart(DecimalString(n), width, '0')
  }

  lemma PaddedRoundTrip(n: nat, width: nat)
    ensures AllDigits(PadStart(DecimalString(n), width, '0'))
    ensures DigitsValue(PadStart(DecimalString(n), width, '0')) == n
    ensures width >= 1 && n < Pow10(width) ==> |PadStart(DecimalString(n), width, '0')| == width
  {
    var d := DecimalString(n);
    var r := PadStart(d, width, '0');
    DecimalRoundTrip(n);
    if |d| < width {
      var z := r[..|r| - |d|];
      assert r == z + d;
      LeadingZeros(z, d);
    }
    if width >= 1 && n < Pow10(width) {
      DecimalWidth(n, width);
    }
  }
}
