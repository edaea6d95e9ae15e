/** String helpers the league code takes from JavaScript's runtime:
    `trim`, ASCII case mapping, `includes`, an ordering for team names,
    and decimal rendering of a count inside a template literal. */
module Strings {

  /** The ASCII characters `String.prototype.trim` removes. */
  predicate IsSpace(c: char) {
    c == ' ' || c == '\t' || c == '\n' || c == '\r' || c == '\U{000B}' || c == '\U{000C}'
  }

  /** The number of white-space characters `s` starts with. */
  function Leading(s: string): (n: nat)
    ensures n <= |s|
    ensures forall i :: 0 <= i < n ==> IsSpace(s[i])
    ensures n < |s| ==> !IsSpace(s[n])
  {
    if |s| > 0 && IsSpace(s[0]) then 1 + Leading(s[1..]) else 0
  }

  /** The number of white-space characters `s` ends with. */
  function Trailing(s: string): (n: nat)
    ensures n <= |s|
    ensures forall i :: |s| - n <= i < |s| ==> IsSpace(s[i])
    ensures n < |s| ==> !IsSpace(s[|s| - 1 - n])
  {
    if |s| > 0 && IsSpace(s[|s| - 1]) then 1 + Trailing(s[..|s| - 1]) else 0
  }

  /** `s.trim()`: `s` without its leading and trailing white space; what is
      removed is white space only and what remains neither starts nor ends
      with it. */
  function Trim(s: string): (r: string)
    ensures Leading(s) + |r| <= |s| && r == s[Leading(s)..Leading(s) + |r|]
    ensures forall i :: 0 <= i < |s| && !(Leading(s) <= i < Leading(s) + |r|) ==> IsSpace(s[i])
    ensures r == [] || (!IsSpace(r[0]) && !IsSpace(r[|r| - 1]))
  {
    var lo := Leading(s);
    var t := s[lo..];
    t[..|t| - Trailing(t)]
  }

  function LowerChar(c: char): char {
    if 'A' <= c <= 'Z' then (c as int + 32) as char else c
  }

  function UpperChar(c: char): char {
    if 'a' <= c <= 'z' then (c as int - 32) as char else c
  }

  /** `toLowerCase` restricted to ASCII letters. */
  function Lower(s: string): (r: string)
    ensures |r| == |s| && forall i :: 0 <= i < |s| ==> r[i] == LowerChar(s[i])
  {
    seq(|s|, i requires 0 <= i < |s| => LowerChar(s[i]))
  }

  /** `toUpperCase` restricted to ASCII letters. */
  function Upper(s: string): (r: string)
    ensures |r| == |s| && forall i :: 0 <= i < |s| ==> r[i] == UpperChar(s[i])
  {
    seq(|s|, i requires 0 <= i < |s| => UpperChar(s[i]))
  }

  predicate OccursAt(s: string, sub: string, i: int) {
    0 <= i <= |s| - |sub| && s[i..i + |sub|] == sub
  }

  /** `s.includes(sub)`. */
  predicate Contains(s: string, sub: string) {
    exists i | 0 <= i <= |s| - |sub| :: OccursAt(s, sub, i)
  }

  /** `includes` finds a text wherever it sits, and never in a shorter
      string; the empty text is in every string. */
  lemma ContainsWithin(pre: string, sub: string, post: string)
    ensures Contains(pre + sub + post, sub)
  {
    var s := pre + sub + post;
    assert s[|pre|..|pre| + |sub|] == sub;
    assert OccursAt(s, sub, |pre|);
  }

  lemma ContainsShorter(s: string, sub: string)
    requires |s| < |sub|
    ensures !Contains(s, sub)
  {
  }

  /** Three-way lexicographic comparison by character code, the model of
      `localeCompare`: negative, zero or positive. */
  function LexCmp(s: string, t: string): (r: int)
    ensures -1 <= r <= 1
  {
    if |s| == 0 && |t| == 0 then 0
    else if |s| == 0 then -1
    else if |t| == 0 then 1
    else if s[0] < t[0] then -1
    else if t[0] < s[0] then 1
    else LexCmp(s[1..], t[1..])
  }

  lemma {:induction false} LexCmpZero(s: string, t: string)
    ensures LexCmp(s, t) == 0 <==> s == t
  {
    if |s| > 0 && |t| > 0 && s[0] == t[0] {
      LexCmpZero(s[1..], t[1..]);
      assert s == [s[0]] + s[1..] && t == [t[0]] + t[1..];
    }
  }

  /** The order is lexicographic and ascending: a proper prefix sorts
      first, and otherwise the first differing character decides. */
  lemma {:induction false} LexCmpPrefix(s: string, t: string)
    requires |s| < |t| && s == t[..|s|]
    ensures LexCmp(s, t) == -1
  {
    if |s| > 0 {
      assert s[1..] == t[1..][..|s| - 1];
      LexCmpPrefix(s[1..], t[1..]);
    }
  }

  lemma {:induction false} LexCmpFirstDiff(s: string, t: string, i: nat)
    requires i < |s| && i < |t| && s[..i] == t[..i] && s[i] < t[i]
    ensures LexCmp(s, t) == -1
  {
    if i > 0 {
      assert s[0] == s[..i][0] && t[0] == t[..i][0];
      assert s[1..][..i - 1] == s[..i][1..] && t[1..][..i - 1] == t[..i][1..];
      LexCmpFirstDiff(s[1..], t[1..], i - 1);
    }
  }

  lemma {:induction false} LexCmpAntisymmetric(s: string, t: string)
    ensures LexCmp(s, t) == -LexCmp(t, s)
  {
    if |s| > 0 && |t| > 0 && s[0] == t[0] {
      LexCmpAntisymmetric(s[1..], t[1..]);
    }
  }

  lemma {:induction false} LexCmpTransitive(s: string, t: string, u: string)
    requires LexCmp(s, t) <= 0 && LexCmp(t, u) <= 0
    ensures LexCmp(s, u) <= 0
  {
    if |s| > 0 && |t| > 0 && |u| > 0 && s[0] == t[0] == u[0] {
      LexCmpTransitive(s[1..], t[1..], u[1..]);
    }
  }

  function Digit(d: nat): char
    requires d < 10
  {
    ('0' as int + d) as char
  }

  /** Decimal rendering of a natural number, as `${n}` produces it. */
  function NatToDecimal(n: nat): (r: string)
    ensures |r| >= 1
    ensures forall i :: 0 <= i < |r| ==> '0' <= r[i] <= '9'
    ensures n > 0 ==> r[0] != '0'
  {
    if n < 10 then [Digit(n)] else NatToDecimal(n / 10) + [Digit(n % 10)]
  }

  /** The value of a string of decimal digits. */
  function DecimalValue(s: string): nat
    requires forall i :: 0 <= i < |s| ==> '0' <= s[i] <= '9'
  {
    if |s| == 0 then 0
    else 10 * DecimalValue(s[..|s| - 1]) + (s[|s| - 1] as int - '0' as int)
  }

  lemma {:induction false} DecimalRoundTrip(n: nat)
    ensures DecimalValue(NatToDecimal(n)) == n
  {
    if n >= 10 {
      DecimalRoundTrip(n / 10);
      var r := NatToDecimal(n);
      assert r[..|r| - 1] == NatToDecimal(n / 10);
    }
  }
}
