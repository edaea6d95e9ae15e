/** The pure helpers of utils.js: HTML escaping, clamping, and the
    Fisher–Yates shuffle with its random source passed in. */
module Utils {

  /** `s.replace(/c/g, rep)`: every occurrence of the character `c` replaced. */
  function ReplaceAll(s: string, c: char, rep: string): (r: string)
    ensures c !in s ==> r == s
    ensures c !in rep ==> c !in r
  {
    if |s| == 0 then []
    else (if s[0] == c then rep else [s[0]]) + ReplaceAll(s[1..], c, rep)
  }

  /** `esc`: the chain of five global replacements, ampersand first. The
      result is the per-character escape, it holds no markup character, and
      decoding the five entities gives the input back. */
  function Esc(s: string): (r: string)
    ensures r == EscPerChar(s)
    ensures '<' !in r && '>' !in r && '"' !in r && '\'' !in r
    ensures Unescape(r) == s
  {
    ChainIsPerChar(s);
    PerCharNoMarkup(s);
    PerCharRoundTrip(s);
    Chain(s)
  }

  /** The entity one character becomes; every other character stays. */
  function EscChar(c: char): string {
    match c
    case '&' => "&amp;"
    case '<' => "&lt;"
    case '>' => "&gt;"
    case '"' => "&quot;"
    case '\'' => "&#039;"
    case _ => [c]
  }

  /** Reference definition of escaping: each character independently. */
  function EscPerChar(s: string): string {
    if |s| == 0 then [] else EscChar(s[0]) + EscPerChar(s[1..])
  }

  predicate IsSpecial(c: char) {
    c == '&' || c == '<' || c == '>' || c == '"' || c == '\''
  }

  lemma {:induction false} ReplaceAllAppend(s: string, t: string, c: char, rep: string)
    ensures ReplaceAll(s + t, c, rep) == ReplaceAll(s, c, rep) + ReplaceAll(t, c, rep)
  {
    if |s| > 0 {
      assert (s + t)[1..] == s[1..] + t;
      ReplaceAllAppend(s[1..], t, c, rep);
    } else {
      assert s + t == t;
    }
  }

  /** The five global replacements of `esc`, in its order. */
  function Chain(s: string): string {
    ReplaceAll(ReplaceAll(ReplaceAll(ReplaceAll(ReplaceAll(s, '&', "&amp;"), '<', "&lt;"), '>', "&gt;"), '"', "&quot;"), '\'', "&#039;")
  }

  /** A global replace on a one-character string. */
  lemma ReplaceAllOne(c: char, d: char, rep: string)
    ensures ReplaceAll([c], d, rep) == if c == d then rep else [c]
  {
    assert [c][1..] == [];
  }

  /** The characters entities are written with. */
  predicate EntityText(e: string) {
    forall i :: 0 <= i < |e| ==> e[i] == '&' || e[i] == '#' || e[i] == ';' || 'a' <= e[i] <= 'z' || '0' <= e[i] <= '9'
  }

  /** None of the characters replaced after `&` occurs in an entity. */
  lemma EntityFixedBy(e: string, c: char, rep: string)
    requires EntityText(e) && (c == '<' || c == '>' || c == '"' || c == '\'')
    ensures ReplaceAll(e, c, rep) == e
  {
  }

  /** An entity is left alone by every replacement that follows its own. */
  lemma EntityFixed(e: string, from: nat)
    requires EntityText(e)
    ensures from <= 1 ==> ReplaceAll(e, '<', "&lt;") == e
    ensures from <= 2 ==> ReplaceAll(e, '>', "&gt;") == e
    ensures from <= 3 ==> ReplaceAll(e, '"', "&quot;") == e
    ensures from <= 4 ==> ReplaceAll(e, '\'', "&#039;") == e
  {
    if from <= 1 { EntityFixedBy(e, '<', "&lt;"); }
    if from <= 2 { EntityFixedBy(e, '>', "&gt;"); }
    if from <= 3 { EntityFixedBy(e, '"', "&quot;"); }
    if from <= 4 { EntityFixedBy(e, '\'', "&#039;"); }
  }

  lemma EntitiesText()
    ensures EntityText("&amp;") && EntityText("&lt;") && EntityText("&gt;") && EntityText("&quot;")
  {
  }

  /** A character the chain replaces at step `k` (0 for `&`) becomes its
      entity there, and the later steps leave the entity alone. */
  lemma ChainSpecial(c: char, k: nat)
    requires (k == 0 && c == '&') || (k == 1 && c == '<') || (k == 2 && c == '>') || (k == 3 && c == '"')
    ensures Chain([c]) == EscChar(c)
  {
    var s1 := ReplaceAll([c], '&', "&amp;");
    var s2 := ReplaceAll(s1, '<', "&lt;");
    var s3 := ReplaceAll(s2, '>', "&gt;");
    var s4 := ReplaceAll(s3, '"', "&quot;");
    ReplaceAllOne(c, '&', "&amp;");
    if k >= 1 { ReplaceAllOne(c, '<', "&lt;"); }
    if k >= 2 { ReplaceAllOne(c, '>', "&gt;"); }
    if k >= 3 { ReplaceAllOne(c, '"', "&quot;"); }
    var e := if k == 0 then s1 else if k == 1 then s2 else if k == 2 then s3 else s4;
    EntitiesText();
    EntityFixed(e, k + 1);
  }

  /** One character through the chain: it is replaced at most once, since no
      entity contains a character a later step replaces. */
  lemma ChainChar(c: char)
    ensures Chain([c]) == EscChar(c)
  {
    if c == '&' {
      ChainSpecial(c, 0);
    } else if c == '<' {
      ChainSpecial(c, 1);
    } else if c == '>' {
      ChainSpecial(c, 2);
    } else if c == '"' {
      ChainSpecial(c, 3);
    } else {
      ReplaceAllOne(c, '&', "&amp;");
      ReplaceAllOne(c, '<', "&lt;");
      ReplaceAllOne(c, '>', "&gt;");
      ReplaceAllOne(c, '"', "&quot;");
      ReplaceAllOne(c, '\'', "&#039;");
    }
  }

  lemma {:induction false} ChainAppend(s: string, t: string)
    ensures Chain(s + t) == Chain(s) + Chain(t)
  {
    var a1, b1 := ReplaceAll(s, '&', "&amp;"), ReplaceAll(t, '&', "&amp;");
    ReplaceAllAppend(s, t, '&', "&amp;");
    var a2, b2 := ReplaceAll(a1, '<', "&lt;"), ReplaceAll(b1, '<', "&lt;");
    ReplaceAllAppend(a1, b1, '<', "&lt;");
    var a3, b3 := ReplaceAll(a2, '>', "&gt;"), ReplaceAll(b2, '>', "&gt;");
    ReplaceAllAppend(a2, b2, '>', "&gt;");
    var a4, b4 := ReplaceAll(a3, '"', "&quot;"), ReplaceAll(b3, '"', "&quot;");
    ReplaceAllAppend(a3, b3, '"', "&quot;");
    ReplaceAllAppend(a4, b4, '\'', "&#039;");
  }

  /** Because `&` is replaced first and no later pattern occurs in an
      earlier replacement, the chain equals the per-character mapping. */
  lemma {:induction false} ChainIsPerChar(s: string)
    ensures Chain(s) == EscPerChar(s)
  {
    if |s| > 0 {
      assert s == [s[0]] + s[1..];
      ChainAppend([s[0]], s[1..]);
      ChainChar(s[0]);
      ChainIsPerChar(s[1..]);
    }
  }

  /** Decoding the five entities `esc` inserts. */
  function Unescape(s: string): string {
    if |s| >= 5 && s[..5] == "&amp;" then "&" + Unescape(s[5..])
    else if |s| >= 4 && s[..4] == "&lt;" then "<" + Unescape(s[4..])
    else if |s| >= 4 && s[..4] == "&gt;" then ">" + Unescape(s[4..])
    else if |s| >= 6 && s[..6] == "&quot;" then "\"" + Unescape(s[6..])
    else if |s| >= 6 && s[..6] == "&#039;" then "'" + Unescape(s[6..])
    else if |s| == 0 then []
    else [s[0]] + Unescape(s[1..])
  }

  lemma UnescapeChar(c: char, rest: string)
    ensures Unescape(EscChar(c) + rest) == [c] + Unescape(rest)
  {
    var e := EscChar(c) + rest;
    if c == '&' {
      assert e[..5] == "&amp;" && e[5..] == rest;
    } else if c == '<' {
      assert e[1] == 'l' && (|e| >= 5 ==> e[..5][1] == 'l');
      assert e[..4] == "&lt;" && e[4..] == rest;
    } else if c == '>' {
      assert e[1] == 'g' && (|e| >= 5 ==> e[..5][1] == 'g') && e[..4][1] == 'g';
      assert e[..4] == "&gt;" && e[4..] == rest;
    } else if c == '"' {
      assert e[1] == 'q' && e[..5][1] == 'q' && e[..4][1] == 'q';
      assert e[..6] == "&quot;" && e[6..] == rest;
    } else if c == '\'' {
      assert e[1] == '#' && e[..5][1] == '#' && e[..4][1] == '#' && e[..6][1] == '#';
      assert e[..6] == "&#039;" && e[6..] == rest;
    } else {
      assert e == [c] + rest && e[0] == c && e[1..] == rest;
      assert |e| >= 4 ==> e[..4][0] == c;
      assert |e| >= 5 ==> e[..5][0] == c;
      assert |e| >= 6 ==> e[..6][0] == c;
    }
  }

  /** Decoding the per-character escape recovers the original string. */
  lemma {:induction false} PerCharRoundTrip(s: string)
    ensures Unescape(EscPerChar(s)) == s
  {
    if |s| > 0 {
      UnescapeChar(s[0], EscPerChar(s[1..]));
      PerCharRoundTrip(s[1..]);
      assert s == [s[0]] + s[1..];
    }
  }

  /** The per-character escape holds no markup-significant character. */
  lemma {:induction false} PerCharNoMarkup(s: string)
    ensures var e := EscPerChar(s); '<' !in e && '>' !in e && '"' !in e && '\'' !in e
  {
    if |s| > 0 {
      EscCharNoMarkup(s[0]);
      PerCharNoMarkup(s[1..]);
    }
  }

  lemma EscCharNoMarkup(c: char)
    ensures var e := EscChar(c); '<' !in e && '>' !in e && '"' !in e && '\'' !in e
  {
  }

  /** A string without any of the five special characters is unchanged. */
  lemma {:induction false} EscIdentity(s: string)
    requires forall i :: 0 <= i < |s| ==> !IsSpecial(s[i])
    ensures Esc(s) == s
  {
    PerCharIdentity(s);
  }

  lemma {:induction false} PerCharIdentity(s: string)
    requires forall i :: 0 <= i < |s| ==> !IsSpecial(s[i])
    ensures EscPerChar(s) == s
  {
    if |s| > 0 {
      PerCharIdentity(s[1..]);
      assert s == [s[0]] + s[1..];
    }
  }

  /** `clamp(n, min, max)` = `Math.max(min, Math.min(max, n))`. */
  function Clamp(n: int, min: int, max: int): (r: int)
    ensures min <= max ==> min <= r <= max
    ensures min <= n <= max ==> r == n
    ensures n < min ==> r == min
    ensures min <= max < n ==> r == max
    ensures max < min ==> r == min
  {
    var lo := if max < n then max else n;
    if min < lo then lo else min
  }

  /** No element occurs twice. */
  predicate Distinct<T(==)>(s: seq<T>) {
    forall i, j :: 0 <= i < j < |s| ==> s[i] != s[j]
  }

  /** `[a[i], a[j]] = [a[j], a[i]]` on a copy. */
  function Swap<T>(a: seq<T>, i: int, j: int): (r: seq<T>)
    requires 0 <= i < |a| && 0 <= j < |a|
    ensures |r| == |a| && r[i] == a[j] && r[j] == a[i]
    ensures forall p :: 0 <= p < |a| && p != i && p != j ==> r[p] == a[p]
    ensures multiset(r) == multiset(a)
  {
    a[i := a[j]][j := a[i]]
  }

  lemma SwapDistinct<T>(a: seq<T>, i: int, j: int)
    requires 0 <= i < |a| && 0 <= j < |a|
    ensures Distinct(a) ==> Distinct(Swap(a, i, j))
  {
    if !Distinct(a) { return; }
    var r := Swap(a, i, j);
    forall p, q | 0 <= p < q < |r|
      ensures r[p] != r[q]
    {
      var p' := if p == i then j else if p == j then i else p;
      var q' := if q == i then j else if q == j then i else q;
      assert r[p] == a[p'] && r[q] == a[q'] && p' != q';
    }
  }

  /** The Fisher–Yates loop from index `i` down to 1. The `k`-th random draw
      (`k = |a| - 1 - i`) stands for `Math.random()`; `draw % (i + 1)` is
      the index `j` in `[0, i]` that `Math.floor(Math.random() * (i + 1))`
      yields. Positions above `i` are already settled and are not touched. */
  function ShuffleFrom<T>(a: seq<T>, i: int, draws: seq<nat>): (r: seq<T>)
    requires i < |a| && |a| <= |draws| + 1
    ensures |r| == |a| && multiset(r) == multiset(a)
    ensures forall p :: 0 <= p < |a| && i < p ==> r[p] == a[p]
    ensures Distinct(a) ==> Distinct(r)
    decreases i
  {
    if i <= 0 then a
    else
      var j := draws[|a| - 1 - i] % (i + 1);
      var b := Swap(a, i, j);
      SwapDistinct(a, i, j);
      ShuffleFrom(b, i - 1, draws)
  }

  /** `shuffleArray(arr)`: a rearrangement of a copy of `arr`, driven by one
      draw per position from the top down to index 1. */
  function Shuffle<T>(arr: seq<T>, draws: seq<nat>): (r: seq<T>)
    requires |arr| <= |draws| + 1
    ensures |r| == |arr| && multiset(r) == multiset(arr)
    ensures Distinct(arr) ==> Distinct(r)
  {
    ShuffleFrom(arr, |arr| - 1, draws)
  }
}
