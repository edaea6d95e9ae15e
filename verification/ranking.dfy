/** The ordering half of `computeStandings`: the table rows, the row
    comparator, and the sort that puts the rows in order. */
module Ranking {
  import opened Wrappers
  import opened LeagueTypes
  import opened Utils
  import opened Strings
  import opened Standings
  import opened Lookup

  /** One row of the standings table: a team's record with its streak
      collapsed to text such as "W3". */
  datatype Standing = Standing(teamId: TeamId, w: nat, l: nat, t: nat, pf: int, pa: int, games: seq<Game>, streak: string)

  function Row(k: TeamId, r: Tally): (s: Standing)
    ensures s.teamId == k && s.w == r.w && s.l == r.l && s.t == r.t && s.pf == r.pf && s.pa == r.pa
    ensures s.games == r.games && s.streak == CollapseStreak(r.streak)
  {
    Standing(k, r.w, r.l, r.t, r.pf, r.pa, r.games, CollapseStreak(r.streak))
  }

  /** `x` is the row of its team's record. */
  predicate IsRow(league: League, x: Standing) {
    x.teamId in Tallies(league) && x == Row(x.teamId, Tallies(league)[x.teamId])
  }

  /** The rows before sorting: one per distinct team id, in roster order. */
  function Items(league: League): (r: seq<Standing>)
    ensures var ks := Dedup(TeamIds(league.teams));
      |r| == |ks| &&
      forall i :: 0 <= i < |r| ==>
        r[i].teamId == ks[i] && ks[i] in Tallies(league) && r[i] == Row(ks[i], Tallies(league)[ks[i]])
  {
    var ks := Dedup(TeamIds(league.teams));
    var m := Tallies(league);
    seq(|ks|, i requires 0 <= i < |ks| => Row(ks[i], m[ks[i]]))
  }

  /** The name a row sorts by: the team's name, or its id when the team is
      missing or its name is empty. */
  function SortName(league: League, id: TeamId): (n: string)
    ensures n == id || (exists i :: 0 <= i < |league.teams| && league.teams[i].id == id && league.teams[i].name == n)
    ensures TeamById(league, id).Some? && TeamById(league, id).value.name != [] ==>
      n == TeamById(league, id).value.name
    ensures (TeamById(league, id).None? || TeamById(league, id).value.name == []) ==> n == id
  {
    match TeamById(league, id)
    case Some(team) => if team.name != [] then team.name else id
    case None => id
  }

  /** Equal wins, losses and ties: the rows reach the tiebreaker. */
  predicate RecordTie(a: Standing, b: Standing) {
    a.w == b.w && a.l == b.l && a.t == b.t
  }

  /** The rows also tie on every key the league's tiebreaker uses, so the
      point differential and then the name decide. */
  predicate TiebreakTie(league: League, a: Standing, b: Standing) {
    RecordTie(a, b) &&
    (league.tiebreaker.PF? ==> a.pf == b.pf) &&
    (league.tiebreaker.PA? ==> a.pa == b.pa) &&
    (league.tiebreaker.H2H? ==> HeadToHead(league, a.teamId, b.teamId) == 0 && a.pf == b.pf)
  }

  /** The comparator of `computeStandings`: negative when `a` ranks above
      `b`. More wins first, then fewer losses, then more ties; then the
      league's tiebreaker (points for, points against, or head to head
      followed by points for); then point differential; then the name.
      Each key decides only when the earlier ones tie, and the rows compare
      equal only when every key the tiebreaker uses ties. */
  function Cmp(league: League, a: Standing, b: Standing): (r: int)
    ensures a.w != b.w ==> r != 0 && (r < 0 <==> a.w > b.w)
    ensures a.w == b.w && a.l != b.l ==> r != 0 && (r < 0 <==> a.l < b.l)
    ensures a.w == b.w && a.l == b.l && a.t != b.t ==> r != 0 && (r < 0 <==> a.t > b.t)
    ensures r == 0 ==> (a.w == b.w && a.l == b.l && a.t == b.t && a.pf - a.pa == b.pf - b.pa &&
                        SortName(league, a.teamId) == SortName(league, b.teamId))
    ensures r == 0 && league.tiebreaker.PF? ==> a.pf == b.pf
    ensures r == 0 && league.tiebreaker.PA? ==> a.pa == b.pa
    ensures r == 0 && league.tiebreaker.H2H? ==> HeadToHead(league, a.teamId, b.teamId) == 0 && a.pf == b.pf
    ensures RecordTie(a, b) && league.tiebreaker.PF? && a.pf != b.pf ==> r != 0 && (r < 0 <==> a.pf > b.pf)
    ensures RecordTie(a, b) && league.tiebreaker.PA? && a.pa != b.pa ==> r != 0 && (r < 0 <==> a.pa < b.pa)
    ensures RecordTie(a, b) && league.tiebreaker.H2H? && HeadToHead(league, a.teamId, b.teamId) != 0 ==>
      r == HeadToHead(league, a.teamId, b.teamId)
    ensures RecordTie(a, b) && league.tiebreaker.H2H? && HeadToHead(league, a.teamId, b.teamId) == 0 && a.pf != b.pf ==>
      r != 0 && (r < 0 <==> a.pf > b.pf)
    ensures TiebreakTie(league, a, b) && a.pf - a.pa != b.pf - b.pa ==> r != 0 && (r < 0 <==> a.pf - a.pa > b.pf - b.pa)
    ensures TiebreakTie(league, a, b) && a.pf - a.pa == b.pf - b.pa ==>
      r == LexCmp(SortName(league, a.teamId), SortName(league, b.teamId))
  {
    LexCmpZero(SortName(league, a.teamId), SortName(league, b.teamId));
    if b.w != a.w then b.w - a.w
    else if a.l != b.l then a.l - b.l
    else if b.t != a.t then b.t - a.t
    else if league.tiebreaker.PF? && b.pf != a.pf then b.pf - a.pf
    else if league.tiebreaker.PA? && a.pa != b.pa then a.pa - b.pa
    else if league.tiebreaker.H2H? && HeadToHead(league, a.teamId, b.teamId) != 0 then HeadToHead(league, a.teamId, b.teamId)
    else if league.tiebreaker.H2H? && b.pf != a.pf then b.pf - a.pf
    else if b.pf - b.pa != a.pf - a.pa then (b.pf - b.pa) - (a.pf - a.pa)
    else LexCmp(SortName(league, a.teamId), SortName(league, b.teamId))
  }

  /** Swapping the two rows negates the comparison, for rows of two
      different teams. */
  lemma CmpAntisymmetric(league: League, a: Standing, b: Standing)
    requires a.teamId != b.teamId
    ensures Cmp(league, b, a) == -Cmp(league, a, b)
  {
    H2HAntisymmetric(league, a.teamId, b.teamId);
    LexCmpAntisymmetric(SortName(league, a.teamId), SortName(league, b.teamId));
  }

  /** Without the head-to-head tiebreaker the comparator is transitive: it
      orders rows by a fixed list of keys. */
  lemma CmpTransitive(league: League, a: Standing, b: Standing, c: Standing)
    requires !league.tiebreaker.H2H?
    requires Cmp(league, a, b) <= 0 && Cmp(league, b, c) <= 0
    ensures Cmp(league, a, c) <= 0
  {
    if a.w == b.w == c.w && a.l == b.l == c.l && a.t == b.t == c.t &&
       (!league.tiebreaker.PF? || a.pf == b.pf == c.pf) &&
       (!league.tiebreaker.PA? || a.pa == b.pa == c.pa) &&
       a.pf - a.pa == b.pf - b.pa == c.pf - c.pa {
      LexCmpTransitive(SortName(league, a.teamId), SortName(league, b.teamId), SortName(league, c.teamId));
    }
  }

  /** Each row ranks no lower than the next one. */
  predicate Adjacent(league: League, s: seq<Standing>) {
    forall i :: 0 <= i < |s| - 1 ==> Cmp(league, s[i], s[i + 1]) <= 0
  }

  /** Each row ranks no lower than every later one. */
  predicate Sorted(league: League, s: seq<Standing>) {
    forall i, j :: 0 <= i < j < |s| ==> Cmp(league, s[i], s[j]) <= 0
  }

  /** Where insertion puts `x`: before the first row it does not rank
      below, or at the end when it ranks below every row. */
  function InsertPos(league: League, x: Standing, s: seq<Standing>): (p: nat)
    ensures p <= |s|
    ensures forall j :: 0 <= j < p ==> Cmp(league, x, s[j]) > 0
    ensures p < |s| ==> Cmp(league, x, s[p]) <= 0
  {
    if |s| == 0 || Cmp(league, x, s[0]) <= 0 then 0 else 1 + InsertPos(league, x, s[1..])
  }

  /** `x` put before the first row it does not rank below. */
  function Insert(league: League, x: Standing, s: seq<Standing>): (r: seq<Standing>)
    ensures |r| == |s| + 1 && multiset(r) == multiset(s) + multiset{x}
    ensures r[0] == x || (|s| > 0 && r[0] == s[0])
  {
    if |s| == 0 || Cmp(league, x, s[0]) <= 0 then [x] + s
    else
      assert s == [s[0]] + s[1..];
      [s[0]] + Insert(league, x, s[1..])
  }

  /** Insertion keeps the rows in their order and puts `x` at `InsertPos`:
      after every row it ranks below, before the first one it does not. */
  lemma {:induction false} InsertPlace(league: League, x: Standing, s: seq<Standing>)
    ensures var p := InsertPos(league, x, s); Insert(league, x, s) == s[..p] + [x] + s[p..]
  {
    if |s| > 0 && Cmp(league, x, s[0]) > 0 {
      var t := s[1..];
      InsertPlace(league, x, t);
      assert Insert(league, x, s) == [s[0]] + Insert(league, x, t);
      assert InsertPos(league, x, s) == 1 + InsertPos(league, x, t);
      ConsSplit(s, InsertPos(league, x, t), x);
    } else {
      assert Insert(league, x, s) == [x] + s && InsertPos(league, x, s) == 0;
      ConsSplit(s, 0, x);
    }
  }

  /** Splitting after the head of a sequence. */
  lemma ConsSplit<T>(s: seq<T>, q: nat, x: T)
    requires |s| > 0 ==> q < |s|
    ensures |s| > 0 ==> [s[0]] + (s[1..][..q] + [x] + s[1..][q..]) == s[..q + 1] + [x] + s[q + 1..]
    ensures [x] + s == s[..0] + [x] + s[0..]
  {
    if |s| > 0 {
      assert s[..q + 1] == [s[0]] + s[1..][..q];
    }
  }

  /** `items.sort(comparator)`, as a stable insertion sort. */
  function Sort(league: League, s: seq<Standing>): (r: seq<Standing>)
    ensures |r| == |s| && multiset(r) == multiset(s)
  {
    if |s| == 0 then []
    else
      assert s == [s[0]] + s[1..];
      Insert(league, s[0], Sort(league, s[1..]))
  }

  lemma {:induction false} InsertAdjacent(league: League, x: Standing, s: seq<Standing>)
    requires Adjacent(league, s)
    requires forall y :: y in s ==> y.teamId != x.teamId
    ensures Adjacent(league, Insert(league, x, s))
  {
    if |s| > 0 && Cmp(league, x, s[0]) > 0 {
      CmpAntisymmetric(league, x, s[0]);
      InsertAdjacent(league, x, s[1..]);
      var r := Insert(league, x, s[1..]);
      assert |s| > 1 ==> Cmp(league, s[0], s[1]) <= 0;
      assert Insert(league, x, s) == [s[0]] + r;
    }
  }

  /** No row of the sorted tail shares the head's team. */
  lemma SortedOthers(league: League, s: seq<Standing>)
    requires |s| > 0
    requires forall i, j :: 0 <= i < j < |s| ==> s[i].teamId != s[j].teamId
    ensures forall y :: y in Sort(league, s[1..]) ==> y.teamId != s[0].teamId
  {
    var t := Sort(league, s[1..]);
    forall y | y in t ensures y.teamId != s[0].teamId {
      assert y in multiset(s[1..]);
    }
  }

  /** The sort leaves every pair of neighbouring rows in order, whatever
      the tiebreaker, as long as no team id repeats. */
  lemma {:induction false} SortAdjacent(league: League, s: seq<Standing>)
    requires forall i, j :: 0 <= i < j < |s| ==> s[i].teamId != s[j].teamId
    ensures Adjacent(league, Sort(league, s))
  {
    if |s| > 0 {
      SortAdjacent(league, s[1..]);
      SortedOthers(league, s);
      InsertAdjacent(league, s[0], Sort(league, s[1..]));
    }
  }

  /** With a transitive comparator, neighbours in order means all in order. */
  lemma {:induction false} AdjacentSorted(league: League, s: seq<Standing>)
    requires !league.tiebreaker.H2H? && Adjacent(league, s)
    ensures Sorted(league, s)
  {
    if |s| > 1 {
      AdjacentSorted(league, s[1..]);
      forall i, j | 0 <= i < j < |s| ensures Cmp(league, s[i], s[j]) <= 0 {
        if i > 0 {
          assert s[i] == s[1..][i - 1] && s[j] == s[1..][j - 1];
        } else if j > 1 {
          assert s[1] == s[1..][0] && s[j] == s[1..][j - 1];
          CmpTransitive(league, s[0], s[1], s[j]);
        }
      }
    }
  }

  lemma ItemsAreRows(league: League)
    ensures forall x :: x in Items(league) ==> IsRow(league, x)
  {
  }

  /** A rearrangement of rows is still made of rows. */
  lemma PermutedRows(league: League, s: seq<Standing>, r: seq<Standing>)
    requires multiset(r) == multiset(s) && forall x :: x in s ==> IsRow(league, x)
    ensures forall i :: 0 <= i < |r| ==> IsRow(league, r[i])
  {
    forall i | 0 <= i < |r| ensures IsRow(league, r[i]) {
      assert r[i] in multiset(s);
    }
  }

  /** `computeStandings`: one row per team id, each holding that team's
      record, ordered by the comparator. */
  function ComputeStandings(league: League): (r: seq<Standing>)
    ensures multiset(r) == multiset(Items(league)) && |r| == |Dedup(TeamIds(league.teams))|
    ensures forall i :: 0 <= i < |r| ==> IsRow(league, r[i])
    ensures Adjacent(league, r)
    ensures !league.tiebreaker.H2H? ==> Sorted(league, r)
  {
    var items := Items(league);
    var r := Sort(league, items);
    ItemsAreRows(league);
    PermutedRows(league, items, r);
    SortAdjacent(league, items);
    if !league.tiebreaker.H2H? then AdjacentSorted(league, r); r else r
  }
}
