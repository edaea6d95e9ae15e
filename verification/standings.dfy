/** `computeStandings` before the sort, `h2h`, `collapseStreak` and
    `countCompletedMatchups`: the season's results folded into one record
    per team. */
module Standings {
  import opened Wrappers
  import opened LeagueTypes
  import opened Utils
  import opened Strings

  /** One game as a team saw it: opponent, points for, points against. */
  datatype Game = Game(opp: TeamId, scored: int, allowed: int)

  /** A team's running record while the schedule is folded; `streak` holds
      one result token per game, oldest first. */
  datatype Tally = Tally(w: nat, l: nat, t: nat, pf: int, pa: int, games: seq<Game>, streak: seq<char>)

  const Zero: Tally := Tally(0, 0, 0, 0, 0, [], [])

  /** The result token of a game scored `f` to `a`. */
  function Token(f: int, a: int): char {
    if f > a then 'W' else if f < a then 'L' else 'T'
  }

  /** Win, loss and tie counts agree with the game list and the streak. */
  predicate Consistent(t: Tally) {
    t.w + t.l + t.t == |t.games| == |t.streak|
  }

  /** One game added to a record: exactly one of the three counters moves,
      chosen by the score, and points, game list and streak grow by it. */
  function AddGame(t: Tally, opp: TeamId, f: int, a: int): (r: Tally)
    ensures r.w == t.w + (if f > a then 1 else 0)
    ensures r.l == t.l + (if f < a then 1 else 0)
    ensures r.t == t.t + (if f == a then 1 else 0)
    ensures r.pf == t.pf + f && r.pa == t.pa + a
    ensures r.games == t.games + [Game(opp, f, a)] && r.streak == t.streak + [Token(f, a)]
    ensures Consistent(t) ==> Consistent(r)
  {
    Tally(if f > a then t.w + 1 else t.w,
          if f < a then t.l + 1 else t.l,
          if f == a then t.t + 1 else t.t,
          t.pf + f, t.pa + a,
          t.games + [Game(opp, f, a)],
          t.streak + [Token(f, a)])
  }

  /** A matchup enters the standings only when neither side is the bye, it
      is completed with both scores, and both teams have a record. */
  predicate Counts(known: set<TeamId>, mu: Matchup) {
    !mu.HasBye() && mu.Decided() && mu.homeId in known && mu.awayId in known
  }

  /** The home update, then the away update, applied to the records; when
      a matchup pairs a team with itself both land on the one record. */
  function Apply(m: map<TeamId, Tally>, mu: Matchup): (r: map<TeamId, Tally>)
    ensures r.Keys == m.Keys
    ensures !Counts(m.Keys, mu) ==> r == m
    ensures forall k :: k in m && k != mu.homeId && k != mu.awayId ==> r[k] == m[k]
  {
    if !Counts(m.Keys, mu) then m
    else
      var hp, ap := mu.homeScore.value, mu.awayScore.value;
      var m1 := m[mu.homeId := AddGame(m[mu.homeId], mu.awayId, hp, ap)];
      m1[mu.awayId := AddGame(m1[mu.awayId], mu.homeId, ap, hp)]
  }

  /** The records after every matchup of `ms`, in order. */
  function Aggregate(ms: seq<Matchup>, m: map<TeamId, Tally>): (r: map<TeamId, Tally>)
    ensures r.Keys == m.Keys
  {
    if |ms| == 0 then m else Apply(Aggregate(ms[..|ms| - 1], m), ms[|ms| - 1])
  }

  /** The index of the first occurrence of `x` in `ids`. */
  function FirstIndex(ids: seq<TeamId>, x: TeamId): (k: nat)
    requires x in ids
    ensures k < |ids| && ids[k] == x && x !in ids[..k]
  {
    if ids[0] == x then 0
    else
      var k := 1 + FirstIndex(ids[1..], x);
      assert ids[..k] == [ids[0]] + ids[1..][..k - 1];
      k
  }

  /** Extending the list does not move the first occurrence of an id it
      already held. */
  lemma FirstIndexPrefix(ids: seq<TeamId>, n: nat, x: TeamId)
    requires n <= |ids| && x in ids[..n]
    ensures FirstIndex(ids[..n], x) == FirstIndex(ids, x)
  {
    var k := FirstIndex(ids[..n], x);
    assert ids[..n][..k] == ids[..k];
  }

  /** The ids of the records in insertion order: a repeated id keeps the
      place of its first occurrence, as a JavaScript `Map` does. */
  function Dedup(ids: seq<TeamId>): (r: seq<TeamId>)
    ensures Distinct(r)
    ensures forall x :: x in r <==> x in ids
    ensures |r| <= |ids|
    ensures forall i, j :: 0 <= i < j < |r| ==> FirstIndex(ids, r[i]) < FirstIndex(ids, r[j])
  {
    if |ids| == 0 then []
    else
      var n := |ids| - 1;
      var p := Dedup(ids[..n]);
      var x := ids[n];
      assert ids == ids[..n] + [x];
      assert forall y :: y in ids <==> y in ids[..n] || y == x;
      assert forall i :: 0 <= i < |p| ==> FirstIndex(ids[..n], p[i]) == FirstIndex(ids, p[i]) by {
        forall i | 0 <= i < |p| ensures FirstIndex(ids[..n], p[i]) == FirstIndex(ids, p[i]) {
          FirstIndexPrefix(ids, n, p[i]);
        }
      }
      if x in ids[..n] then p
      else
        assert FirstIndex(ids, x) == n;
        p + [x]
  }

  /** Every id starts with an empty record. */
  function Init(ids: seq<TeamId>): (m: map<TeamId, Tally>)
    ensures m.Keys == set x | x in ids
    ensures forall k :: k in m ==> m[k] == Zero
  {
    map x | x in ids :: Zero
  }

  /** The records of the league after its whole schedule. */
  function Tallies(league: League): (m: map<TeamId, Tally>)
    ensures m.Keys == set x | x in TeamIds(league.teams)
  {
    Aggregate(AllMatchups(league.schedule), Init(TeamIds(league.teams)))
  }

  // Reference definition: one team's record, matchup by matchup.

  /** What a matchup does to the record of team `k`: its home update if `k`
      is at home, then its away update if `k` is away. */
  function Step(known: set<TeamId>, k: TeamId, t: Tally, mu: Matchup): Tally {
    if !Counts(known, mu) then t
    else
      var hp, ap := mu.homeScore.value, mu.awayScore.value;
      var t1 := if mu.homeId == k then AddGame(t, mu.awayId, hp, ap) else t;
      if mu.awayId == k then AddGame(t1, mu.homeId, ap, hp) else t1
  }

  function TeamTally(known: set<TeamId>, k: TeamId, start: Tally, ms: seq<Matchup>): Tally {
    if |ms| == 0 then start else Step(known, k, TeamTally(known, k, start, ms[..|ms| - 1]), ms[|ms| - 1])
  }

  lemma ApplyIsStep(m: map<TeamId, Tally>, mu: Matchup, k: TeamId)
    requires k in m
    ensures Apply(m, mu)[k] == Step(m.Keys, k, m[k], mu)
  {
  }

  /** The fold over all records agrees, team by team, with the reference. */
  lemma {:induction false} AggregateIsTeamTally(ms: seq<Matchup>, m: map<TeamId, Tally>, k: TeamId)
    requires k in m
    ensures Aggregate(ms, m)[k] == TeamTally(m.Keys, k, m[k], ms)
  {
    if |ms| > 0 {
      AggregateIsTeamTally(ms[..|ms| - 1], m, k);
      ApplyIsStep(Aggregate(ms[..|ms| - 1], m), ms[|ms| - 1], k);
    }
  }

  /** A team's counters always agree with its game list and streak. */
  lemma {:induction false} TeamTallyConsistent(known: set<TeamId>, k: TeamId, start: Tally, ms: seq<Matchup>)
    requires Consistent(start)
    ensures Consistent(TeamTally(known, k, start, ms))
  {
    if |ms| > 0 {
      TeamTallyConsistent(known, k, start, ms[..|ms| - 1]);
    }
  }

  /** A team no counted matchup involves keeps its starting record. */
  lemma {:induction false} TeamTallyUntouched(known: set<TeamId>, k: TeamId, start: Tally, ms: seq<Matchup>)
    requires forall i :: 0 <= i < |ms| && Counts(known, ms[i]) ==> ms[i].homeId != k && ms[i].awayId != k
    ensures TeamTally(known, k, start, ms) == start
  {
    if |ms| > 0 {
      TeamTallyUntouched(known, k, start, ms[..|ms| - 1]);
    }
  }

  /** Every record of the league is consistent, and a team without a
      counted game has the empty record. */
  lemma TalliesFacts(league: League, k: TeamId)
    requires k in TeamIds(league.teams)
    ensures Consistent(Tallies(league)[k])
    ensures (forall mu :: mu in AllMatchups(league.schedule) && Counts(Tallies(league).Keys, mu) ==>
              mu.homeId != k && mu.awayId != k) ==> Tallies(league)[k] == Zero
  {
    var ms, m := AllMatchups(league.schedule), Init(TeamIds(league.teams));
    AggregateIsTeamTally(ms, m, k);
    TeamTallyConsistent(m.Keys, k, Zero, ms);
    if forall mu :: mu in ms && Counts(m.Keys, mu) ==> mu.homeId != k && mu.awayId != k {
      TeamTallyUntouched(m.Keys, k, Zero, ms);
    }
  }

  // Streak

  /** The length of the run of `c` at the end of `list`. */
  function RunLength(list: seq<char>, c: char): (n: nat)
    ensures n <= |list|
    ensures forall i :: |list| - n <= i < |list| ==> list[i] == c
    ensures n < |list| ==> list[|list| - n - 1] != c
  {
    if |list| == 0 || list[|list| - 1] != c then 0 else 1 + RunLength(list[..|list| - 1], c)
  }

  /** `collapseStreak`: the last result token followed by the length of the
      run it ends, in decimal; the empty string for no games. */
  function CollapseStreak(list: seq<char>): (r: string)
    ensures |list| == 0 <==> r == []
    ensures |list| > 0 ==> |r| >= 2 && r[0] == list[|list| - 1] && r[1] != '0'
    ensures |list| > 0 ==> forall i :: 1 <= i < |r| ==> '0' <= r[i] <= '9'
  {
    if |list| == 0 then []
    else
      var last := list[|list| - 1];
      [last] + NatToDecimal(RunLength(list, last))
  }

  /** The number a collapsed streak carries is exactly the length of the
      final run: every one of the last `n` tokens is the last one, and the
      token before them, if any, is different. */
  lemma StreakCount(list: seq<char>)
    requires |list| > 0
    ensures var r, n := CollapseStreak(list), DecimalValue(CollapseStreak(list)[1..]);
      1 <= n <= |list| &&
      (forall i :: |list| - n <= i < |list| ==> list[i] == r[0]) &&
      (n < |list| ==> list[|list| - n - 1] != r[0])
  {
    var last := list[|list| - 1];
    var r := CollapseStreak(list);
    assert r[1..] == NatToDecimal(RunLength(list, last));
    DecimalRoundTrip(RunLength(list, last));
  }

  // Head to head

  /** A decided matchup between `a` and `b`, in either orientation. */
  predicate PairGame(mu: Matchup, a: TeamId, b: TeamId) {
    mu.Decided() && ((mu.homeId == a && mu.awayId == b) || (mu.homeId == b && mu.awayId == a))
  }

  /** `a`'s score and then `b`'s in a decided matchup: the home score is
      `a`'s exactly when `a` is at home. */
  function Scores(mu: Matchup, a: TeamId): (int, int)
    requires mu.Decided()
  {
    if mu.homeId == a then (mu.homeScore.value, mu.awayScore.value)
    else (mu.awayScore.value, mu.homeScore.value)
  }

  /** A pair game `a` won against `b`. */
  predicate WonBy(mu: Matchup, a: TeamId, b: TeamId) {
    PairGame(mu, a, b) && Scores(mu, a).0 > Scores(mu, a).1
  }

  /** A pair game `a` lost against `b`. */
  predicate LostBy(mu: Matchup, a: TeamId, b: TeamId) {
    PairGame(mu, a, b) && Scores(mu, a).0 < Scores(mu, a).1
  }

  /** Games `a` won and lost against `b` among the decided matchups of
      `ms` that pair the two, in either orientation; drawn games count for
      neither. */
  function H2HCount(ms: seq<Matchup>, a: TeamId, b: TeamId): (r: (nat, nat))
    ensures r.0 + r.1 <= |ms|
  {
    if |ms| == 0 then (0, 0)
    else
      var p := H2HCount(ms[..|ms| - 1], a, b);
      var mu := ms[|ms| - 1];
      if !PairGame(mu, a, b) then p
      else if Scores(mu, a).0 > Scores(mu, a).1 then (p.0 + 1, p.1)
      else if Scores(mu, a).0 < Scores(mu, a).1 then (p.0, p.1 + 1)
      else p
  }

  /** The positions of `ms` holding a game `a` won against `b`. */
  function WinsAt(ms: seq<Matchup>, a: TeamId, b: TeamId): set<int> {
    set i | 0 <= i < |ms| && WonBy(ms[i], a, b)
  }

  /** The positions of `ms` holding a game `a` lost against `b`. */
  function LossesAt(ms: seq<Matchup>, a: TeamId, b: TeamId): set<int> {
    set i | 0 <= i < |ms| && LostBy(ms[i], a, b)
  }

  /** The counts are exact: `a`'s wins are the decided pair games where
      its score is higher, its losses those where it is lower. Games with
      other teams, undecided games and drawn games are in neither set. */
  lemma {:induction false} H2HCountIsSize(ms: seq<Matchup>, a: TeamId, b: TeamId)
    ensures H2HCount(ms, a, b) == (|WinsAt(ms, a, b)|, |LossesAt(ms, a, b)|)
  {
    if |ms| > 0 {
      H2HCountIsSize(ms[..|ms| - 1], a, b);
      WinsAtLast(ms, a, b);
      LossesAtLast(ms, a, b);
    }
  }

  /** The last matchup adds itself to the wins exactly when `a` won it. */
  lemma WinsAtLast(ms: seq<Matchup>, a: TeamId, b: TeamId)
    requires |ms| > 0
    ensures |WinsAt(ms, a, b)| == |WinsAt(ms[..|ms| - 1], a, b)| + (if WonBy(ms[|ms| - 1], a, b) then 1 else 0)
  {
    var n := |ms| - 1;
    var before := WinsAt(ms[..n], a, b);
    assert n !in before;
    if WonBy(ms[n], a, b) {
      assert WinsAt(ms, a, b) == before + {n};
    } else {
      assert WinsAt(ms, a, b) == before;
    }
  }

  /** The last matchup adds itself to the losses exactly when `a` lost it. */
  lemma LossesAtLast(ms: seq<Matchup>, a: TeamId, b: TeamId)
    requires |ms| > 0
    ensures |LossesAt(ms, a, b)| == |LossesAt(ms[..|ms| - 1], a, b)| + (if LostBy(ms[|ms| - 1], a, b) then 1 else 0)
  {
    var n := |ms| - 1;
    var before := LossesAt(ms[..n], a, b);
    assert n !in before;
    if LostBy(ms[n], a, b) {
      assert LossesAt(ms, a, b) == before + {n};
    } else {
      assert LossesAt(ms, a, b) == before;
    }
  }

  /** `h2h`: -1 when `a` has more wins than losses against `b` (so `a` sorts
      first), 1 when fewer, 0 when even or they never met. */
  function HeadToHead(league: League, a: TeamId, b: TeamId): (r: int)
    ensures r == -1 || r == 0 || r == 1
    ensures var c := H2HCount(AllMatchups(league.schedule), a, b);
      (r == -1 <==> c.0 > c.1) && (r == 1 <==> c.0 < c.1)
  {
    var c := H2HCount(AllMatchups(league.schedule), a, b);
    if c.0 + c.1 == 0 then 0 else if c.0 > c.1 then -1 else if c.0 < c.1 then 1 else 0
  }

  /** Two teams with no decided game between them that one side won (they
      never met, or only drew) are even: `h2h` gives 0. */
  lemma H2HEvenWithoutWinner(league: League, a: TeamId, b: TeamId)
    requires forall mu :: mu in AllMatchups(league.schedule) && PairGame(mu, a, b) ==>
      Scores(mu, a).0 == Scores(mu, a).1
    ensures HeadToHead(league, a, b) == 0
  {
    var ms := AllMatchups(league.schedule);
    H2HCountIsSize(ms, a, b);
    assert WinsAt(ms, a, b) == {} by {
      forall i | 0 <= i < |ms| ensures !WonBy(ms[i], a, b) {
        assert ms[i] in ms;
      }
    }
    assert LossesAt(ms, a, b) == {} by {
      forall i | 0 <= i < |ms| ensures !LostBy(ms[i], a, b) {
        assert ms[i] in ms;
      }
    }
  }

  /** Between two different teams, one's wins are the other's losses. */
  lemma {:induction false} H2HCountSwap(ms: seq<Matchup>, a: TeamId, b: TeamId)
    requires a != b
    ensures H2HCount(ms, b, a) == (H2HCount(ms, a, b).1, H2HCount(ms, a, b).0)
  {
    if |ms| > 0 {
      H2HCountSwap(ms[..|ms| - 1], a, b);
    }
  }

  /** `h2h` is antisymmetric for two different teams. */
  lemma H2HAntisymmetric(league: League, a: TeamId, b: TeamId)
    requires a != b
    ensures HeadToHead(league, b, a) == -HeadToHead(league, a, b)
  {
    H2HCountSwap(AllMatchups(league.schedule), a, b);
  }

  // Completed matchups

  /** A matchup `countCompletedMatchups` counts: a bye or a completed game. */
  predicate Done(mu: Matchup) {
    mu.HasBye() || mu.completed
  }

  function CountDone(ms: seq<Matchup>): (n: nat)
    ensures n <= |ms|
  {
    if |ms| == 0 then 0 else CountDone(ms[..|ms| - 1]) + (if Done(ms[|ms| - 1]) then 1 else 0)
  }

  /** `countCompletedMatchups`: byes and completed games over the season. */
  function CountCompletedMatchups(league: League): (n: nat)
    ensures n <= |AllMatchups(league.schedule)|
  {
    CountDone(AllMatchups(league.schedule))
  }

  /** The matchups that change the standings. */
  function CountCounted(known: set<TeamId>, ms: seq<Matchup>): (n: nat)
    ensures n <= |ms|
  {
    if |ms| == 0 then 0 else CountCounted(known, ms[..|ms| - 1]) + (if Counts(known, ms[|ms| - 1]) then 1 else 0)
  }

  /** The positions of `ms` that hold a bye or a completed game. */
  function DoneAt(ms: seq<Matchup>): set<int> {
    set i | 0 <= i < |ms| && Done(ms[i])
  }

  /** The count is exact: it is the size of the set of positions holding
      a bye or a completed game. */
  lemma {:induction false} CountDoneIsSize(ms: seq<Matchup>)
    ensures CountDone(ms) == |DoneAt(ms)|
  {
    if |ms| > 0 {
      var n := |ms| - 1;
      CountDoneIsSize(ms[..n]);
      var before := DoneAt(ms[..n]);
      assert n !in before;
      if Done(ms[n]) {
        assert DoneAt(ms) == before + {n};
      } else {
        assert DoneAt(ms) == before;
      }
    }
  }

  /** Every matchup that changes the standings is one the completed count
      includes, so the count bounds the games played. */
  lemma {:induction false} CountedAtMostDone(known: set<TeamId>, ms: seq<Matchup>)
    ensures CountCounted(known, ms) <= CountDone(ms)
  {
    if |ms| > 0 {
      CountedAtMostDone(known, ms[..|ms| - 1]);
    }
  }
}
