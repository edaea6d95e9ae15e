/** League-wide conservation laws of `computeStandings`: every counted game
    gives one team a win exactly when it gives the other a loss, and its
    points count once for and once against. */
module StandingsTotals {
  import opened LeagueTypes
  import opened Utils
  import opened Standings

  /** A numeric column of the standings table. */
  datatype Field = Wins | Losses | Ties | PointsFor | PointsAgainst | Played

  function Get(t: Tally, f: Field): int {
    match f
    case Wins => t.w
    case Losses => t.l
    case Ties => t.t
    case PointsFor => t.pf
    case PointsAgainst => t.pa
    case Played => |t.games|
  }

  /** The column `f` summed over the records of the teams `ks`. */
  function Total(m: map<TeamId, Tally>, ks: seq<TeamId>, f: Field): int
    requires forall k :: k in ks ==> k in m
  {
    if |ks| == 0 then 0 else Get(m[ks[0]], f) + Total(m, ks[1..], f)
  }

  /** Replacing one record changes a total over distinct teams by the
      change in that record, and only if the team is among them. */
  lemma {:induction false} TotalUpdate(m: map<TeamId, Tally>, ks: seq<TeamId>, k: TeamId, v: Tally, f: Field)
    requires Distinct(ks) && k in m && forall j :: j in ks ==> j in m
    ensures Total(m[k := v], ks, f) == Total(m, ks, f) + (if k in ks then Get(v, f) - Get(m[k], f) else 0)
  {
    if |ks| > 0 {
      assert Distinct(ks[1..]) by {
        forall i, j | 0 <= i < j < |ks[1..]| ensures ks[1..][i] != ks[1..][j] {
          assert ks[1..][i] == ks[i + 1] && ks[1..][j] == ks[j + 1];
        }
      }
      assert ks[0] !in ks[1..] by {
        forall j | 0 <= j < |ks| - 1 ensures ks[1..][j] != ks[0] {
          assert ks[1..][j] == ks[j + 1];
        }
      }
      assert k in ks <==> k == ks[0] || k in ks[1..];
      TotalUpdate(m, ks[1..], k, v, f);
    }
  }

  /** Every column totals zero over empty records. */
  lemma {:induction false} TotalZero(m: map<TeamId, Tally>, ks: seq<TeamId>, f: Field)
    requires forall k :: k in ks ==> k in m && m[k] == Zero
    ensures Total(m, ks, f) == 0
  {
    if |ks| > 0 {
      TotalZero(m, ks[1..], f);
    }
  }

  /** A counted matchup keeps total wins minus total losses. */
  lemma ApplyWinsLosses(m: map<TeamId, Tally>, ks: seq<TeamId>, mu: Matchup)
    requires Distinct(ks) && (forall k :: k in m <==> k in ks) && Counts(m.Keys, mu)
    ensures var r := Apply(m, mu);
      Total(r, ks, Wins) - Total(r, ks, Losses) == Total(m, ks, Wins) - Total(m, ks, Losses)
  {
    var hp, ap := mu.homeScore.value, mu.awayScore.value;
    var h := AddGame(m[mu.homeId], mu.awayId, hp, ap);
    var m1 := m[mu.homeId := h];
    var a := AddGame(m1[mu.awayId], mu.homeId, ap, hp);
    assert Apply(m, mu) == m1[mu.awayId := a];
    TotalUpdate(m, ks, mu.homeId, h, Wins);
    TotalUpdate(m1, ks, mu.awayId, a, Wins);
    TotalUpdate(m, ks, mu.homeId, h, Losses);
    TotalUpdate(m1, ks, mu.awayId, a, Losses);
  }

  /** A counted matchup keeps total points for minus total points against. */
  lemma ApplyPoints(m: map<TeamId, Tally>, ks: seq<TeamId>, mu: Matchup)
    requires Distinct(ks) && (forall k :: k in m <==> k in ks) && Counts(m.Keys, mu)
    ensures var r := Apply(m, mu);
      Total(r, ks, PointsFor) - Total(r, ks, PointsAgainst) == Total(m, ks, PointsFor) - Total(m, ks, PointsAgainst)
  {
    var hp, ap := mu.homeScore.value, mu.awayScore.value;
    var h := AddGame(m[mu.homeId], mu.awayId, hp, ap);
    var m1 := m[mu.homeId := h];
    var a := AddGame(m1[mu.awayId], mu.homeId, ap, hp);
    assert Apply(m, mu) == m1[mu.awayId := a];
    TotalUpdate(m, ks, mu.homeId, h, PointsFor);
    TotalUpdate(m1, ks, mu.awayId, a, PointsFor);
    TotalUpdate(m, ks, mu.homeId, h, PointsAgainst);
    TotalUpdate(m1, ks, mu.awayId, a, PointsAgainst);
  }

  /** A counted matchup adds two games to the records. */
  lemma ApplyPlayed(m: map<TeamId, Tally>, ks: seq<TeamId>, mu: Matchup)
    requires Distinct(ks) && (forall k :: k in m <==> k in ks) && Counts(m.Keys, mu)
    ensures Total(Apply(m, mu), ks, Played) == Total(m, ks, Played) + 2
  {
    var hp, ap := mu.homeScore.value, mu.awayScore.value;
    var h := AddGame(m[mu.homeId], mu.awayId, hp, ap);
    var m1 := m[mu.homeId := h];
    var a := AddGame(m1[mu.awayId], mu.homeId, ap, hp);
    assert Apply(m, mu) == m1[mu.awayId := a];
    TotalUpdate(m, ks, mu.homeId, h, Played);
    TotalUpdate(m1, ks, mu.awayId, a, Played);
  }

  /** How one matchup moves the totals over all teams: wins and losses,
      and points for and against, move together, and the games played
      grow by two exactly when the matchup counts. */
  lemma ApplyTotals(m: map<TeamId, Tally>, ks: seq<TeamId>, mu: Matchup)
    requires Distinct(ks) && forall k :: k in m <==> k in ks
    ensures var r := Apply(m, mu);
      Total(r, ks, Wins) - Total(r, ks, Losses) == Total(m, ks, Wins) - Total(m, ks, Losses) &&
      Total(r, ks, PointsFor) - Total(r, ks, PointsAgainst) == Total(m, ks, PointsFor) - Total(m, ks, PointsAgainst) &&
      Total(r, ks, Played) == Total(m, ks, Played) + (if Counts(m.Keys, mu) then 2 else 0)
  {
    if Counts(m.Keys, mu) {
      ApplyWinsLosses(m, ks, mu);
      ApplyPoints(m, ks, mu);
      ApplyPlayed(m, ks, mu);
    }
  }

  /** The totals after a run of matchups. */
  lemma {:induction false} AggregateTotals(ms: seq<Matchup>, m: map<TeamId, Tally>, ks: seq<TeamId>)
    requires Distinct(ks) && forall k :: k in m <==> k in ks
    ensures var r := Aggregate(ms, m);
      Total(r, ks, Wins) - Total(r, ks, Losses) == Total(m, ks, Wins) - Total(m, ks, Losses) &&
      Total(r, ks, PointsFor) - Total(r, ks, PointsAgainst) == Total(m, ks, PointsFor) - Total(m, ks, PointsAgainst) &&
      Total(r, ks, Played) == Total(m, ks, Played) + 2 * CountCounted(m.Keys, ms)
  {
    if |ms| > 0 {
      var p := Aggregate(ms[..|ms| - 1], m);
      AggregateTotals(ms[..|ms| - 1], m, ks);
      ApplyTotals(p, ks, ms[|ms| - 1]);
    }
  }

  /** Over the whole league: total wins equal total losses, total points
      for equal total points against, and the games in the records are
      twice the matchups that counted. */
  lemma LeagueTotals(league: League)
    ensures var r, ks := Tallies(league), Dedup(TeamIds(league.teams));
      (forall k :: k in ks ==> k in r) &&
      Total(r, ks, Wins) == Total(r, ks, Losses) &&
      Total(r, ks, PointsFor) == Total(r, ks, PointsAgainst) &&
      Total(r, ks, Played) == 2 * CountCounted(r.Keys, AllMatchups(league.schedule))
  {
    var ids := TeamIds(league.teams);
    var ks, m := Dedup(ids), Init(ids);
    AggregateTotals(AllMatchups(league.schedule), m, ks);
    TotalZero(m, ks, Wins);
    TotalZero(m, ks, Losses);
    TotalZero(m, ks, PointsFor);
    TotalZero(m, ks, PointsAgainst);
    TotalZero(m, ks, Played);
  }
}
