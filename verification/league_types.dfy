/** The league document the core works on: teams, a schedule of weeks of
    matchups, and the tiebreaker setting. */
module LeagueTypes {
  import opened Wrappers

  /** Team identifiers are opaque strings. */
  type TeamId = string

  /** The sentinel opponent of a team that has no game in a week. */
  const BYE: TeamId := "BYE"

  /** A pairing; a missing score is `None` (JavaScript `null`). */
  datatype Matchup = Matchup(
    homeId: TeamId,
    awayId: TeamId,
    homeScore: Option<int>,
    awayScore: Option<int>,
    completed: bool)
  {
    predicate HasBye() {
      homeId == BYE || awayId == BYE
    }

    /** Completed and both scores entered. */
    predicate Decided() {
      completed && homeScore.Some? && awayScore.Some?
    }
  }

  datatype Week = Week(week: int, matchups: seq<Matchup>)

  /** The team fields the core reads (owner and colour are display data). */
  datatype Team = Team(id: TeamId, name: string, abbrev: string)

  datatype Tiebreaker = PF | PA | H2H

  datatype League = League(teams: seq<Team>, schedule: seq<Week>, tiebreaker: Tiebreaker)

  /** Every matchup of the schedule, weeks in order, matchups in order. */
  function AllMatchups(schedule: seq<Week>): (r: seq<Matchup>)
    ensures |schedule| == 0 ==> r == []
  {
    if |schedule| == 0 then []
    else AllMatchups(schedule[..|schedule| - 1]) + schedule[|schedule| - 1].matchups
  }

  /** The traversal visits every matchup of every week and nothing else. */
  lemma {:induction false} AllMatchupsMembers(schedule: seq<Week>, mu: Matchup)
    ensures mu in AllMatchups(schedule) <==>
      exists w :: 0 <= w < |schedule| && mu in schedule[w].matchups
  {
    if |schedule| > 0 {
      var n := |schedule| - 1;
      AllMatchupsMembers(schedule[..n], mu);
      if exists w :: 0 <= w < |schedule| && mu in schedule[w].matchups {
        var w :| 0 <= w < |schedule| && mu in schedule[w].matchups;
        if w < n {
          assert schedule[..n][w] == schedule[w];
        }
      }
      if exists w :: 0 <= w < n && mu in schedule[..n][w].matchups {
        var w :| 0 <= w < n && mu in schedule[..n][w].matchups;
        assert schedule[w] == schedule[..n][w];
      }
    }
  }

  function TeamIds(teams: seq<Team>): (r: seq<TeamId>)
    ensures |r| == |teams| && forall i :: 0 <= i < |teams| ==> r[i] == teams[i].id
  {
    seq(|teams|, i requires 0 <= i < |teams| => teams[i].id)
  }
}
