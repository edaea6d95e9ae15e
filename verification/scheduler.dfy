/** The circle-method round-robin generator of state.js. */
module Scheduler {
  import opened Wrappers
  import opened LeagueTypes
  import opened Utils
  import opened Rotation

  /** A newly scheduled matchup: no scores, and completed exactly when one
      side is the bye. */
  function Fresh(home: TeamId, away: TeamId): (m: Matchup)
    ensures m.homeId == home && m.awayId == away
    ensures m.homeScore == None && m.awayScore == None
    ensures m.completed <==> (home == BYE || away == BYE)
  {
    Matchup(home, away, None, None, home == BYE || away == BYE)
  }

  /** An odd roster gets the bye appended. */
  function Pad(ids: seq<TeamId>): (r: seq<TeamId>)
    ensures |r| % 2 == 0
    ensures |ids| % 2 == 0 ==> r == ids
    ensures |ids| % 2 == 1 ==> r == ids + [BYE]
  {
    if |ids| % 2 == 1 then ids + [BYE] else ids
  }

  /** One round over the working order `arr`: position `i` meets position
      `n - 1 - i`, with home and away swapped when `flip` holds. */
  function RoundOf(arr: seq<TeamId>, flip: bool): (round: seq<Matchup>)
    requires |arr| % 2 == 0
    ensures |round| == |arr| / 2
  {
    seq(|arr| / 2, i requires 0 <= i < |arr| / 2 =>
      if flip then Fresh(arr[|arr| - 1 - i], arr[i]) else Fresh(arr[i], arr[|arr| - 1 - i]))
  }

  /** The `n - 1` rounds of one cycle over an even-length working order:
      round `r` is built from the order after `r` rotations, flipped when
      `r` is odd. `BuildCycle` below is the source's loop and is proved to
      produce exactly these rounds. */
  function Cycle(ids: seq<TeamId>): (c: seq<seq<Matchup>>)
    requires |ids| % 2 == 0
    ensures |ids| == 0 ==> c == []
    ensures |ids| > 0 ==> |c| == |ids| - 1
  {
    if |ids| == 0 then []
    else seq(|ids| - 1, r requires 0 <= r < |ids| - 1 => RoundOf(Rotated(ids, r), r % 2 == 1))
  }

  /** The loop of `generateRoundRobin`: each round is built from the
      current working order (flipped on odd rounds), then the order is
      rotated with `rotateRR`. */
  method BuildCycle(ids: seq<TeamId>) returns (cycle: seq<seq<Matchup>>)
    requires |ids| % 2 == 0
    ensures cycle == Cycle(ids)
  {
    var n := |ids|;
    var rounds := n - 1;
    cycle := [];
    var arr := ids;
    var r := 0;
    if n > 0 {
      RotatedZero(ids);
    }
    while r < rounds
      invariant 0 <= r <= if n == 0 then 0 else rounds
      invariant |cycle| == r
      invariant n > 0 ==> arr == Rotated(ids, r)
      invariant forall j :: 0 <= j < r ==> cycle[j] == RoundOf(Rotated(ids, j), j % 2 == 1)
    {
      cycle := cycle + [RoundOf(arr, r % 2 == 1)];
      RotateRRStep(ids, r);
      arr := RotateRR(arr);
      r := r + 1;
    }
  }

  /** A round with home and away exchanged on every matchup. */
  function Mirror(round: seq<Matchup>): (r: seq<Matchup>)
    ensures |r| == |round|
    ensures forall k :: 0 <= k < |round| ==>
      r[k] == Fresh(round[k].awayId, round[k].homeId)
  {
    seq(|round|, k requires 0 <= k < |round| => Fresh(round[k].awayId, round[k].homeId))
  }

  /** The cycle, followed by its mirror when a double round-robin is asked for. */
  function AllRounds(ids: seq<TeamId>, double: bool): (all: seq<seq<Matchup>>)
    requires |ids| % 2 == 0
    ensures |all| == (if |ids| == 0 then 0 else if double then 2 * (|ids| - 1) else |ids| - 1)
  {
    var c := Cycle(ids);
    if double then c + seq(|c|, k requires 0 <= k < |c| => Mirror(c[k])) else c
  }

  /** The team order the rounds are built from: the roster, shuffled when
      asked, padded with the bye when odd. */
  function Working(teamIds: seq<TeamId>, shuffle: bool, draws: seq<nat>): (ids: seq<TeamId>)
    requires shuffle ==> |teamIds| <= |draws| + 1
    ensures |ids| % 2 == 0
    ensures |ids| == |teamIds| + |teamIds| % 2
    ensures multiset(ids) == multiset(teamIds) + (if |teamIds| % 2 == 1 then multiset{BYE} else multiset{})
  {
    Pad(if shuffle then Shuffle(teamIds, draws) else teamIds)
  }

  datatype ScheduleError =
    /** Weeks were asked for but there is no round to fill them with:
        the source indexes an empty round list and throws. */
    NoRounds

  /** The round a week plays: the rounds repeat once they run out, so week
      index `w` plays round `w mod count`; within the first pass it is
      round `w` itself. */
  function RoundForWeek(w: nat, count: nat): (k: nat)
    requires count > 0
    ensures k < count
    ensures w < count ==> k == w
  {
    w % count
  }

  /** `weeks` weeks numbered from 1, playing the rounds in turn. */
  function Season(all: seq<seq<Matchup>>, weeks: nat): (r: seq<Week>)
    requires |all| > 0
    ensures |r| == weeks
    ensures forall w :: 0 <= w < weeks ==> r[w].week == w + 1 && r[w].matchups == all[RoundForWeek(w, |all|)]
  {
    seq(weeks, w requires 0 <= w < weeks => Week(w + 1, all[RoundForWeek(w, |all|)]))
  }

  /** `generateRoundRobin(teamIds, {weeks, double, shuffle})`, with the
      random source of the shuffle given as `draws`. */
  function GenerateRoundRobin(teamIds: seq<TeamId>, weeks: int, double: bool, shuffle: bool, draws: seq<nat>)
    : (r: Result<seq<Week>, ScheduleError>)
    requires shuffle ==> |teamIds| <= |draws| + 1
    ensures r.Failure? <==> |teamIds| == 0 && weeks >= 1
    ensures r.Success? ==> |r.value| == (if weeks < 1 then 0 else weeks)
    ensures r.Success? ==> forall w :: 0 <= w < |r.value| ==> r.value[w].week == w + 1
    ensures r.Success? && |r.value| > 0 ==>
      var all := AllRounds(Working(teamIds, shuffle, draws), double);
      |all| > 0 && forall w :: 0 <= w < |r.value| ==> r.value[w].matchups == all[RoundForWeek(w, |all|)]
  {
    var ids := Working(teamIds, shuffle, draws);
    var all := AllRounds(ids, double);
    if weeks < 1 then Success([])
    else if |all| == 0 then
      Failure(NoRounds)
    else
      Success(Season(all, weeks))
  }
}
