/** What a generated schedule guarantees: fresh matchups, the mirrored
    second half of a double round-robin, one bye per round for an odd
    roster, and every pair of teams meeting once per cycle. */
module RoundRobin {
  import opened Wrappers
  import opened LeagueTypes
  import opened Utils
  import opened Scheduler
  import opened CircleMethod
  import opened Rotation

  /** Every matchup is unscored and completed exactly when it has a bye. */
  predicate FreshRound(round: seq<Matchup>) {
    forall k :: 0 <= k < |round| ==>
      round[k].homeScore.None? && round[k].awayScore.None? && (round[k].completed <==> round[k].HasBye())
  }

  /** Team `a` plays at home against `b` in the round. */
  predicate Hosts(round: seq<Matchup>, a: TeamId, b: TeamId) {
    exists k :: 0 <= k < |round| && round[k].homeId == a && round[k].awayId == b
  }

  lemma RoundOfFresh(arr: seq<TeamId>, flip: bool)
    requires |arr| % 2 == 0
    ensures FreshRound(RoundOf(arr, flip))
  {
  }

  lemma CycleFresh(ids: seq<TeamId>)
    requires |ids| % 2 == 0
    ensures forall r :: 0 <= r < |Cycle(ids)| ==> FreshRound(Cycle(ids)[r])
  {
    forall r | 0 <= r < |Cycle(ids)|
      ensures FreshRound(Cycle(ids)[r])
    {
      CycleRound(ids, r);
      RoundOfFresh(Rotated(ids, r), r % 2 == 1);
    }
  }

  /** Every round the generator can hand out, in either half, is fresh. */
  lemma AllRoundsFresh(ids: seq<TeamId>, double: bool)
    requires |ids| % 2 == 0
    ensures forall r :: 0 <= r < |AllRounds(ids, double)| ==> FreshRound(AllRounds(ids, double)[r])
  {
    CycleFresh(ids);
    var c := Cycle(ids);
    forall r | 0 <= r < |AllRounds(ids, double)|
      ensures FreshRound(AllRounds(ids, double)[r])
    {
      if r >= |c| {
        assert AllRounds(ids, double)[r] == Mirror(c[r - |c|]);
      }
    }
  }

  /** A double round-robin is the cycle followed by its mirror: round
      `k + (n - 1)` is round `k` with home and away exchanged. */
  lemma DoubleMirror(ids: seq<TeamId>)
    requires |ids| % 2 == 0
    ensures |AllRounds(ids, true)| == 2 * |Cycle(ids)|
    ensures forall k :: 0 <= k < |Cycle(ids)| ==>
      AllRounds(ids, true)[k] == Cycle(ids)[k] && AllRounds(ids, true)[k + |Cycle(ids)|] == Mirror(Cycle(ids)[k])
  {
  }

  lemma MirrorHosts(round: seq<Matchup>, a: TeamId, b: TeamId)
    ensures Hosts(Mirror(round), a, b) <==> Hosts(round, b, a)
  {
    if Hosts(round, b, a) {
      var k :| 0 <= k < |round| && round[k].homeId == b && round[k].awayId == a;
      assert Mirror(round)[k].homeId == a;
    }
  }

  lemma PlaysHosts(round: seq<Matchup>, a: TeamId, b: TeamId)
    ensures Plays(round, a, b) <==> Hosts(round, a, b) || Hosts(round, b, a)
    ensures Plays(round, a, b) <==> Plays(round, b, a)
  {
    if Hosts(round, a, b) {
      var k :| 0 <= k < |round| && round[k].homeId == a && round[k].awayId == b;
      assert Meets(round[k], a, b) && Meets(round[k], b, a);
    }
    if Hosts(round, b, a) {
      var k :| 0 <= k < |round| && round[k].homeId == b && round[k].awayId == a;
      assert Meets(round[k], a, b) && Meets(round[k], b, a);
    }
  }

  /** In a round that repeats no team, two teams meet in one orientation only. */
  lemma OneWay(round: seq<Matchup>, a: TeamId, b: TeamId)
    requires NoRepeat(round) && a != b
    ensures !(Hosts(round, a, b) && Hosts(round, b, a))
  {
    if Hosts(round, a, b) && Hosts(round, b, a) {
      var k :| 0 <= k < |round| && round[k].homeId == a && round[k].awayId == b;
      var l :| 0 <= l < |round| && round[l].homeId == b && round[l].awayId == a;
      if k < l {
        assert Involves(round[l], round[k].homeId);
      } else if l < k {
        assert Involves(round[k], round[l].homeId);
      }
    }
  }

  /** The round of the cycle in which two distinct teams meet. */
  lemma MeetingRoundOf(ids: seq<TeamId>, a: TeamId, b: TeamId) returns (r0: int)
    requires |ids| % 2 == 0 && Distinct(ids) && a in ids && b in ids && a != b
    ensures 0 <= r0 < |ids| - 1
    ensures forall r :: 0 <= r < |ids| - 1 ==> (Plays(Cycle(ids)[r], a, b) <==> r == r0)
  {
    var x :| 0 <= x < |ids| && ids[x] == a;
    var y :| 0 <= y < |ids| && ids[y] == b;
    r0 := MeetsExactlyAt(ids, x, y);
  }

  /** Where `a` hosts `b` in a double round-robin: in the first half as in
      the cycle, in the second half where the cycle has `b` hosting `a`. */
  lemma DoubleHosts(ids: seq<TeamId>, r: int, a: TeamId, b: TeamId)
    requires |ids| % 2 == 0 && |ids| >= 2 && 0 <= r < 2 * (|ids| - 1)
    ensures r < |ids| - 1 ==> (Hosts(AllRounds(ids, true)[r], a, b) <==> Hosts(Cycle(ids)[r], a, b))
    ensures r >= |ids| - 1 ==> (Hosts(AllRounds(ids, true)[r], a, b) <==> Hosts(Cycle(ids)[r - (|ids| - 1)], b, a))
  {
    var m := |ids| - 1;
    if r >= m {
      assert AllRounds(ids, true)[r] == Mirror(Cycle(ids)[r - m]);
      MirrorHosts(Cycle(ids)[r - m], a, b);
    } else {
      assert AllRounds(ids, true)[r] == Cycle(ids)[r];
    }
  }

  /** In a double round-robin each ordered pair of distinct teams, home
      against away, occurs in exactly one round. */
  lemma DoubleHostsOnce(ids: seq<TeamId>, a: TeamId, b: TeamId)
    requires |ids| % 2 == 0 && Distinct(ids) && a in ids && b in ids && a != b
    ensures |set r | 0 <= r < |AllRounds(ids, true)| && Hosts(AllRounds(ids, true)[r], a, b)| == 1
  {
    var m, c, all := |ids| - 1, Cycle(ids), AllRounds(ids, true);
    var r0 := MeetingRoundOf(ids, a, b);
    CycleNoRepeat(ids, r0);
    OneWay(c[r0], a, b);
    var h := if Hosts(c[r0], a, b) then r0 else r0 + m;
    forall r | 0 <= r < 2 * m
      ensures Hosts(all[r], a, b) <==> r == h
    {
      DoubleHosts(ids, r, a, b);
      var k := if r < m then r else r - m;
      PlaysHosts(c[k], a, b);
      PlaysHosts(c[r0], a, b);
    }
    assert (set r | 0 <= r < |all| && Hosts(all[r], a, b)) == {h};
  }

  /** The working order of a duplicate-free roster without a team called
      `BYE` is duplicate-free and holds the roster plus, when odd, the bye. */
  lemma WorkingDistinct(teamIds: seq<TeamId>, shuffle: bool, draws: seq<nat>)
    requires shuffle ==> |teamIds| <= |draws| + 1
    requires Distinct(teamIds) && BYE !in teamIds
    ensures Distinct(Working(teamIds, shuffle, draws))
    ensures forall a :: a in Working(teamIds, shuffle, draws) <==>
      a in teamIds || (|teamIds| % 2 == 1 && a == BYE)
  {
    var s := if shuffle then Shuffle(teamIds, draws) else teamIds;
    var ids := Working(teamIds, shuffle, draws);
    assert multiset(s) == multiset(teamIds);
    assert Distinct(s);
    forall a
      ensures a in ids <==> a in teamIds || (|teamIds| % 2 == 1 && a == BYE)
    {
      assert a in ids <==> a in multiset(ids);
      assert a in teamIds <==> a in multiset(teamIds);
    }
    if |teamIds| % 2 == 1 {
      assert BYE !in multiset(s);
      assert ids == s + [BYE];
    }
  }

  /** A team that a round involves, in a round repeating no team, is in
      exactly one of its matchups. */
  lemma CoveredOnce(round: seq<Matchup>, a: TeamId)
    requires NoRepeat(round) && Covers(round, a)
    ensures |set k | 0 <= k < |round| && Involves(round[k], a)| == 1
  {
    var k0 :| 0 <= k0 < |round| && Involves(round[k0], a);
    assert forall k :: 0 <= k < |round| && Involves(round[k], a) ==> k == k0;
    assert (set k | 0 <= k < |round| && Involves(round[k], a)) == {k0};
  }

  /** With an odd roster every round of the cycle has exactly one bye matchup. */
  lemma ByeOncePerRound(teamIds: seq<TeamId>, shuffle: bool, draws: seq<nat>, r: nat)
    requires shuffle ==> |teamIds| <= |draws| + 1
    requires Distinct(teamIds) && BYE !in teamIds && |teamIds| % 2 == 1 && r < |teamIds|
    ensures var c := Cycle(Working(teamIds, shuffle, draws));
      r < |c| && |set k | 0 <= k < |c[r]| && c[r][k].HasBye()| == 1
  {
    var ids := Working(teamIds, shuffle, draws);
    WorkingDistinct(teamIds, shuffle, draws);
    CycleNoRepeat(ids, r);
    CycleCovers(ids, r);
    CoveredOnce(Cycle(ids)[r], BYE);
    var round := Cycle(ids)[r];
    assert (set k | 0 <= k < |round| && round[k].HasBye()) == (set k | 0 <= k < |round| && Involves(round[k], BYE));
  }

  /** With an odd roster every team sits out exactly one round per cycle. */
  lemma ByeOncePerCycle(teamIds: seq<TeamId>, shuffle: bool, draws: seq<nat>, a: TeamId)
    requires shuffle ==> |teamIds| <= |draws| + 1
    requires Distinct(teamIds) && BYE !in teamIds && |teamIds| % 2 == 1 && a in teamIds
    ensures var c := Cycle(Working(teamIds, shuffle, draws));
      |MeetingRounds(c, a, BYE)| == 1
  {
    WorkingDistinct(teamIds, shuffle, draws);
    PairOnce(Working(teamIds, shuffle, draws), a, BYE);
  }

  /** Week `w + 1` of a schedule within the first pass over the rounds
      carries round `w`. */
  lemma ScheduleWeek(teamIds: seq<TeamId>, weeks: int, double: bool, shuffle: bool, draws: seq<nat>, w: int)
    requires shuffle ==> |teamIds| <= |draws| + 1
    requires 0 <= w < weeks && w < |AllRounds(Working(teamIds, shuffle, draws), double)|
    ensures var res := GenerateRoundRobin(teamIds, weeks, double, shuffle, draws);
      res.Success? && |res.value| == weeks &&
      res.value[w].matchups == AllRounds(Working(teamIds, shuffle, draws), double)[w]
  {
  }

  /** The number of rounds in one cycle: one less than the roster size
      rounded up to even. */
  function CycleLength(teamIds: seq<TeamId>): int {
    |teamIds| + |teamIds| % 2 - 1
  }

  /** The first `n - 1` weeks of a schedule at least that long carry the
      rounds of the cycle in order, single or double. */
  lemma ScheduleFirstCycle(teamIds: seq<TeamId>, weeks: int, double: bool, shuffle: bool, draws: seq<nat>)
    requires shuffle ==> |teamIds| <= |draws| + 1
    requires |teamIds| >= 1 && weeks >= CycleLength(teamIds)
    ensures var res, c := GenerateRoundRobin(teamIds, weeks, double, shuffle, draws), Cycle(Working(teamIds, shuffle, draws));
      && res.Success? && |res.value| == weeks && |c| == CycleLength(teamIds)
      && forall w :: 0 <= w < |c| ==> res.value[w].matchups == c[w]
  {
    var ids := Working(teamIds, shuffle, draws);
    forall w | 0 <= w < |Cycle(ids)|
      ensures GenerateRoundRobin(teamIds, weeks, double, shuffle, draws).value[w].matchups == Cycle(ids)[w]
    {
      ScheduleWeek(teamIds, weeks, double, shuffle, draws, w);
      assert AllRounds(ids, double)[w] == Cycle(ids)[w];
    }
  }

  /** A single round-robin schedule at least one cycle long pairs every two
      distinct teams in exactly one of its first `n - 1` weeks, `n` being
      the roster size rounded up to even. */
  lemma ScheduleMeetsOnce(teamIds: seq<TeamId>, weeks: int, shuffle: bool, draws: seq<nat>, a: TeamId, b: TeamId)
    requires shuffle ==> |teamIds| <= |draws| + 1
    requires Distinct(teamIds) && BYE !in teamIds && a in teamIds && b in teamIds && a != b
    requires weeks >= CycleLength(teamIds)
    ensures var res := GenerateRoundRobin(teamIds, weeks, false, shuffle, draws);
      && res.Success? && |res.value| == weeks
      && |MeetingWeeks(res.value, CycleLength(teamIds), a, b)| == 1
  {
    var ids := Working(teamIds, shuffle, draws);
    var res := GenerateRoundRobin(teamIds, weeks, false, shuffle, draws);
    RosterMeetsOnce(teamIds, shuffle, draws, a, b);
    ScheduleFirstCycle(teamIds, weeks, false, shuffle, draws);
    SameMeetings(res.value, Cycle(ids), CycleLength(teamIds), a, b);
  }

  lemma RosterMeetsOnce(teamIds: seq<TeamId>, shuffle: bool, draws: seq<nat>, a: TeamId, b: TeamId)
    requires shuffle ==> |teamIds| <= |draws| + 1
    requires Distinct(teamIds) && BYE !in teamIds && a in teamIds && b in teamIds && a != b
    ensures var c := Cycle(Working(teamIds, shuffle, draws));
      |MeetingRounds(c, a, b)| == 1
  {
    WorkingDistinct(teamIds, shuffle, draws);
    PairOnce(Working(teamIds, shuffle, draws), a, b);
  }

  /** The indices of the first `n` weeks in which `a` and `b` meet. */
  function MeetingWeeks(weeks: seq<Week>, n: int, a: TeamId, b: TeamId): set<int> {
    set w | 0 <= w < n && w < |weeks| && Plays(weeks[w].matchups, a, b)
  }

  /** Weeks that carry the given rounds have their meetings in the same
      places, so two teams that meet in exactly one of the rounds meet in
      exactly one of those weeks. */
  lemma SameMeetings(weeks: seq<Week>, rounds: seq<seq<Matchup>>, n: int, a: TeamId, b: TeamId)
    requires n == |rounds| <= |weeks| && forall w :: 0 <= w < |rounds| ==> weeks[w].matchups == rounds[w]
    requires |MeetingRounds(rounds, a, b)| == 1
    ensures |MeetingWeeks(weeks, n, a, b)| == 1
  {
    assert MeetingWeeks(weeks, n, a, b) == MeetingRounds(rounds, a, b);
  }
}
