/** Why the circle method works: from the closed form of the rotations,
    every two entries of the working order meet in exactly one round of a
    cycle and no entry plays twice in a round. Throughout, `m = n - 1`
    where `n` is the (even) working length. */
module CircleMethod {
  import opened LeagueTypes
  import opened Utils
  import opened Scheduler
  import opened Rotation

  /** Round `r` of the cycle is built from the order after `r` rotations. */
  lemma CycleRound(ids: seq<TeamId>, r: nat)
    requires |ids| % 2 == 0 && |ids| >= 2 && r < |ids| - 1
    ensures Cycle(ids)[r] == RoundOf(Rotated(ids, r), r % 2 == 1)
  {
  }

  /** The matchup pairs `a` with `b`, in either orientation. */
  predicate Meets(mu: Matchup, a: TeamId, b: TeamId) {
    (mu.homeId == a && mu.awayId == b) || (mu.homeId == b && mu.awayId == a)
  }

  /** Some matchup of the round pairs `a` with `b`. */
  predicate Plays(round: seq<Matchup>, a: TeamId, b: TeamId) {
    exists k :: 0 <= k < |round| && Meets(round[k], a, b)
  }

  predicate Involves(mu: Matchup, a: TeamId) {
    mu.homeId == a || mu.awayId == a
  }

  lemma RoundOfEntry(arr: seq<TeamId>, flip: bool, k: int)
    requires |arr| % 2 == 0 && 0 <= k < |arr| / 2
    ensures !flip ==> RoundOf(arr, flip)[k].homeId == arr[k] && RoundOf(arr, flip)[k].awayId == arr[|arr| - 1 - k]
    ensures flip ==> RoundOf(arr, flip)[k].homeId == arr[|arr| - 1 - k] && RoundOf(arr, flip)[k].awayId == arr[k]
  {
  }

  /** Matchup `k` of a round pairs the entries at positions `k` and `n-1-k`. */
  lemma RoundPairs(arr: seq<TeamId>, flip: bool, k: int)
    requires |arr| % 2 == 0 && 0 <= k < |arr| / 2
    ensures Meets(RoundOf(arr, flip)[k], arr[k], arr[|arr| - 1 - k])
  {
    RoundOfEntry(arr, flip, k);
  }

  /** A rotated order of a duplicate-free order is duplicate-free. */
  lemma RotatedDistinct(ids: seq<TeamId>, r: int)
    requires |ids| >= 2 && 0 <= r <= |ids| - 1 && Distinct(ids)
    ensures Distinct(Rotated(ids, r))
  {
    var arr := Rotated(ids, r);
    forall p, q | 0 <= p < q < |arr|
      ensures arr[p] != arr[q]
    {
      SrcPos(p, r, |ids| - 1);
      SrcPos(q, r, |ids| - 1);
    }
  }

  /** Positions `k` and `n - 1 - k` of `arr` hold `a` and `b`, in some order. */
  predicate PairedAt(arr: seq<TeamId>, k: int, a: TeamId, b: TeamId)
    requires 0 <= k < |arr|
  {
    (arr[k] == a && arr[|arr| - 1 - k] == b) || (arr[k] == b && arr[|arr| - 1 - k] == a)
  }

  /** Some matchup slot of a round over `arr` pairs `a` with `b`. */
  predicate Paired(arr: seq<TeamId>, a: TeamId, b: TeamId) {
    exists k :: 0 <= k < |arr| / 2 && PairedAt(arr, k, a, b)
  }

  /** A round pairs two teams exactly when their positions in the working
      order are mirror images, whichever way the round is flipped. */
  lemma PlaysPaired(arr: seq<TeamId>, flip: bool, a: TeamId, b: TeamId)
    requires |arr| % 2 == 0
    ensures Plays(RoundOf(arr, flip), a, b) <==> Paired(arr, a, b)
  {
    var round := RoundOf(arr, flip);
    if Plays(round, a, b) {
      var k :| 0 <= k < |round| && Meets(round[k], a, b);
      RoundPairs(arr, flip, k);
      assert PairedAt(arr, k, a, b);
    }
    if Paired(arr, a, b) {
      var k :| 0 <= k < |arr| / 2 && PairedAt(arr, k, a, b);
      RoundPairs(arr, flip, k);
      assert Meets(round[k], a, b);
    }
  }

  /** If slot `k` of the rotated order pairs original entries `x` and `y`,
      their rotated positions are `k` and `n - 1 - k`. */
  lemma PairedRotatedSum(ids: seq<TeamId>, r: int, x: int, y: int, k: int)
    requires |ids| % 2 == 0 && |ids| >= 2 && Distinct(ids) && 0 <= r < |ids| - 1
    requires 0 <= x < |ids| && 0 <= y < |ids| && 0 <= k < |ids| / 2
    requires PairedAt(Rotated(ids, r), k, ids[x], ids[y])
    ensures Pos(x, r, |ids| - 1) + Pos(y, r, |ids| - 1) == |ids| - 1
  {
    var m := |ids| - 1;
    var s1, s2 := Src(k, r, m), Src(m - k, r, m);
    SrcPos(k, r, m);
    SrcPos(m - k, r, m);
    assert Rotated(ids, r)[k] == ids[s1] && Rotated(ids, r)[m - k] == ids[s2];
    assert (s1 == x && s2 == y) || (s1 == y && s2 == x);
  }

  /** Entries `x` and `y` of the working order meet in the round built from
      the order after `r` rotations exactly when their rotated positions are
      mirror images, `p + q == n - 1`. */
  lemma PlaysIff(ids: seq<TeamId>, r: int, flip: bool, x: int, y: int)
    requires |ids| % 2 == 0 && |ids| >= 2 && Distinct(ids) && 0 <= r < |ids| - 1
    requires 0 <= x < |ids| && 0 <= y < |ids| && x != y
    ensures Plays(RoundOf(Rotated(ids, r), flip), ids[x], ids[y]) <==>
      Pos(x, r, |ids| - 1) + Pos(y, r, |ids| - 1) == |ids| - 1
  {
    var m := |ids| - 1;
    var arr := Rotated(ids, r);
    PlaysPaired(arr, flip, ids[x], ids[y]);
    if Paired(arr, ids[x], ids[y]) {
      var k :| 0 <= k < |arr| / 2 && PairedAt(arr, k, ids[x], ids[y]);
      PairedRotatedSum(ids, r, x, y, k);
    }
    PosSrc(x, r, m);
    PosSrc(y, r, m);
    var p, q := Pos(x, r, m), Pos(y, r, m);
    if p + q == m {
      var k := if p < q then p else q;
      assert arr[p] == ids[x] && arr[q] == ids[y];
      assert PairedAt(arr, k, ids[x], ids[y]);
    }
  }

  /** The one round of a cycle in which original entries `x` and `y` meet. */
  function MeetingRound(x: int, y: int, m: int): int {
    if x == 0 then m - y
    else if y == 0 then m - x
    else if (x + y) % 2 == 0 then m - (x + y) / 2
    else if x + y <= m then (m - x - y) / 2
    else (3 * m - x - y) / 2
  }

  // The meeting equation Pos(x, r, m) + Pos(y, r, m) == m, one case of
  // MeetingRound at a time; `m` is odd throughout, written m == 2 * q + 1.

  lemma MeetFixed(y: int, m: int, r: int)
    requires 0 < y <= m && 0 <= r < m
    ensures Pos(0, r, m) + Pos(y, r, m) == m <==> r == m - y
  {
  }

  lemma MeetEven(x: int, y: int, q: int, h: int, r: int)
    requires 0 < x <= 2 * q + 1 && 0 < y <= 2 * q + 1 && x != y && x + y == 2 * h && 0 <= r < 2 * q + 1
    ensures Pos(x, r, 2 * q + 1) + Pos(y, r, 2 * q + 1) == 2 * q + 1 <==> r == 2 * q + 1 - h
  {
  }

  lemma MeetOdd(x: int, y: int, q: int, h: int, r: int)
    requires 0 < x <= 2 * q + 1 && 0 < y <= 2 * q + 1 && x + y == 2 * h + 1 && 0 <= r < 2 * q + 1
    ensures x + y <= 2 * q + 1 ==>
      (Pos(x, r, 2 * q + 1) + Pos(y, r, 2 * q + 1) == 2 * q + 1 <==> r == q - h)
    ensures x + y > 2 * q + 1 ==>
      (Pos(x, r, 2 * q + 1) + Pos(y, r, 2 * q + 1) == 2 * q + 1 <==> r == 3 * q + 1 - h)
  {
  }

  /** Because `m` is odd, exactly one round index solves the meeting equation. */
  lemma MeetingRoundCorrect(x: int, y: int, m: int, r: int)
    requires (m + 1) % 2 == 0 && 0 <= x <= m && 0 <= y <= m && x != y && 0 <= r < m
    ensures 0 <= MeetingRound(x, y, m) < m
    ensures Pos(x, r, m) + Pos(y, r, m) == m <==> r == MeetingRound(x, y, m)
  {
    var q := m / 2;
    assert m == 2 * q + 1;
    if x == 0 {
      MeetFixed(y, m, r);
    } else if y == 0 {
      MeetFixed(x, m, r);
    } else {
      var s, h := x + y, (x + y) / 2;
      if s % 2 == 0 {
        assert s == 2 * h;
        assert MeetingRound(x, y, m) == m - h;
        MeetEven(x, y, q, h, r);
      } else {
        assert s == 2 * h + 1;
        MeetOdd(x, y, q, h, r);
        if s <= m {
          assert MeetingRound(x, y, m) == (m - s) / 2 == q - h;
        } else {
          assert MeetingRound(x, y, m) == (3 * m - s) / 2 == 3 * q + 1 - h;
        }
      }
    }
  }

  /** Round `r` of the cycle pairs entries `x` and `y` exactly when their
      positions after `r` rotations are mirror images. */
  lemma CyclePlaysIff(ids: seq<TeamId>, r: nat, x: int, y: int)
    requires |ids| % 2 == 0 && |ids| >= 2 && Distinct(ids) && r < |ids| - 1
    requires 0 <= x < |ids| && 0 <= y < |ids| && x != y
    ensures Plays(Cycle(ids)[r], ids[x], ids[y]) <==>
      Pos(x, r, |ids| - 1) + Pos(y, r, |ids| - 1) == |ids| - 1
  {
    CycleRound(ids, r);
    PlaysIff(ids, r, r % 2 == 1, x, y);
  }

  /** The meeting round of entries `x` and `y`, with the equation it alone
      solves among the rounds of a cycle. */
  lemma MeetingAt(x: int, y: int, m: int) returns (r0: int)
    requires (m + 1) % 2 == 0 && 0 <= x <= m && 0 <= y <= m && x != y
    ensures r0 == MeetingRound(x, y, m) && 0 <= r0 < m
    ensures forall r :: 0 <= r < m ==> (Pos(x, r, m) + Pos(y, r, m) == m <==> r == r0)
  {
    r0 := MeetingRound(x, y, m);
    MeetingRoundCorrect(x, y, m, 0);
    forall r | 0 <= r < m
      ensures Pos(x, r, m) + Pos(y, r, m) == m <==> r == r0
    {
      MeetingRoundCorrect(x, y, m, r);
    }
  }

  lemma MeetsAtRound(ids: seq<TeamId>, r: nat, x: int, y: int, r0: int)
    requires |ids| % 2 == 0 && |ids| >= 2 && Distinct(ids) && r < |ids| - 1
    requires 0 <= x < |ids| && 0 <= y < |ids| && x != y
    requires Pos(x, r, |ids| - 1) + Pos(y, r, |ids| - 1) == |ids| - 1 <==> r == r0
    ensures Plays(Cycle(ids)[r], ids[x], ids[y]) <==> r == r0
  {
    CyclePlaysIff(ids, r, x, y);
  }

  /** Original entries `x` and `y` meet in round `MeetingRound(x, y, n - 1)`
      of the cycle and in no other. */
  lemma MeetsExactlyAt(ids: seq<TeamId>, x: int, y: int) returns (r0: int)
    requires |ids| % 2 == 0 && |ids| >= 2 && Distinct(ids)
    requires 0 <= x < |ids| && 0 <= y < |ids| && x != y
    ensures r0 == MeetingRound(x, y, |ids| - 1) && 0 <= r0 < |ids| - 1
    ensures forall r :: 0 <= r < |ids| - 1 ==> (Plays(Cycle(ids)[r], ids[x], ids[y]) <==> r == r0)
  {
    var m := |ids| - 1;
    assert (m + 1) % 2 == 0;
    r0 := MeetingAt(x, y, m);
    forall r | 0 <= r < m
      ensures Plays(Cycle(ids)[r], ids[x], ids[y]) <==> r == r0
    {
      MeetsAtRound(ids, r, x, y, r0);
    }
  }

  /** The indices of the rounds in which `a` and `b` meet. */
  function MeetingRounds(rounds: seq<seq<Matchup>>, a: TeamId, b: TeamId): set<int> {
    set r | 0 <= r < |rounds| && Plays(rounds[r], a, b)
  }

  /** Circle-method theorem: over the `n - 1` rounds of one cycle, every two
      distinct entries of a duplicate-free working order meet exactly once. */
  lemma PairOnce(ids: seq<TeamId>, a: TeamId, b: TeamId)
    requires |ids| % 2 == 0 && Distinct(ids) && a in ids && b in ids && a != b
    ensures |MeetingRounds(Cycle(ids), a, b)| == 1
  {
    var x :| 0 <= x < |ids| && ids[x] == a;
    var y :| 0 <= y < |ids| && ids[y] == b;
    var r0 := MeetsExactlyAt(ids, x, y);
    assert MeetingRounds(Cycle(ids), a, b) == {r0};
  }

  /** No team is paired with itself, and no team appears in two matchups. */
  predicate NoRepeat(round: seq<Matchup>) {
    && (forall k :: 0 <= k < |round| ==> round[k].homeId != round[k].awayId)
    && (forall k, l :: 0 <= k < l < |round| ==>
          !Involves(round[l], round[k].homeId) && !Involves(round[l], round[k].awayId))
  }

  /** Some matchup of the round involves `a`. */
  predicate Covers(round: seq<Matchup>, a: TeamId) {
    exists k :: 0 <= k < |round| && Involves(round[k], a)
  }

  lemma RoundOfNoRepeat(arr: seq<TeamId>, flip: bool)
    requires |arr| % 2 == 0 && Distinct(arr)
    ensures NoRepeat(RoundOf(arr, flip))
  {
    var round := RoundOf(arr, flip);
    forall k | 0 <= k < |round|
      ensures round[k].homeId != round[k].awayId
    {
      RoundOfEntry(arr, flip, k);
    }
    forall k, l | 0 <= k < l < |round|
      ensures !Involves(round[l], round[k].homeId) && !Involves(round[l], round[k].awayId)
    {
      RoundOfEntry(arr, flip, k);
      RoundOfEntry(arr, flip, l);
    }
  }

  lemma RoundOfCovers(arr: seq<TeamId>, flip: bool, p: int)
    requires |arr| % 2 == 0 && 0 <= p < |arr|
    ensures Covers(RoundOf(arr, flip), arr[p])
  {
    var k := if p < |arr| / 2 then p else |arr| - 1 - p;
    RoundOfEntry(arr, flip, k);
    assert Involves(RoundOf(arr, flip)[k], arr[p]);
  }

  /** Every round of a cycle over a duplicate-free order repeats no team. */
  lemma CycleNoRepeat(ids: seq<TeamId>, r: nat)
    requires |ids| % 2 == 0 && |ids| >= 2 && Distinct(ids) && r < |ids| - 1
    ensures NoRepeat(Cycle(ids)[r])
  {
    CycleRound(ids, r);
    RotatedDistinct(ids, r);
    RoundOfNoRepeat(Rotated(ids, r), r % 2 == 1);
  }

  /** Every round of a cycle draws its teams from the working order. */
  lemma CycleWithin(ids: seq<TeamId>, r: nat)
    requires |ids| % 2 == 0 && |ids| >= 2 && r < |ids| - 1
    ensures forall k :: 0 <= k < |Cycle(ids)[r]| ==> Cycle(ids)[r][k].homeId in ids && Cycle(ids)[r][k].awayId in ids
  {
    var m, arr, flip := |ids| - 1, Rotated(ids, r), r % 2 == 1;
    CycleRound(ids, r);
    forall k | 0 <= k < |ids| / 2
      ensures RoundOf(arr, flip)[k].homeId in ids && RoundOf(arr, flip)[k].awayId in ids
    {
      RoundOfEntry(arr, flip, k);
      SrcPos(k, r, m);
      SrcPos(m - k, r, m);
    }
  }

  /** Every round of a cycle involves every team of the working order. */
  lemma CycleCovers(ids: seq<TeamId>, r: nat)
    requires |ids| % 2 == 0 && |ids| >= 2 && r < |ids| - 1
    ensures forall a :: a in ids ==> Covers(Cycle(ids)[r], a)
  {
    var m, arr, flip := |ids| - 1, Rotated(ids, r), r % 2 == 1;
    CycleRound(ids, r);
    forall a | a in ids
      ensures Covers(RoundOf(arr, flip), a)
    {
      var x :| 0 <= x < |ids| && ids[x] == a;
      var p := Pos(x, r, m);
      PosSrc(x, r, m);
      assert arr[p] == a;
      RoundOfCovers(arr, flip, p);
    }
  }

  /** Matchup `k` of round `r` pairs positions `k` and `n - 1 - k` of the
      order after `r` rotations, home first in even rounds and flipped in
      odd ones. */
  lemma CycleEntry(ids: seq<TeamId>, r: nat, k: int)
    requires |ids| % 2 == 0 && |ids| >= 2 && r < |ids| - 1 && 0 <= k < |ids| / 2
    ensures |Cycle(ids)[r]| == |ids| / 2 && var mu, arr := Cycle(ids)[r][k], Rotated(ids, r);
      && (r % 2 == 0 ==> mu.homeId == arr[k] && mu.awayId == arr[|ids| - 1 - k])
      && (r % 2 == 1 ==> mu.homeId == arr[|ids| - 1 - k] && mu.awayId == arr[k])
  {
    var arr := Rotated(ids, r);
    CycleRound(ids, r);
    RoundOfEntry(arr, r % 2 == 1, k);
  }
}
