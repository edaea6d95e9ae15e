/** `rotateRR` and the closed form of repeated rotation: position 0 stays
    put and positions `1..m` turn, `m = n - 1`, so after `r` rotations the
    entry at position `p` is the one that started at `Src(p, r, m)`. */
module Rotation {
  import opened LeagueTypes

  /** `rotateRR`: index 0 stays, the rest turns right by one (the last
      entry is popped and put back in front of the rest). The result is a
      rearrangement of the input with the same first entry. */
  function RotateRR(arr: seq<TeamId>): (r: seq<TeamId>)
    requires |arr| >= 2
    ensures |r| == |arr| && r[0] == arr[0]
    ensures multiset(r) == multiset(arr)
  {
    assert arr == [arr[0]] + arr[1..|arr| - 1] + [arr[|arr| - 1]];
    [arr[0]] + [arr[|arr| - 1]] + arr[1..|arr| - 1]
  }

  /** Where each entry goes: the old last entry becomes the second and
      every other turning entry moves one place right. */
  lemma RotateRRShape(arr: seq<TeamId>)
    requires |arr| >= 2
    ensures var r := RotateRR(arr);
      r[1] == arr[|arr| - 1] && forall p :: 2 <= p < |arr| ==> r[p] == arr[p - 1]
  {
  }

  /** The original index of the entry found at position `p` after `r`
      rotations: position 0 is fixed, positions `1..m` turn by `r` steps. */
  function Src(p: int, r: int, m: int): int {
    if p == 0 then 0 else if p - 1 >= r then p - r else p - r + m
  }

  /** The position of original index `x` after `r` rotations. */
  function Pos(x: int, r: int, m: int): int {
    if x == 0 then 0 else if x + r <= m then x + r else x + r - m
  }

  lemma PosSrc(x: int, r: int, m: int)
    requires 0 <= x <= m && 0 <= r <= m
    ensures 0 <= Pos(x, r, m) <= m && Src(Pos(x, r, m), r, m) == x
  {
  }

  lemma SrcPos(p: int, r: int, m: int)
    requires 0 <= p <= m && 0 <= r <= m
    ensures 0 <= Src(p, r, m) <= m && Pos(Src(p, r, m), r, m) == p
  {
  }

  /** The working order after `r` rotations, in closed form. */
  function Rotated(ids: seq<TeamId>, r: int): (a: seq<TeamId>)
    requires |ids| >= 2 && 0 <= r <= |ids| - 1
    ensures |a| == |ids|
  {
    seq(|ids|, p requires 0 <= p < |ids| => ids[Src(p, r, |ids| - 1)])
  }

  lemma RotatedZero(ids: seq<TeamId>)
    requires |ids| >= 2
    ensures Rotated(ids, 0) == ids
  {
    assert forall p :: 0 <= p < |ids| ==> Rotated(ids, 0)[p] == ids[p];
  }

  /** One more `rotateRR` advances the closed form by one round. */
  lemma RotateRRStep(ids: seq<TeamId>, r: int)
    requires |ids| >= 2 && 0 <= r < |ids| - 1
    ensures RotateRR(Rotated(ids, r)) == Rotated(ids, r + 1)
  {
    var prev, cur, m := Rotated(ids, r), RotateRR(Rotated(ids, r)), |ids| - 1;
    RotateRRShape(prev);
    forall p | 0 <= p < |ids|
      ensures cur[p] == Rotated(ids, r + 1)[p]
    {
      if p == 1 {
        assert cur[1] == prev[m];
        assert Src(m, r, m) == Src(1, r + 1, m);
      } else if p > 1 {
        assert cur[p] == prev[p - 1];
        assert Src(p - 1, r, m) == Src(p, r + 1, m);
      }
    }
  }

  /** `n - 1` rotations bring the working order back to where it started. */
  lemma RotationPeriod(ids: seq<TeamId>)
    requires |ids| >= 2
    ensures RotateRR(Rotated(ids, |ids| - 2)) == ids
  {
    RotateRRStep(ids, |ids| - 2);
    assert forall p :: 0 <= p < |ids| ==> Rotated(ids, |ids| - 1)[p] == ids[p];
  }
}
