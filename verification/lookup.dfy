/** `teamById` and `resolveTeamInput`: finding a team by id, and turning
    what a user typed into a team id. */
module Lookup {
  import opened Wrappers
  import opened LeagueTypes
  import opened Strings

  /** `teams.find(p)`, as the index of the first team satisfying `p`. */
  function Find(teams: seq<Team>, p: Team -> bool): (r: Option<nat>)
    ensures r.Some? ==> r.value < |teams| && p(teams[r.value])
    ensures r.Some? ==> forall j :: 0 <= j < r.value ==> !p(teams[j])
    ensures r.None? ==> forall j :: 0 <= j < |teams| ==> !p(teams[j])
  {
    if |teams| == 0 then None
    else if p(teams[0]) then Some(0)
    else
      match Find(teams[1..], p)
      case None => None
      case Some(i) => Some(i + 1)
  }

  /** `teamById`: the first team with id `id`, or `None` (`null`). */
  function TeamById(league: League, id: TeamId): (r: Option<Team>)
    ensures r.None? <==> forall j :: 0 <= j < |league.teams| ==> league.teams[j].id != id
    ensures r.Some? ==> (exists i :: 0 <= i < |league.teams| && league.teams[i] == r.value &&
                              r.value.id == id && forall j :: 0 <= j < i ==> league.teams[j].id != id)
  {
    match Find(league.teams, (x: Team) => x.id == id)
    case None => None
    case Some(i) => Some(league.teams[i])
  }

  /** The three team matches `resolveTeamInput` tries, in its order: the
      whole name, the abbreviation, a part of the name; all ignore case. */
  predicate NameIs(x: Team, raw: string) {
    Lower(x.name) == Lower(raw)
  }

  predicate AbbrevIs(x: Team, raw: string) {
    Lower(x.abbrev) == Lower(raw)
  }

  predicate NameHas(x: Team, raw: string) {
    Contains(Lower(x.name), Lower(raw))
  }

  /** The id of the team the matches find for `raw`, trying them in order:
      the first team whose whole name matches; failing that, the first
      whose abbreviation matches; failing that, the first whose name
      contains `raw`. */
  function Match(teams: seq<Team>, raw: string): (r: Option<TeamId>)
    ensures (exists i :: 0 <= i < |teams| && NameIs(teams[i], raw)) ==>
      exists i :: 0 <= i < |teams| && NameIs(teams[i], raw) && r == Some(teams[i].id) &&
        forall j :: 0 <= j < i ==> !NameIs(teams[j], raw)
    ensures (forall j :: 0 <= j < |teams| ==> !NameIs(teams[j], raw)) &&
            (exists i :: 0 <= i < |teams| && AbbrevIs(teams[i], raw)) ==>
      exists i :: 0 <= i < |teams| && AbbrevIs(teams[i], raw) && r == Some(teams[i].id) &&
        forall j :: 0 <= j < i ==> !AbbrevIs(teams[j], raw)
    ensures (forall j :: 0 <= j < |teams| ==> !NameIs(teams[j], raw) && !AbbrevIs(teams[j], raw)) &&
            (exists i :: 0 <= i < |teams| && NameHas(teams[i], raw)) ==>
      exists i :: 0 <= i < |teams| && NameHas(teams[i], raw) && r == Some(teams[i].id) &&
        forall j :: 0 <= j < i ==> !NameHas(teams[j], raw)
    ensures r.None? <==> forall j :: 0 <= j < |teams| ==>
      !NameIs(teams[j], raw) && !AbbrevIs(teams[j], raw) && !NameHas(teams[j], raw)
  {
    match Find(teams, (x: Team) => NameIs(x, raw))
    case Some(i) => Some(teams[i].id)
    case None =>
      match Find(teams, (x: Team) => AbbrevIs(x, raw))
      case Some(i) => Some(teams[i].id)
      case None =>
        match Find(teams, (x: Team) => NameHas(x, raw))
        case Some(i) => Some(teams[i].id)
        case None => None
  }

  /** `resolveTeamInput`. `validIds` is `None` when the caller passes
      something that is not an array. The input is trimmed; nothing left
      gives `None`; "bye" in any case gives the bye; then a team match;
      then the trimmed text itself when it is one of `validIds`. */
  function ResolveTeamInput(league: League, input: string, validIds: Option<seq<TeamId>>): (r: Option<TeamId>)
    ensures Trim(input) == [] ==> r == None
    ensures Trim(input) != [] && Upper(Trim(input)) == BYE ==> r == Some(BYE)
    ensures r.Some? ==> (r.value == BYE || (exists i :: 0 <= i < |league.teams| && league.teams[i].id == r.value) ||
      (validIds.Some? && r.value == Trim(input) && r.value in validIds.value))
    ensures Trim(input) != [] && Upper(Trim(input)) != BYE && Match(league.teams, Trim(input)).Some? ==>
      r == Match(league.teams, Trim(input))
    ensures (Trim(input) != [] && Upper(Trim(input)) != BYE && Match(league.teams, Trim(input)).None? &&
             validIds.Some? && Trim(input) in validIds.value) ==> r == Some(Trim(input))
    ensures r.None? <==> (Trim(input) == [] ||
      (Upper(Trim(input)) != BYE && Match(league.teams, Trim(input)).None? &&
       !(validIds.Some? && Trim(input) in validIds.value)))
  {
    var raw := Trim(input);
    if raw == [] then None
    else if Upper(raw) == BYE then Some(BYE)
    else
      match Match(league.teams, raw)
      case Some(id) => Some(id)
      case None => if validIds.Some? && raw in validIds.value then Some(raw) else None
  }

  /** A team's own name, in any letter case and with surrounding white
      space, resolves to that team, provided no earlier team has the same
      name and the name is not "bye". */
  lemma ResolveOwnName(league: League, i: nat, input: string, validIds: Option<seq<TeamId>>)
    requires i < |league.teams| && Trim(input) != [] && Upper(Trim(input)) != BYE
    requires NameIs(league.teams[i], Trim(input))
    requires forall j :: 0 <= j < i ==> !NameIs(league.teams[j], Trim(input))
    ensures ResolveTeamInput(league, input, validIds) == Some(league.teams[i].id)
  {
    var raw := Trim(input);
    var f := Find(league.teams, (x: Team) => NameIs(x, raw));
    assert f == Some(i);
  }

  /** A team's abbreviation resolves to that team when no team's name is
      the same text and no earlier team has the same abbreviation. */
  lemma ResolveOwnAbbrev(league: League, i: nat, input: string, validIds: Option<seq<TeamId>>)
    requires i < |league.teams| && Trim(input) != [] && Upper(Trim(input)) != BYE
    requires AbbrevIs(league.teams[i], Trim(input))
    requires forall j :: 0 <= j < |league.teams| ==> !NameIs(league.teams[j], Trim(input))
    requires forall j :: 0 <= j < i ==> !AbbrevIs(league.teams[j], Trim(input))
    ensures ResolveTeamInput(league, input, validIds) == Some(league.teams[i].id)
  {
    var raw := Trim(input);
    assert Match(league.teams, raw) == Some(league.teams[i].id) by {
      var byName := Find(league.teams, (x: Team) => NameIs(x, raw));
      assert byName.None?;
      var f := Find(league.teams, (x: Team) => AbbrevIs(x, raw));
      assert f == Some(i);
    }
  }

  /** Part of a team's name resolves to that team when no team's name or
      abbreviation is the same text and no earlier team's name contains it;
      a matching id in `validIds` does not take precedence. */
  lemma ResolvePartName(league: League, i: nat, input: string, validIds: Option<seq<TeamId>>)
    requires i < |league.teams| && Trim(input) != [] && Upper(Trim(input)) != BYE
    requires NameHas(league.teams[i], Trim(input))
    requires forall j :: 0 <= j < |league.teams| ==>
      !NameIs(league.teams[j], Trim(input)) && !AbbrevIs(league.teams[j], Trim(input))
    requires forall j :: 0 <= j < i ==> !NameHas(league.teams[j], Trim(input))
    ensures ResolveTeamInput(league, input, validIds) == Some(league.teams[i].id)
  {
    var raw := Trim(input);
    assert Match(league.teams, raw) == Some(league.teams[i].id) by {
      var byName := Find(league.teams, (x: Team) => NameIs(x, raw));
      assert byName.None?;
      var byAbbrev := Find(league.teams, (x: Team) => AbbrevIs(x, raw));
      assert byAbbrev.None?;
      var f := Find(league.teams, (x: Team) => NameHas(x, raw));
      assert f == Some(i);
    }
  }
}
