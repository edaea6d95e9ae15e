# Fantasy league core, modelled in Dafny

This project models the pure league logic of a small browser app that runs a
fantasy-football league. The covered logic:

- the circle-method round-robin scheduler (`rotateRR`, `generateRoundRobin`);
- the standings engine (`computeStandings` with its fold and its layered
  comparator, `h2h`, `collapseStreak`, `countCompletedMatchups`);
- team lookup (`teamById`, `resolveTeamInput`);
- the helpers `esc`, `clamp` and `shuffleArray`.

Everything is stated over immutable datatypes and sequences. The scheduler
is modelled twice:

- `Scheduler.Cycle` is the closed form used in the proofs: round `r` is built
  from the order after `r` rotations.
- `Scheduler.BuildCycle` is the source's loop, which rotates the working
  order after every round, and it is proved to produce exactly `Cycle`.

Modules:

| file | module | what it holds |
|---|---|---|
| wrappers.dfy | Wrappers | `Option` and `Result` |
| strings.dfy | Strings | ASCII case mapping, `trim`, `includes`, code-point string order, decimal numerals |
| utils.dfy | Utils | `esc`, `clamp`, Fisher–Yates shuffle with injected draws, `Distinct` |
| league_types.dfy | LeagueTypes | teams, matchups, weeks, the league and its tiebreaker |
| rotation.dfy | Rotation | `rotateRR` and the closed form of `r` rotations |
| scheduler.dfy | Scheduler | `generateRoundRobin` and its round loop |
| circle_method.dfy | CircleMethod | why the circle method works: each pair once per cycle, no team twice per round |
| round_robin.dfy | RoundRobin | the schedule-level theorems: fresh matchups, the double round-robin, byes, week placement |
| standings.dfy | Standings | the aggregation fold, `h2h`, `collapseStreak`, `countCompletedMatchups` |
| standings_totals.dfy | StandingsTotals | league-wide conservation of wins/losses and points |
| lookup.dfy | Lookup | `teamById`, `resolveTeamInput` |
| ranking.dfy | Ranking | the standings rows, the comparator, the sort |

## Model

| member | source | states |
|---|---|---|
| Rotation.RotateRR | assets/js/state.js:125-130 | `rotateRR` keeps the length and entry 0 and returns a permutation of its input |
| Rotation.RotateRRShape | assets/js/state.js:125-130 | `rotateRR` puts the old last entry at index 1 and shifts every other turning entry one place right |
| Rotation.RotateRRStep | assets/js/state.js:105 | one more `rotateRR` of the order after `r` rotations gives the closed form for `r + 1` rotations |
| Rotation.RotationPeriod | assets/js/state.js:125-130 | `n - 1` rotations bring an order of length `n` back to itself |
| Rotation.PosSrc | assets/js/state.js:125-130 | following an entry forward through `r` rotations and then back recovers its original index |
| Rotation.SrcPos | assets/js/state.js:125-130 | tracing a position back through `r` rotations and then forward recovers the position |
| Rotation.RotatedZero | assets/js/state.js:91 | zero rotations leave the working order unchanged |
| Scheduler.Fresh | assets/js/state.js:95-101 | a new matchup has the given sides, no scores, and is completed exactly when one side is the bye |
| Scheduler.Pad | assets/js/state.js:89 | the padded order has even length: an odd roster gets one bye appended, an even one is unchanged |
| Scheduler.RoundOf | assets/js/state.js:93-103 | a round over an order of length `n` has `n / 2` matchups |
| Scheduler.Mirror | assets/js/state.js:108-114 | the mirrored round swaps home and away on every matchup and resets scores and completion |
| Scheduler.AllRounds | assets/js/state.js:107-116 | the round list has `n - 1` rounds, or `2(n - 1)` with `double` |
| Scheduler.Working | assets/js/state.js:87-89 | the working order is the (shuffled) roster plus one bye when odd: even length, same multiset |
| Scheduler.Cycle | assets/js/state.js:92-106 | the cycle of an even order of `n > 0` entries has `n - 1` rounds, and none for an empty order; what each round holds is stated by `CircleMethod.CycleEntry` |
| Scheduler.BuildCycle | assets/js/state.js:90-106 | the loop, which builds a round and then rotates the order, produces exactly the closed-form cycle |
| Scheduler.GenerateRoundRobin | assets/js/state.js:86-123 | fails exactly when the roster is empty and weeks are asked for; otherwise gives `max(weeks, 0)` weeks numbered from 1, week `w + 1` holding round `w` modulo the number of rounds |
| Scheduler.Season | assets/js/state.js:117-121 | the week list has exactly `weeks` entries, numbered from 1, week `w + 1` playing round `w` modulo the number of rounds |
| CircleMethod.CycleRound | assets/js/state.js:92-106 | round `r` of the cycle is the round built from the order after `r` rotations, flipped when `r` is odd |
| CircleMethod.RoundOfEntry | assets/js/state.js:94-101 | matchup `i` pairs positions `i` and `n - 1 - i`, home first unless the round is flipped |
| CircleMethod.RoundPairs | assets/js/state.js:94 | matchup `i` meets the entries at positions `i` and `n - 1 - i`, whichever way it is flipped |
| CircleMethod.RotatedDistinct | assets/js/state.js:125-130 | rotating a duplicate-free order keeps it duplicate-free |
| CircleMethod.PlaysPaired | assets/js/state.js:93-103 | a round pairs two teams exactly when their positions in the order are mirror images |
| CircleMethod.PairedRotatedSum | assets/js/state.js:94 | teams paired in round `r` sit at positions after `r` rotations that add up to `n - 1` |
| CircleMethod.PlaysIff | assets/js/state.js:93-103 | in a round over the order after `r` rotations, entries `x` and `y` meet exactly when their rotated positions add up to `n - 1` |
| CircleMethod.MeetFixed | assets/js/state.js:125-130 | the fixed entry 0 meets entry `y` in exactly one round, `m - y` |
| CircleMethod.MeetEven | assets/js/state.js:125-130 | two turning entries whose indices have an even sum meet in exactly one round |
| CircleMethod.MeetOdd | assets/js/state.js:125-130 | two turning entries whose indices have an odd sum meet in exactly one round, in one of two closed forms |
| CircleMethod.MeetingRoundCorrect | assets/js/state.js:92-106 | for every two distinct indices, the meeting equation holds in exactly one round, `MeetingRound`, which lies in `[0, n - 1)` |
| CircleMethod.CyclePlaysIff | assets/js/state.js:92-106 | entries `x` and `y` meet in cycle round `r` exactly when their rotated positions add up to `n - 1` |
| CircleMethod.MeetingAt | assets/js/state.js:92-106 | the meeting round is in range, and it is the only round where the meeting equation holds |
| CircleMethod.MeetsAtRound | assets/js/state.js:92-106 | a round where the meeting equation holds exactly at `r0` has the two entries meet exactly when it is round `r0` |
| CircleMethod.MeetsExactlyAt | assets/js/state.js:92-106 | two distinct entries meet in round `r` of the cycle if and only if `r` is their meeting round |
| CircleMethod.PairOnce | assets/js/state.js:89-106 | in a duplicate-free even order, every two distinct entries meet in exactly one of the `n - 1` rounds |
| CircleMethod.RoundOfNoRepeat | assets/js/state.js:93-103 | a round over a duplicate-free order never pairs a team with itself and never uses a team in two matchups |
| CircleMethod.RoundOfCovers | assets/js/state.js:93-103 | every entry of the order plays in the round |
| CircleMethod.CycleNoRepeat | assets/js/state.js:92-106 | no cycle round uses a team twice |
| CircleMethod.CycleWithin | assets/js/state.js:92-106 | every side of every cycle matchup is an entry of the working order |
| CircleMethod.CycleCovers | assets/js/state.js:92-106 | every entry of the working order plays in every cycle round |
| CircleMethod.CycleEntry | assets/js/state.js:94-101 | cycle round `r` has `n / 2` matchups, and matchup `k` pairs positions `k` and `n - 1 - k` of the rotated order, with home and away swapped in odd rounds |
| RoundRobin.RoundOfFresh | assets/js/state.js:95-101 | every matchup of a built round has no scores and is completed exactly when it holds the bye |
| RoundRobin.CycleFresh | assets/js/state.js:92-106 | every round of the cycle is fresh |
| RoundRobin.AllRoundsFresh | assets/js/state.js:107-116 | every round, mirrored ones included, is fresh |
| RoundRobin.DoubleMirror | assets/js/state.js:107-116 | the double round list is the cycle followed by the mirror of each of its rounds, in order |
| RoundRobin.MirrorHosts | assets/js/state.js:109-110 | `a` hosts `b` in the mirrored round exactly when `b` hosts `a` in the original |
| RoundRobin.PlaysHosts | assets/js/state.js:94-101 | two teams meet exactly when one hosts the other, and meeting is symmetric |
| RoundRobin.OneWay | assets/js/state.js:94-101 | in a round with no repeated team, two distinct teams do not host each other both ways |
| RoundRobin.MeetingRoundOf | assets/js/state.js:89-106 | two distinct roster teams meet in round `r` of the cycle exactly when `r` is their one meeting round |
| RoundRobin.DoubleHosts | assets/js/state.js:107-116 | hosting in a double round is hosting in the cycle for the first half, and reversed hosting in the second half |
| RoundRobin.DoubleHostsOnce | assets/js/state.js:107-116 | in a double round-robin, `a` hosts `b` in exactly one round |
| RoundRobin.WorkingDistinct | assets/js/state.js:87-89 | a duplicate-free roster without the bye gives a duplicate-free working order holding exactly the roster, plus the bye when odd |
| RoundRobin.CoveredOnce | assets/js/state.js:93-103 | a team that plays in a round with no repeats is in exactly one of its matchups |
| RoundRobin.ByeOncePerRound | assets/js/state.js:89-106 | with an odd roster, every cycle round has exactly one bye matchup |
| RoundRobin.ByeOncePerCycle | assets/js/state.js:89-106 | with an odd roster, every team sits out exactly one round per cycle |
| RoundRobin.ScheduleWeek | assets/js/state.js:117-121 | week `w + 1`, within the first pass, carries round `w` |
| RoundRobin.ScheduleFirstCycle | assets/js/state.js:117-121 | a schedule at least one cycle long carries the cycle rounds in order in its first `n - 1` weeks |
| RoundRobin.ScheduleMeetsOnce | assets/js/state.js:86-121 | a single round-robin schedule at least one cycle long pairs every two distinct teams in exactly one of its first `n - 1` weeks |
| RoundRobin.RosterMeetsOnce | assets/js/state.js:87-106 | every two distinct roster teams meet in exactly one round of the cycle |
| RoundRobin.SameMeetings | assets/js/state.js:117-121 | weeks carrying the rounds have the meetings in the same places, so meeting once carries over |
| LeagueTypes.AllMatchupsMembers | assets/js/state.js:135-136 | the week-then-matchup traversal visits exactly the matchups of the schedule's weeks |
| Standings.AddGame | assets/js/state.js:140-146 | a decided game moves exactly one of W/L/T by the score, adds the points scored to `pf` and the points allowed to `pa`, appends the game and its token, and keeps the record consistent |
| Standings.Apply | assets/js/state.js:137-146 | a matchup that does not count leaves the records unchanged; one that counts changes only the two teams' records |
| Standings.Aggregate | assets/js/state.js:135-148 | folding the season keeps the set of teams with a record |
| Standings.Dedup | assets/js/state.js:133-134 | the record order holds each roster id exactly once, in the order of their first occurrences in the roster |
| Standings.Init | assets/js/state.js:134 | every roster id starts with a zero record |
| Standings.Tallies | assets/js/state.js:133-148 | the aggregated records are keyed by exactly the roster ids |
| Standings.ApplyIsStep | assets/js/state.js:137-146 | one matchup's effect on a single team's record is the per-team step |
| Standings.AggregateIsTeamTally | assets/js/state.js:135-148 | a team's record after the fold is its own per-team fold over the season |
| Standings.TeamTallyConsistent | assets/js/state.js:144-146 | every record keeps wins + losses + ties equal to its games and its streak tokens |
| Standings.TeamTallyUntouched | assets/js/state.js:137-139 | a team no counted matchup involves keeps its starting record |
| Standings.TalliesFacts | assets/js/state.js:134-148 | every team's record is consistent, and a team with no counted game keeps the zero record |
| Standings.RunLength | assets/js/state.js:189-193 | the count is the length of the trailing run of the token |
| Standings.CollapseStreak | assets/js/state.js:186-195 | empty exactly for an empty list; otherwise the last token followed by a decimal count with no leading zero |
| Standings.StreakCount | assets/js/state.js:186-195 | the decoded count lies between 1 and the list length, the last that many tokens equal the last token, and the token before them differs |
| Standings.H2HCount | assets/js/state.js:170-181 | wins and losses of `a` against `b` never exceed the number of matchups; their exact values are stated by `Standings.H2HCountIsSize` |
| Standings.H2HCountIsSize | assets/js/state.js:170-181 | `a`'s wins are exactly the decided games between `a` and `b` in which `a` scored more, its losses those in which it scored less; drawn, undecided and other games count for neither |
| Standings.HeadToHead | assets/js/state.js:169-184 | the result is -1, 0 or 1: -1 exactly when `a` won more games against `b`, 1 exactly when `b` won more |
| Standings.H2HEvenWithoutWinner | assets/js/state.js:182 | two teams with no decided game between them that either side won give 0 |
| Standings.H2HCountSwap | assets/js/state.js:174-179 | counting from `b`'s side swaps `a`'s wins and losses |
| Standings.H2HAntisymmetric | assets/js/state.js:169-184 | `h2h(b, a) == -h2h(a, b)` for two different teams |
| Standings.CountDone | assets/js/state.js:197-205 | the count never exceeds the matchups |
| Standings.CountCompletedMatchups | assets/js/state.js:197-205 | the count never exceeds the season's matchups |
| Standings.CountDoneIsSize | assets/js/state.js:197-205 | the count is exactly the number of positions holding a bye or a completed matchup |
| Standings.CountCounted | assets/js/state.js:137-139 | the matchups that change the standings never exceed the matchups |
| Standings.CountedAtMostDone | assets/js/state.js:197-205 | every matchup the standings count is one the completed count includes |
| StandingsTotals.TotalUpdate | assets/js/state.js:140-146 | replacing one record changes a column total over distinct teams by exactly that record's change |
| StandingsTotals.TotalZero | assets/js/state.js:134 | every column totals zero over zero records |
| StandingsTotals.ApplyWinsLosses | assets/js/state.js:144-146 | a counted matchup keeps total wins minus total losses |
| StandingsTotals.ApplyPoints | assets/js/state.js:140-141 | a counted matchup keeps total points for minus total points against |
| StandingsTotals.ApplyPlayed | assets/js/state.js:142-143 | a counted matchup adds two games to the records |
| StandingsTotals.ApplyTotals | assets/js/state.js:137-146 | one matchup keeps W−L and PF−PA totals, and adds two games exactly when it counts |
| StandingsTotals.AggregateTotals | assets/js/state.js:135-148 | over a run of matchups, W−L and PF−PA totals are kept and games grow by twice the counted matchups |
| StandingsTotals.LeagueTotals | assets/js/state.js:133-148 | over the league, total wins equal total losses, total points for equal total points against, and games are twice the counted matchups |
| Lookup.Find | assets/js/state.js:214 | the first index whose team satisfies the test, or none when no team does |
| Lookup.TeamById | assets/js/state.js:213-215 | `null` exactly when no team has the id; otherwise the first team with that id |
| Lookup.Match | assets/js/state.js:221-226 | the id of the first team whose name matches; if none, of the first whose abbreviation matches; if none, of the first whose name contains the input; none exactly when no team matches any way |
| Lookup.ResolveTeamInput | assets/js/state.js:217-229 | blank input gives `null`; "bye" in any case gives the bye; otherwise a team match wins over `validIds`; the trimmed input is returned only when no team matches and it is in `validIds`; `null` exactly when none of these applies |
| Lookup.ResolveOwnName | assets/js/state.js:218-222 | a team's own name, in any case and with surrounding space, resolves to the first team with that name |
| Lookup.ResolveOwnAbbrev | assets/js/state.js:218-224 | a team's abbreviation resolves to it when no name matches and no earlier team has that abbreviation |
| Lookup.ResolvePartName | assets/js/state.js:218-226 | part of a team's name resolves to the first team whose name contains it when no name or abbreviation equals it, whatever `validIds` holds |
| Ranking.Row | assets/js/state.js:149 | a row carries its record unchanged, with the streak collapsed |
| Ranking.Items | assets/js/state.js:149 | the rows before sorting are one per team id in roster order, each the row of that team's record |
| Ranking.SortName | assets/js/state.js:164 | the sort name is the name of the first team with the id when that name is non-empty, and the id itself when there is no such team or its name is empty |
| Ranking.Cmp | assets/js/state.js:150-165 | more wins first, then fewer losses, then more ties; on a tied record, under `pf` higher PF first, under `pa` lower PA first, under `h2h` the `h2h` result and then higher PF; once the tiebreaker ties, higher point differential first, and then the names in ascending order; two rows compare equal only when every key ties |
| Ranking.CmpAntisymmetric | assets/js/state.js:150-166 | swapping two rows of different teams negates the comparison |
| Ranking.CmpTransitive | assets/js/state.js:150-166 | without the h2h tiebreaker, the comparator is transitive |
| Ranking.InsertPos | assets/js/state.js:150 | the insertion point lies after every row the new row ranks below and at the first row it does not |
| Ranking.Insert | assets/js/state.js:150 | insertion adds one row to the multiset, and the first row is the new one or the old first |
| Ranking.InsertPlace | assets/js/state.js:150 | insertion keeps the old rows in order and puts the new row at the insertion point |
| Ranking.Sort | assets/js/state.js:150 | the sort returns a permutation of its input |
| Ranking.InsertAdjacent | assets/js/state.js:150-166 | inserting a row of a new team into rows in adjacent order keeps them in adjacent order |
| Ranking.SortAdjacent | assets/js/state.js:150-166 | for rows of distinct teams, every two neighbouring rows of the sorted output are in comparator order, whatever the tiebreaker |
| Ranking.AdjacentSorted | assets/js/state.js:150-166 | with a transitive comparator, neighbours in order means every pair in order |
| Ranking.PermutedRows | assets/js/state.js:149-150 | a permutation of team rows is still made of team rows |
| Ranking.ComputeStandings | assets/js/state.js:132-167 | the result is a permutation of the rows, one per team id, each that team's record; neighbours are in comparator order, and for the pf and pa tiebreakers the whole table is sorted |
| Strings.Leading | assets/js/state.js:218 | the count of leading white space |
| Strings.Trailing | assets/js/state.js:218 | the count of trailing white space |
| Strings.Trim | assets/js/state.js:218 | the trimmed text is the middle slice of the input, with only white space outside it and no white space at either end |
| Strings.Lower | assets/js/state.js:221 | lower-casing maps each character by its ASCII lower case |
| Strings.Upper | assets/js/state.js:220 | upper-casing maps each character by its ASCII upper case |
| Strings.ContainsWithin | assets/js/state.js:225 | `includes` finds a text wherever it sits in a string, the empty text included |
| Strings.ContainsShorter | assets/js/state.js:225 | a text is never found in a shorter string |
| Strings.LexCmp | assets/js/state.js:164 | the comparison gives -1, 0 or 1 |
| Strings.LexCmpZero | assets/js/state.js:164 | the comparison is 0 exactly for equal names |
| Strings.LexCmpPrefix | assets/js/state.js:164 | a proper prefix sorts before the longer name |
| Strings.LexCmpFirstDiff | assets/js/state.js:164 | between names that agree up to a position, the one with the smaller character there sorts first |
| Strings.LexCmpAntisymmetric | assets/js/state.js:164 | swapping the names negates the comparison |
| Strings.LexCmpTransitive | assets/js/state.js:164 | the name order is transitive |
| Strings.NatToDecimal | assets/js/state.js:194 | the numeral is made of digits, with no leading zero for a positive count |
| Strings.DecimalRoundTrip | assets/js/state.js:194 | reading the numeral back gives the count |
| Utils.ReplaceAll | assets/js/utils.js:7-11 | a global replace leaves a string without the searched character unchanged, and leaves none of it when the replacement does not contain it |
| Utils.ReplaceAllAppend | assets/js/utils.js:7-11 | a global replace distributes over concatenation |
| Utils.ReplaceAllOne | assets/js/utils.js:7-11 | a global replace on one character substitutes it exactly when it is the searched character |
| Utils.EntityFixedBy | assets/js/utils.js:8-11 | an inserted entity contains none of the characters a later step replaces |
| Utils.EntityFixed | assets/js/utils.js:8-11 | each later step leaves an inserted entity alone |
| Utils.EntitiesText | assets/js/utils.js:7-10 | the inserted entities are entity text |
| Utils.ChainSpecial | assets/js/utils.js:7-11 | the replacement chain maps each special character to its own entity |
| Utils.ChainChar | assets/js/utils.js:7-11 | the replacement chain maps every single character as the per-character table does |
| Utils.ChainAppend | assets/js/utils.js:7-11 | the replacement chain distributes over concatenation |
| Utils.ChainIsPerChar | assets/js/utils.js:7-11 | the five replacements in order map each character independently: the five specials to their entities, every other character to itself |
| Utils.UnescapeChar | assets/js/utils.js:7-11 | decoding an escaped character followed by any text gives the character back first |
| Utils.Esc | assets/js/utils.js:5-12 | `esc` equals the per-character escape, its output holds no `<`, `>`, `"` or `'`, and decoding the five entities recovers the input |
| Utils.PerCharRoundTrip | assets/js/utils.js:7-11 | decoding the per-character escape recovers the original string |
| Utils.PerCharNoMarkup | assets/js/utils.js:8-11 | the per-character escape contains no markup characters |
| Utils.EscCharNoMarkup | assets/js/utils.js:8-11 | no single-character escape contains a markup character |
| Utils.EscIdentity | assets/js/utils.js:6-11 | `esc` is the identity on strings without special characters |
| Utils.PerCharIdentity | assets/js/utils.js:6-11 | the per-character escape is the identity on strings without special characters |
| Utils.Clamp | assets/js/utils.js:14-16 | with `min <= max` the result lies in `[min, max]` and is `n` when `n` is in range; below the range it is `min`, above it `max`; with `min > max` it is `min` |
| Utils.Swap | assets/js/utils.js:27 | the two entries trade places, nothing else moves, and the multiset is kept |
| Utils.SwapDistinct | assets/js/utils.js:27 | swapping keeps a duplicate-free sequence duplicate-free |
| Utils.ShuffleFrom | assets/js/utils.js:25-28 | the remaining steps give a permutation of the same length, leave the settled positions alone, and keep distinctness |
| Utils.Shuffle | assets/js/utils.js:23-30 | the shuffle returns a permutation of its input of the same length and keeps distinctness |

## Left out

- `app.js` (rendering, events, dialogs, export) is not part of this model: it is user-interface code.
- `loadState`, `saveState`, `seedState` and `uid` are storage and random-id I/O and are not modelled.
- `validateState` coerces untrusted JSON. Only its restriction of the tiebreaker to `pf`, `pa` and `h2h` (state.js line 52) is kept, as the three-valued `Tiebreaker`.
- `fmtNum` is floating-point formatting and `labelTeam` is display text; neither is modelled.
- `Math.random` in `shuffleArray` is replaced by a sequence of draws: draw `k` stands for the `k`-th random number, and `draw % (i + 1)` is the chosen index.
- Scores are integers; fractional points are not modelled.
- Scheduler.GenerateRoundRobin: takes `weeks` as an integer. The caller only checks that the number is finite and at least 1, so a fractional count such as 2.5 can reach the loop, which then produces `floor(weeks)` weeks; the model expects the caller to pass that floor.
- `localeCompare` is modelled as plain code-point order: strings are sequences of Unicode scalar values, not UTF-16 code units, and no locale rules apply. `toLowerCase`, `toUpperCase` and `trim` act on ASCII letters and ASCII white space only.
- `Array.prototype.sort` is modelled as a stable insertion sort; JavaScript leaves the algorithm open.
- Ranking.ComputeStandings: claims whole-table sortedness only for the pf and pa tiebreakers. Under h2h the comparator can be cyclic, so only neighbouring rows are proved in order.
- Ranking.CmpAntisymmetric: holds for rows of two different teams only. A matchup of a team against itself can make `h2h(a, a)` nonzero.
- Standings.H2HAntisymmetric: requires two different teams, for the same reason.
- Rotation.RotateRR: requires at least two entries. The source is only ever called with an even, non-empty working order; on shorter arrays it would produce `undefined` entries.
- CircleMethod.PairOnce: like the other schedule theorems, it assumes a roster of distinct ids and no team whose id is `BYE`. The source does not guard against either.
- Lookup.ResolveTeamInput: `validIds` is `None` when the caller passes something that is not an array. A team's missing abbreviation is the empty string.
- Team fields other than id, name and abbreviation (owner, colour) and the league's other settings are not modelled; none of the modelled functions reads them.
- Copying of matchups (`{...m}`) and of arrays (`slice`) is implicit: all values are immutable.
