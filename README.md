# ppa-records: a verified model of the session planner

ppa-records keeps score for a pickleball group. It holds a roster of rated
players, records doubles matches, moves ratings after each result and plans
whole sessions of matches in advance. This project models the logic behind
those features in Dafny and proves what it promises:

- **Session generation** (`src/utils/sessionGenerator.ts`). A session is a
  run of rounds. Each round picks four players by a priority order, scores
  the three ways of splitting every 4-subset into two teams, keeps the
  cheapest split and updates the chosen players' counters in place. The
  module `SessionGenerator` runs the source's loop over an `array` roster
  (`PlayRounds`, `GenerateSession`). It is proved to produce exactly the
  specification function `Session`, a round at a time through `RoundPick`.
  `Session` is the loop `Rounds` with `RoundPick` as every round's choice.
  The session facts are proved for any choice with the property each needs,
  and `RoundPick` is proved to have those properties.
  The proved facts about a session are:
  - it has `floor(sessionMinutes / matchDurationMinutes)` matches whenever
    there are at least four players;
  - every match has two teams of two different roster players;
  - the matches are numbered 1, 2, …;
  - the roster's total of matches played is four per match;
  - with eight or more players, no player is in two consecutive matches;
  - each round takes the split with the lowest score, and the earliest one
    on ties.
- **Player selection** (`SessionSelection`). `getAvailablePlayers` is
  modelled with its comparator as an explicit priority order and an
  insertion sort of positions. It is proved to return four distinct players,
  and the top four by priority whenever the small-pool rotation does not
  apply. Inside a session the rotation never applies (`RoundTakesTopFour`).
- **Scoring** (`SessionScoring`). `scoreMatch` is the sum of five
  terms. The score is proved nonnegative and the same with the teams named
  in either order.
- **Combinations and splits** (`SessionCombinations`):
  - `getCombinations` yields C(n, k) lists. Each is read from the input at
    strictly increasing indices. They come in lexicographic order of those
    indices, each once.
  - `splitTeams` yields the three partitions of four players into pairs.
- **Stat updates** (`SessionStats`). `updatePlayerStats` is a method over
  the roster array. It changes exactly the four players of the match: one
  more match each, last played now, and their own team-mates' ids added.
- **Team utilities, match utilities and score utilities**: balanced-team
  search with the recent-pairing rule, random teams, conversion of stored
  matches to the display form, recent pairings, and the rating change.
- **Services**: cookie reading and writing in `authService.ts`, image
  validation and delete-path extraction in `storageService.ts`, and the CORS
  origin check in `cors.ts`.

Players inside the generator are identified by their position in the
roster. The source compares player objects by identity (`includes` on
arrays of the live records), and a position is exactly that identity.

Three behaviours of the source are modelled as written and proved as
lemmas:

- The consecutive-match counter walks back from the previous match. It stops
  at the first match the player did not play. A player records only one
  `lastPlayed`, so the count is never more than 1. The penalty threshold is
  2 or 3, so the consecutive-match penalty in `scoreMatch` is always 0
  (`SessionScoring.ConsecutivePenaltyIsZero`).
- `isSmallPool` in `scoreMatch` counts the players of the two teams, not of
  the roster, so it is always true there.
- The CORS check accepts an origin when a configured origin *starts with* it.
  A truncated origin such as `http://localhost:517` is therefore echoed back
  (`Cors.TruncatedOriginEchoed`).

The project is sixteen Dafny files, one module each:
`wrappers`, `types`, `seq_utils`, `strings`, `score_utils`, `match_utils`,
`team_utils`, `cors`, `auth_service`, `storage_service`, `session_players`,
`session_scoring`, `session_selection`, `session_combinations`,
`session_stats` and `session_generator`.

## Model

| member | source | states |
|---|---|---|
| AuthService.StripLeadingSpaces | src/services/authService.ts:18 | the loop strips leading spaces: the result is no longer than the piece and does not start with a space |
| AuthService.StripsExactlyLeadingSpaces | src/services/authService.ts:18 | exactly the leading spaces go: the result is the piece's suffix after them, and every dropped character is a space |
| AuthService.GetCookie | src/services/authService.ts:13-22 | the loop over the `;`-pieces returns exactly what the specification `CookieValue` reads from them |
| AuthService.CookieValueSpec | src/services/authService.ts:16-21 | the result is null iff no piece, once its leading spaces are stripped, starts with `name=`; otherwise it is the rest of the first such piece, and no earlier piece matches |
| AuthService.NameMustStartPiece | src/services/authService.ts:19 | `name=` must occur at the start of a piece: `xauth_token=v` does not give `auth_token` |
| AuthService.ValueMayContainEquals | src/services/authService.ts:19 | a cookie string `name=value` with no `;` (the name not starting with a space) reads back as exactly `value`, further `=` included |
| AuthService.LeadingSpaceIgnored | src/services/authService.ts:18 | a space before a piece does not change the value read |
| AuthService.GetCookieReadsJar | src/services/authService.ts:13-22 | reading a rendered cookie jar gives the value of the first cookie with that name, or null |
| AuthService.IsAuthenticated | src/services/authService.ts:68-71 | authenticated iff the first `auth_token` piece carries a non-empty value |
| AuthService.SetCookieReadBack | src/services/authService.ts:10 | the cookie string written by setCookie starts with `name=value`, and getCookie reads the value back |
| AuthService.SetCookieSecureOnHttps | src/services/authService.ts:10 | the string ends in `Secure;` exactly when the page is served over https |
| AuthService.DeleteCookieReadsEmpty | src/services/authService.ts:25 | after deleteCookie's string the cookie reads as the empty value, not null |
| Cors.SomeStartsWith | supabase/functions/_shared/cors.ts:7 | true iff some configured origin starts with the given origin |
| Cors.GetCorsHeaders | supabase/functions/_shared/cors.ts:6-13 | a missing or empty origin gets the first configured origin; a non-empty origin that prefixes a configured one is echoed; any other gets the first configured origin; methods and headers are the fixed lists |
| Cors.ConfiguredOriginsEchoed | supabase/functions/_shared/cors.ts:1-4 | both configured origins are echoed back |
| Cors.TruncatedOriginEchoed | supabase/functions/_shared/cors.ts:7 | a truncated configured origin passes the prefix test and is echoed |
| Cors.ExtendedOriginRejected | supabase/functions/_shared/cors.ts:7-9 | an origin that extends a configured one is refused and the default origin is sent |
| MatchUtils.TeamPlayers | src/utils/matchUtils.ts:20-26 | the players of a team are exactly those of the rows with that team number |
| MatchUtils.TeamPlayersAppend | src/utils/matchUtils.ts:20-22 | filtering by team distributes over concatenated rows and keeps the order |
| MatchUtils.SideTeam | src/utils/matchUtils.ts:28-47 | a side is complete iff it has at least two players; then the first two players and their summed rating, otherwise total 0 |
| MatchUtils.StoredWinner | src/utils/matchUtils.ts:31-33 | no winner iff either stored score is missing or 0; team1 iff both are nonzero and team1's is larger |
| MatchUtils.StoredWinnerAgrees | src/utils/matchUtils.ts:31-33 | for nonzero, unequal scores the stored winner equals determineWinner |
| MatchUtils.StoredWinnerTieGoesToTeam2 | src/utils/matchUtils.ts:31-33 | a nonzero tie is stored as a team2 win, while determineWinner gives none |
| MatchUtils.TransformMatch | src/utils/matchUtils.ts:35-54 | id and timestamps are copied, the team ids are `team1-`/`team2-` plus the id, missing scores become 0, and the winner follows the stored-winner rule |
| MatchUtils.TransformFullMatch | src/utils/matchUtils.ts:20-48 | a match with two rows per team becomes a complete match with those players, in order, and their summed ratings |
| MatchUtils.TransformMatchesToUI | src/utils/matchUtils.ts:18-56 | one converted match per stored match, in order |
| MatchUtils.FilterMatchesByPlayer | src/utils/matchUtils.ts:59-63 | keeps exactly the matches that have a row for the player |
| MatchUtils.FilterMatchesByPlayerAppend | src/utils/matchUtils.ts:59-63 | the filter distributes over concatenation and keeps the order |
| MatchUtils.PairingKey | src/utils/matchUtils.ts:85 | the key is the two ids joined by `-`, in one of the two orders |
| MatchUtils.PairingKeySymmetric | src/utils/matchUtils.ts:85 | sorting first makes the key independent of the order of the ids |
| MatchUtils.RecentKeysContain | src/utils/matchUtils.ts:69-74 | both teams of every match are in the recent set |
| MatchUtils.RecentKeysOnly | src/utils/matchUtils.ts:69-74 | every key in the recent set is a team of some match |
| MatchUtils.RecentKeysCard | src/utils/matchUtils.ts:66-77 | the set has at most two keys per match |
| MatchUtils.GetRecentTeamPairings | src/utils/matchUtils.ts:66-77 | the forEach builds exactly the set of both teams' keys over all matches |
| MatchUtils.IsTeamPairingRecentSymmetric | src/utils/matchUtils.ts:80-87 | the answer does not depend on the order of the two ids |
| MatchUtils.RecordedTeamsAreRecent | src/utils/matchUtils.ts:66-87 | every team of the given matches, in either order, is reported recent |
| ScoreUtils.CalculateTeamBalance | src/utils/scoreUtils.ts:37-39 | the absolute difference: nonnegative, one of the two differences, and 0 iff the scores are equal |
| ScoreUtils.BalanceSymmetric | src/utils/scoreUtils.ts:37-39 | the balance does not depend on the order of the teams |
| ScoreUtils.AreTeamsBalanced | src/utils/scoreUtils.ts:42-44 | balanced iff the difference lies within the threshold (200 by default), both bounds included |
| ScoreUtils.DetermineWinner | src/utils/scoreUtils.ts:47-50 | none iff the scores tie, team1 iff team1's is higher, team2 iff lower |
| ScoreUtils.DetermineWinnerSwap | src/utils/scoreUtils.ts:47-50 | swapping the scores swaps the winner |
| ScoreUtils.Round | src/utils/scoreUtils.ts:22-23 | Math.round: the nearest integer, halves rounded up |
| ScoreUtils.Bonus | src/utils/scoreUtils.ts:26 | the close-match bonus is 5 or 0 |
| ScoreUtils.CalculateScoreChanges | src/utils/scoreUtils.ts:4-34 | four changes, one per player in order; team-mates get the same change; a winner's change less the bonus is in [0, 32] and a loser's in [-32, 0] |
| ScoreUtils.CloseMatchAddsBonus | src/utils/scoreUtils.ts:26-33 | a match decided by at most 2 points gives every player exactly 5 more than a wider one |
| StorageService.ValidateImageFile | src/services/storageService.ts:65-84 | valid iff the type is one of the four allowed and the size is at most 10 MiB; an invalid type gets the type error first, otherwise the size error |
| StorageService.SizeLimitInclusive | src/services/storageService.ts:76 | exactly 10485760 bytes is accepted, one more byte is refused |
| StorageService.DeletePathOfPublicUrl | src/services/storageService.ts:38-41 | the delete path of a URL is its last two `/`-segments |
| StorageService.DeletePathWithoutSlash | src/services/storageService.ts:38-41 | a URL without `/` gives the folder `undefined` |
| Strings.Split | src/services/authService.ts:15 | String.split: at least one piece, and no piece contains the separator |
| Strings.SplitAtSeparator | src/services/authService.ts:15 | splitting `a;b` is splitting `a` followed by splitting `b` |
| Strings.LexLeTotal | src/utils/matchUtils.ts:70 | the default sort order on ids is total |
| Strings.LexLeAntisymmetric | src/utils/matchUtils.ts:70 | and antisymmetric, so sorting two ids has one result |
| Strings.NatToStringRoundTrip | src/utils/sessionGenerator.ts:308 | the decimal text of a match number reads back as that number |
| Strings.NatToStringInjective | src/utils/sessionGenerator.ts:308 | different match numbers have different texts |
| TeamUtils.MakeTeam | src/utils/teamUtils.ts:24-29 | a team holds the two players, in order, and the sum of their ratings |
| TeamUtils.GenerateTeamCombinations | src/utils/teamUtils.ts:19-35 | the nested loops build exactly the sequence `TeamsOf` |
| TeamUtils.RowUpToSpec | src/utils/teamUtils.ts:23-31 | the inner loop for player i pairs it with every later player, in order |
| TeamUtils.TeamsOfLength | src/utils/teamUtils.ts:19-35 | there are n(n-1)/2 teams |
| TeamUtils.TeamsUpToAt | src/utils/teamUtils.ts:22-31 | after the rows of players 0 .. m-1, the team of players i < j, i < m, sits at a closed-form index |
| TeamUtils.TeamAt | src/utils/teamUtils.ts:22-31 | the team of players i < j sits at a closed-form index |
| TeamUtils.TeamsUpToOnlyPairs | src/utils/teamUtils.ts:22-31 | every team is a pair of two different positions i < j |
| TeamUtils.BestSoFarStep | src/utils/teamUtils.ts:72-77 | one comparison keeps the invariant: the best is the first eligible pair of least balance seen so far |
| TeamUtils.SearchBestPair | src/utils/teamUtils.ts:51-79 | the double loop ends with the first eligible pair of least balance over all pairs i < j, or none when no pair is eligible |
| TeamUtils.SearchRow | src/utils/teamUtils.ts:52-78 | the inner loop extends that invariant over one row |
| TeamUtils.ConsiderPair | src/utils/teamUtils.ts:57-77 | one pair of teams replaces the best so far only when eligible and strictly better, which keeps the invariant |
| TeamUtils.FindBalancedTeams | src/utils/teamUtils.ts:38-82 | null below four players; otherwise the best eligible pair under the recent pairings |
| TeamUtils.ChosenTeamsEligible | src/utils/teamUtils.ts:57-70 | a chosen pair shares no player, neither team is recent, and its balance score is the teams' balance |
| TeamUtils.NothingFoundIffNoEligiblePair | src/utils/teamUtils.ts:51-81 | the search returns null iff no pair of teams is eligible |
| TeamUtils.SomeEligiblePair | src/utils/teamUtils.ts:111-112 | with four players of distinct ids and no recent pairings there is always an eligible pair |
| TeamUtils.GenerateBalancedTeams | src/utils/teamUtils.ts:85-122 | null below four players; never null with distinct ids; the flag is areTeamsBalanced; the teams are disjoint pairs from the players; whenever some pair avoids recent pairings, the result is the recent-aware search's first least-imbalanced eligible pair (`SearchResult`); otherwise any result is the first least-imbalanced disjoint pair of the search repeated without recent matches |
| TeamUtils.ShuffleArray | src/utils/teamUtils.ts:125-132 | the Fisher-Yates swaps return a fresh array holding a permutation of the input |
| TeamUtils.FirstFourFromInput | src/utils/teamUtils.ts:138-152 | the four players taken from the shuffled list are drawn from the input |
| TeamUtils.PermutationKeepsDistinctIds | src/utils/teamUtils.ts:138 | shuffling keeps the ids distinct |
| TeamUtils.GenerateRandomTeams | src/utils/teamUtils.ts:135-155 | null iff fewer than four players; otherwise four players drawn from the input, totals are the sums, and with distinct ids the teams share no player |
| SessionPlayers.ClonePlayers | src/utils/sessionGenerator.ts:16-23 | one record per player, in order, with 0 matches, last played -1 and no partners |
| SessionPlayers.WalkAtMostOne | src/utils/sessionGenerator.ts:58-66 | the backwards walk counts at most 1, and 1 exactly when the player's last match is the starting one |
| SessionPlayers.ConsecutiveAtMostOne | src/utils/sessionGenerator.ts:109-117 | the consecutive count is at most 1, and 1 iff the player played the previous match |
| SessionPlayers.CountConsecutive | src/utils/sessionGenerator.ts:109-117 | the loop computes that count |
| SessionSelection.CompareIsPriorityOrder | src/utils/sessionGenerator.ts:122-139 | the comparator is negative, positive or zero exactly as the priority order puts a before b, b before a, or ties them |
| SessionSelection.PriorityLtTransitive | src/utils/sessionGenerator.ts:122-139 | the priority order is transitive, so sorting by it is well defined |
| SessionSelection.Keys | src/utils/sessionGenerator.ts:109-119 | one priority per player, in roster order |
| SessionSelection.SortByKeySpec | src/utils/sessionGenerator.ts:122-139 | the sort returns a permutation of the positions, sorted by priority, stable on ties |
| SessionSelection.InsertSpec | src/utils/sessionGenerator.ts:122-139 | inserting a position after every entry whose key is not larger keeps the list sorted and adds exactly that position |
| SessionSelection.SortPrefixSpec | src/utils/sessionGenerator.ts:122-139 | the first m positions, sorted one insertion at a time, are a permutation of 0 .. m-1 sorted by priority, stable on ties |
| SessionSelection.GetAvailablePlayers | src/utils/sessionGenerator.ts:101-182 | four roster positions, or as many as the roster has when it has fewer than four |
| SessionSelection.GetAvailablePlayersDistinct | src/utils/sessionGenerator.ts:141-181 | no position is selected twice |
| SessionSelection.LargePoolTakesTopFour | src/utils/sessionGenerator.ts:168-181 | above six players the selection is the first four by priority |
| SessionSelection.AvailableIsTopFour | src/utils/sessionGenerator.ts:141-181 | unless the small-pool rotation applies, the selection is the first four by priority |
| SessionSelection.NoBackToBack | src/utils/sessionGenerator.ts:168-181 | with eight or more players and at most four in the previous match, nobody from that match is selected |
| SessionSelection.PreviousSitLate | src/utils/sessionGenerator.ts:122-139 | in that case the previous match's players sort after the first four |
| SessionCombinations.Combine | src/utils/sessionGenerator.ts:27-35 | the recursive `combine` appends exactly the lists of the specification `Combos` to the shared result |
| SessionCombinations.GetCombinations | src/utils/sessionGenerator.ts:25-38 | C(n, k) lists, each of k elements drawn from the input |
| SessionCombinations.CombosCount | src/utils/sessionGenerator.ts:25-38 | the number of lists is C(n, k) |
| SessionCombinations.NoCombosWhenTooFew | src/utils/sessionGenerator.ts:32-34 | with fewer than k elements there are none |
| SessionCombinations.CombosShape | src/utils/sessionGenerator.ts:25-38 | every list has k elements, all taken from the input |
| SessionCombinations.CombosInIndexOrder | src/utils/sessionGenerator.ts:25-38 | the lists are read from the input at strictly increasing indices, in lexicographic order of those indices, each index list once |
| SessionCombinations.CombosOfFour | src/utils/sessionGenerator.ts:263 | four available players give a single 4-subset, themselves |
| SessionCombinations.SplitTeams | src/utils/sessionGenerator.ts:40-47 | three splits into two pairs, each led by the first player |
| SessionCombinations.SplitsArePartitions | src/utils/sessionGenerator.ts:40-47 | every split uses each of the four players once |
| SessionCombinations.SplitsDistinct | src/utils/sessionGenerator.ts:42-46 | for four distinct players the three splits differ |
| SessionCombinations.SplitsCoverAll | src/utils/sessionGenerator.ts:42-46 | every partner of the first player occurs in one split |
| SessionScoring.Imbalance | src/utils/sessionGenerator.ts:50-52 | the absolute difference of the two teams' rating sums |
| SessionScoring.RepetitionCount | src/utils/sessionGenerator.ts:89-94 | a player repeats at most as many partners as the team holds |
| SessionScoring.ConsecutivePenaltyIsZero | src/utils/sessionGenerator.ts:58-73 | the consecutive-match penalty is 0 for every player, whatever the pool size |
| SessionScoring.ScoreWithoutConsecutive | src/utils/sessionGenerator.ts:49-99 | the score is balance times 100 plus fatigue, rest and repetition terms |
| SessionScoring.ScoreNonnegative | src/utils/sessionGenerator.ts:49-99 | the score is never negative |
| SessionScoring.ScoreSymmetric | src/utils/sessionGenerator.ts:49-99 | for disjoint teams the score does not depend on which team is named first |
| SessionStats.TeamIdsSpec | src/utils/sessionGenerator.ts:194-198 | the partners added are exactly the team's other ids |
| SessionStats.Played | src/utils/sessionGenerator.ts:190-198 | one more match, last played at this index, and the team-mates' ids added |
| SessionStats.UpdateTeam | src/utils/sessionGenerator.ts:190-199 | the forEach over one team leaves the roster equal to `AfterTeam` |
| SessionStats.UpdatePlayerStats | src/utils/sessionGenerator.ts:184-212 | the roster array becomes `AfterMatch`: team1's updates, then team2's |
| SessionStats.AfterTeamPlayers | src/utils/sessionGenerator.ts:190-199 | updating a team changes records, never which player sits at a position |
| SessionStats.AfterTeamEffect | src/utils/sessionGenerator.ts:190-199 | one team's update changes exactly its players, each once |
| SessionStats.AfterMatchEffect | src/utils/sessionGenerator.ts:184-212 | a match changes its four players as `Played` says, with their own team's partners, and leaves everyone else unchanged |
| SessionStats.AfterMatchTotal | src/utils/sessionGenerator.ts:184-212 | the roster's total of matches played grows by the number of players in the match |
| SessionGenerator.WithRestedPlayersSpec | src/utils/sessionGenerator.ts:249-254 | the fallback keeps the list free of repeats and inside the roster |
| SessionGenerator.Available | src/utils/sessionGenerator.ts:233-254 | the round's players are roster positions; with four or more players they are the four selected, and the fallback adds nothing |
| SessionGenerator.AvailableDistinct | src/utils/sessionGenerator.ts:233-254 | the round's players, fallback included, are all different |
| SessionGenerator.Candidates | src/utils/sessionGenerator.ts:267-269 | three candidate splits for every 4-subset |
| SessionGenerator.CandidatesWithin | src/utils/sessionGenerator.ts:263-269 | every candidate has two teams of two drawn from the available players |
| SessionGenerator.BestOfIsFirstMinimum | src/utils/sessionGenerator.ts:264-276 | the strict `<` search gives none iff there are no candidates, otherwise the first candidate of least score, with its score |
| SessionGenerator.BestOfSnoc | src/utils/sessionGenerator.ts:270-274 | one more candidate updates the best as the loop body does |
| SessionGenerator.PickBestSplit | src/utils/sessionGenerator.ts:263-276 | the nested loops end with that first minimum over all candidates |
| SessionGenerator.SearchDraws | src/utils/sessionGenerator.ts:263-276 | a found split partitions four distinct available players into two pairs |
| SessionGenerator.SearchOfFour | src/utils/sessionGenerator.ts:263-276 | with four available players the result is the first of the three splits of least score |
| SessionGenerator.DrawnIsWellFormed | src/utils/sessionGenerator.ts:263-273 | a split drawn from the roster has two teams of two different roster players |
| SessionGenerator.RoundPickSpec | src/utils/sessionGenerator.ts:233-278 | with four or more players a round always picks a match, and the pick is a well-formed split of the round's available players |
| SessionGenerator.RoundPickIsBest | src/utils/sessionGenerator.ts:233-276 | the pick is the first split of least score among the three splits of the selected four |
| SessionGenerator.ScoreOfIsScoreMatch | src/utils/sessionGenerator.ts:270 | the score used by the search is `scoreMatch` on the two teams |
| SessionGenerator.ChooseMatch | src/utils/sessionGenerator.ts:233-278 | one loop iteration's choice equals `RoundPick`: a match whenever there are four players, and a well-formed one |
| SessionGenerator.RoundPickCommits | src/utils/sessionGenerator.ts:233-278 | every split a round commits is two teams of two different roster players |
| SessionGenerator.RoundPickAlwaysCommits | src/utils/sessionGenerator.ts:233-278 | with four or more players every round commits a split |
| SessionGenerator.RoundsLength | src/utils/sessionGenerator.ts:227-290 | when every round on four or more players commits, the loop never breaks: one match per remaining index, and the roster keeps its size |
| SessionGenerator.RoundsWellFormed | src/utils/sessionGenerator.ts:229-290 | when rounds commit only well-formed splits, every match of the session has two teams of two different roster players, and the roster keeps its size |
| SessionGenerator.RoundsTotal | src/utils/sessionGenerator.ts:229-290 | every match adds four to the roster's total of matches played |
| SessionGenerator.RoundsFirst | src/utils/sessionGenerator.ts:229-283 | a session that is not empty starts with the split its first round commits |
| SessionGenerator.ClonedTotalIsZero | src/utils/sessionGenerator.ts:16-23 | a fresh roster has played no matches |
| SessionGenerator.ClonedIsConsistent | src/utils/sessionGenerator.ts:16-23 | a fresh roster meets the rotation invariant at index 0 |
| SessionGenerator.ConsistentStep | src/utils/sessionGenerator.ts:283 | committing a match keeps the rotation invariant at the next index, and its four players now last played at this index |
| SessionGenerator.NextRoundRests | src/utils/sessionGenerator.ts:229-290 | with eight or more players the next round picks a match that shares no player with this one |
| SessionGenerator.RoundPickRotates | src/utils/sessionGenerator.ts:229-290 | after any well-formed match on a consistent roster of eight or more, the next round's split shares no player with it |
| SessionGenerator.RoundsNoBackToBack | src/utils/sessionGenerator.ts:229-290 | when rounds rotate that way, with eight or more players no two consecutive matches share a player |
| SessionGenerator.RoundTakesTopFour | src/utils/sessionGenerator.ts:233 | within a session a round plays the first four players by priority |
| SessionGenerator.PlayRounds | src/utils/sessionGenerator.ts:229-290 | the loop leaves the roster array as `Session` says and returns its matches numbered 1, 2, … |
| SessionGenerator.RoundsAdvance | src/utils/sessionGenerator.ts:278-288 | committing the round's split moves it from the rounds still to play to the splits made |
| SessionGenerator.RoundsStop | src/utils/sessionGenerator.ts:229-278 | when the indices run out or a round finds nothing, the session is exactly the splits made |
| SessionGenerator.SessionFacts | src/utils/sessionGenerator.ts:225-290 | a session from a fresh roster has the expected number of matches, well-formed matches, four plays per match, and rests between matches from eight players up |
| SessionGenerator.MatchCount | src/utils/sessionGenerator.ts:227-229 | `Math.floor` of the session length over the match length: the largest whole number of matches that fits, and no match when less than one fits, a negative length included |
| SessionGenerator.GenerateSession | src/utils/sessionGenerator.ts:214-300 | empty below four players; otherwise `MatchCount(minutes, duration)` matches numbered from 1, each well formed, the roster's plays four per match, and no back-to-back player from eight players up |
| SessionGenerator.ConvertSessionMatchToUIMatch | src/utils/sessionGenerator.ts:303-330 | id `baseId-number`, the first two players of each team with their summed ratings, scores 0 and no winner |
| SessionGenerator.ConvertedIdDeterminesNumber | src/utils/sessionGenerator.ts:308 | different match numbers give different ids |

## Left out

- Randomness becomes a parameter. `generateSession`'s shuffle is any permutation `shuffledPlayers` of the input. `shuffleArray` takes step i's draw as `rand[i]`, reduced modulo `i + 1`.
- The `console.log` calls in the generator are left out; they change no state.
- The wall clock (`new Date()`) becomes a parameter: the cookie expiry text, and one `now` for both timestamps of a converted match.
- ScoreUtils.CalculateScoreChanges: takes team1's expected result as a parameter in [0, 1] instead of the logistic formula with `Math.pow`, whose floating-point value is not modelled.
- Ratings, scores and weights are reals: floating-point rounding, `NaN` and `Infinity` are not modelled. The search's `Infinity` start is an absent best.
- SessionGenerator.GenerateSession: requires a nonzero match length. A zero length, for which the source's `Math.floor` divides by zero and the loop bound is `Infinity` or `NaN`, is not modelled. Any session length, negative or fractional, is.
- The default arguments are not modelled: `sessionMinutes = 120` and `matchDurationMinutes = 15` of `generateSession` (sessionGenerator.ts:216-217), and `recentMatches = []` of `findBalancedTeams` and `generateBalancedTeams` (teamUtils.ts:40, 87). The calls in the source pass every argument.
- Strings are sequences of characters: UTF-16 code units, locale and Unicode details of `sort()` and `split()` are not modelled.
- SessionGenerator.ConvertSessionMatchToUIMatch: does not model the `sessionId`, `matchNumber` and `status` fields, which the match type does not declare. The players it returns are the `Player` part of the live records.
- The UI team slots are `Option`s. A stored match with fewer than two players on a side gives an incomplete team, where the source would hold `undefined`.
- The network and database calls are left out because they are I/O: requestCode, verifyCode, getCurrentUser, logout, the image upload and delete requests, `handleOptions` and `json` in `cors.ts`, and `groupService.ts`.
- TeamUtils.SearchBestPair: takes the eligibility test (no shared player, no recent pairing) as a function parameter, which `FindBalancedTeams` fixes to the source's test.
- SessionCombinations.Combine: threads the shared `result` array through the recursion as a value rather than mutating one array.
- `src/types/index.ts` and `src/utils/matchWeights.ts` are data only; their records and constants are the datatypes and constants of `Types` and `SessionScoring`.
- The small-pool top-up in `getAvailablePlayers`, lines 159-165, can never add anyone. It runs only when fewer than four players exist, and then nobody is left after the first four. The model computes it as written.
- The small-pool forced rotation in `getAvailablePlayers`, lines 143-153, never applies inside a session. After a match, that match's four players are among at most six, so at most two others are left, fewer than the four it needs. `RoundTakesTopFour` proves that every session round takes the top four. The model computes the rotation as written for a standalone call.
- The React components and pages are not part of this model.
