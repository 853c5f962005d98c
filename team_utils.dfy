/**
 * The one-shot team balancer (src/utils/teamUtils.ts): every pair of players
 * as a team, a minimum-difference search over pairs of teams that skips
 * overlapping and recently used teams, the balanced/fallback wrapper, the
 * Fisher-Yates shuffle and random teams.
 */
module TeamUtils {
  import opened Wrappers
  import opened SeqUtils
  import Types
  import ScoreUtils
  import MatchUtils

  type Player = Types.Player

  /** A team of two players; `totalScore` is the sum of their ratings. */
  datatype Team = Team(id: string, player1: Types.Player, player2: Types.Player, totalScore: real)

  datatype BalancedTeams = BalancedTeams(team1: Team, team2: Team, balanceScore: real)

  datatype GeneratedTeams = GeneratedTeams(team1: Team, team2: Team, isBalanced: bool)

  datatype RandomTeams = RandomTeams(team1: Team, team2: Team)

  /** The team of `p` and `q`, with id `team-<p.id>-<q.id>`. */
  function MakeTeam(p: Player, q: Player): (t: Team)
    ensures t.player1 == p && t.player2 == q
    ensures t.totalScore == p.score + q.score
  {
    Team("team-" + p.id + "-" + q.id, p, q, p.score + q.score)
  }

  // ---------------------------------------------------------------------------
  // generateTeamCombinations
  // ---------------------------------------------------------------------------

  /** The teams of row i (player i with each later player) up to, not including, column j. */
  function RowUpTo(ps: seq<Player>, i: nat, j: nat): seq<Team>
    requires i < |ps| && j <= |ps|
    decreases j
  {
    if j <= i + 1 then [] else RowUpTo(ps, i, j - 1) + [MakeTeam(ps[i], ps[j - 1])]
  }

  /** The teams of rows 0 .. i-1, row after row. */
  function TeamsUpTo(ps: seq<Player>, i: nat): seq<Team>
    requires i <= |ps|
  {
    if i == 0 then [] else TeamsUpTo(ps, i - 1) + RowUpTo(ps, i - 1, |ps|)
  }

  /** One team per index pair i < j, in row-major order. */
  function TeamsOf(ps: seq<Player>): seq<Team>
  {
    TeamsUpTo(ps, |ps|)
  }

  /** generateTeamCombinations: the nested index loops push the pair teams in row-major order. */
  method GenerateTeamCombinations(players: seq<Player>) returns (teams: seq<Team>)
    ensures teams == TeamsOf(players)
  {
    teams := [];
    var n := |players|;
    var i := 0;
    while i < n
      invariant 0 <= i <= n
      invariant teams == TeamsUpTo(players, i)
    {
      var j := i + 1;
      while j < n
        invariant i + 1 <= j <= n
        invariant teams == TeamsUpTo(players, i) + RowUpTo(players, i, j)
      {
        teams := teams + [MakeTeam(players[i], players[j])];
        j := j + 1;
      }
      i := i + 1;
    }
  }

  /** Row i up to column j holds player i with players i+1 .. j-1, in order. */
  lemma {:induction false} RowUpToSpec(ps: seq<Player>, i: nat, j: nat)
    requires i < |ps| && j <= |ps|
    ensures |RowUpTo(ps, i, j)| == if j <= i + 1 then 0 else j - i - 1
    ensures forall k :: 0 <= k < |RowUpTo(ps, i, j)| ==> RowUpTo(ps, i, j)[k] == MakeTeam(ps[i], ps[i + 1 + k])
    decreases j
  {
    if j > i + 1 {
      RowUpToSpec(ps, i, j - 1);
    }
  }

  /** Where row i starts in the list: rows 0 .. i-1 hold (n-1) + (n-2) + ... + (n-i) teams. */
  function RowStart(n: nat, i: nat): nat
    requires i <= n
  {
    if i == 0 then 0 else RowStart(n, i - 1) + (n - i)
  }

  /** Rows 0 .. i-1 end where row i starts. */
  lemma {:induction false} TeamsUpToLength(ps: seq<Player>, i: nat)
    requires i <= |ps|
    ensures |TeamsUpTo(ps, i)| == RowStart(|ps|, i)
  {
    if i > 0 {
      TeamsUpToLength(ps, i - 1);
      RowUpToSpec(ps, i - 1, |ps|);
    }
  }

  /** The closed form of RowStart. */
  lemma {:induction false} RowStartClosedForm(n: nat, i: nat)
    requires i <= n
    ensures 2 * RowStart(n, i) == i * (2 * n - i - 1)
  {
    if i > 0 {
      RowStartClosedForm(n, i - 1);
      assert i * (2 * n - i - 1) == (i - 1) * (2 * n - (i - 1) - 1) + 2 * (n - i);
    }
  }

  /** generateTeamCombinations yields n(n-1)/2 teams. */
  lemma TeamsOfLength(ps: seq<Player>)
    ensures 2 * |TeamsOf(ps)| == |ps| * (|ps| - 1)
  {
    TeamsUpToLength(ps, |ps|);
    RowStartClosedForm(|ps|, |ps|);
  }

  /** The pair (i, j), i < j, sits at index RowStart(n, i) + (j - i - 1), and that team is players i and j. */
  lemma TeamsUpToAt(ps: seq<Player>, m: nat, i: nat, j: nat)
    requires i < j < |ps| && i < m <= |ps|
    ensures RowStart(|ps|, i) + (j - i - 1) < |TeamsUpTo(ps, m)|
    ensures TeamsUpTo(ps, m)[RowStart(|ps|, i) + (j - i - 1)] == MakeTeam(ps[i], ps[j])
  {
    TeamsUpToLastRow(ps, i, j);
    TeamsUpToKeeps(ps, i + 1, m, RowStart(|ps|, i) + (j - i - 1));
  }

  /** Adding rows keeps every earlier team where it was. */
  lemma {:induction false} TeamsUpToKeeps(ps: seq<Player>, a: nat, m: nat, k: nat)
    requires a <= m <= |ps| && k < |TeamsUpTo(ps, a)|
    ensures k < |TeamsUpTo(ps, m)| && TeamsUpTo(ps, m)[k] == TeamsUpTo(ps, a)[k]
  {
    if m > a {
      TeamsUpToKeeps(ps, a, m - 1, k);
      TeamsUpToExtend(ps, m, k);
    }
  }

  /** Adding a row keeps every earlier team where it was. */
  lemma TeamsUpToExtend(ps: seq<Player>, m: nat, k: nat)
    requires 0 < m <= |ps| && k < |TeamsUpTo(ps, m - 1)|
    ensures k < |TeamsUpTo(ps, m)| && TeamsUpTo(ps, m)[k] == TeamsUpTo(ps, m - 1)[k]
  {
    assert TeamsUpTo(ps, m) == TeamsUpTo(ps, m - 1) + RowUpTo(ps, m - 1, |ps|);
  }

  /** Row i, the last of rows 0 .. i, holds the pair (i, j) at offset j - i - 1. */
  lemma TeamsUpToLastRow(ps: seq<Player>, i: nat, j: nat)
    requires i < j < |ps|
    ensures RowStart(|ps|, i) + (j - i - 1) < |TeamsUpTo(ps, i + 1)|
    ensures TeamsUpTo(ps, i + 1)[RowStart(|ps|, i) + (j - i - 1)] == MakeTeam(ps[i], ps[j])
  {
    var front := TeamsUpTo(ps, i);
    var row := RowUpTo(ps, i, |ps|);
    TeamsUpToLength(ps, i);
    RowUpToAt(ps, i, j);
    assert (front + row)[|front| + (j - i - 1)] == row[j - i - 1];
  }

  /** The full row i holds the pair (i, j) at offset j - i - 1. */
  lemma RowUpToAt(ps: seq<Player>, i: nat, j: nat)
    requires i < j < |ps|
    ensures j - i - 1 < |RowUpTo(ps, i, |ps|)| && RowUpTo(ps, i, |ps|)[j - i - 1] == MakeTeam(ps[i], ps[j])
  {
    RowUpToSpec(ps, i, |ps|);
  }

  lemma TeamAt(ps: seq<Player>, i: nat, j: nat)
    requires i < j < |ps|
    ensures RowStart(|ps|, i) + (j - i - 1) < |TeamsOf(ps)|
    ensures TeamsOf(ps)[RowStart(|ps|, i) + (j - i - 1)] == MakeTeam(ps[i], ps[j])
  {
    TeamsUpToAt(ps, |ps|, i, j);
  }

  /** Conversely, every team in the list is some pair i < j. */
  lemma {:induction false} TeamsUpToOnlyPairs(ps: seq<Player>, m: nat, k: nat)
    requires m <= |ps| && k < |TeamsUpTo(ps, m)|
    ensures exists i, j :: 0 <= i < j < |ps| && TeamsUpTo(ps, m)[k] == MakeTeam(ps[i], ps[j])
  {
    var front := TeamsUpTo(ps, m - 1);
    RowUpToSpec(ps, m - 1, |ps|);
    if k < |front| {
      TeamsUpToOnlyPairs(ps, m - 1, k);
    } else {
      var c := k - |front|;
      assert TeamsUpTo(ps, m)[k] == MakeTeam(ps[m - 1], ps[m + c]);
    }
  }

  // ---------------------------------------------------------------------------
  // findBalancedTeams
  // ---------------------------------------------------------------------------

  /** `team1PlayerIds.some(id => team2PlayerIds.includes(id))` */
  predicate SharePlayer(t1: Team, t2: Team)
  {
    t1.player1.id == t2.player1.id || t1.player1.id == t2.player2.id ||
    t1.player2.id == t2.player1.id || t1.player2.id == t2.player2.id
  }

  predicate IsRecent(t: Team, recent: set<string>)
  {
    MatchUtils.IsTeamPairingRecent(t.player1.id, t.player2.id, recent)
  }

  /** A pair of teams the search may pick: no shared player, neither team recent. */
  predicate Eligible(t1: Team, t2: Team, recent: set<string>)
  {
    !SharePlayer(t1, t2) && !IsRecent(t1, recent) && !IsRecent(t2, recent)
  }

  function Balance(t1: Team, t2: Team): real
  {
    ScoreUtils.CalculateTeamBalance(t1.totalScore, t2.totalScore)
  }

  /** The eligibility test of the search, as a value. */
  function EligibleUnder(recent: set<string>): (Team, Team) -> bool
  {
    (t1: Team, t2: Team) => Eligible(t1, t2, recent)
  }

  /** (a, b) comes before (c, d) in the order the nested loops visit pairs. */
  predicate Before(a: nat, b: nat, c: nat, d: nat)
  {
    a < c || (a == c && b < d)
  }

  /** No pair visited before (i, j) is eligible. */
  ghost predicate NoneEligibleBefore(teams: seq<Team>, ok: (Team, Team) -> bool, i: nat, j: nat)
  {
    forall a, b :: 0 <= a < b < |teams| && Before(a, b, i, j) ==> !ok(teams[a], teams[b])
  }

  /** `score` is at most the balance of every eligible pair visited before (i, j). */
  ghost predicate AtMostBefore(teams: seq<Team>, ok: (Team, Team) -> bool, i: nat, j: nat, score: real)
  {
    forall a, b :: 0 <= a < b < |teams| && Before(a, b, i, j) && ok(teams[a], teams[b]) ==>
      score <= Balance(teams[a], teams[b])
  }

  /** `score` is below the balance of every eligible pair visited before (i, j). */
  ghost predicate BelowBefore(teams: seq<Team>, ok: (Team, Team) -> bool, i: nat, j: nat, score: real)
  {
    forall a, b :: 0 <= a < b < |teams| && Before(a, b, i, j) && ok(teams[a], teams[b]) ==>
      score < Balance(teams[a], teams[b])
  }

  /** (bi, bj) is the first eligible pair of minimal balance among the pairs visited before (i, j). */
  ghost predicate BestSoFar(teams: seq<Team>, ok: (Team, Team) -> bool, i: nat, j: nat,
                            best: Option<BalancedTeams>, bi: nat, bj: nat)
  {
    (best.None? ==> NoneEligibleBefore(teams, ok, i, j)) &&
    (best.Some? ==>
      bi < bj < |teams| && Before(bi, bj, i, j) && ok(teams[bi], teams[bj]) &&
      best.value == BalancedTeams(teams[bi], teams[bj], Balance(teams[bi], teams[bj])) &&
      AtMostBefore(teams, ok, i, j, best.value.balanceScore) &&
      BelowBefore(teams, ok, bi, bj, best.value.balanceScore))
  }

  /** Two loop positions that have visited the same pairs have the same best-so-far facts. */
  lemma BestSoFarSamePairs(teams: seq<Team>, ok: (Team, Team) -> bool, i: nat, j: nat, i2: nat, j2: nat,
                           best: Option<BalancedTeams>, bi: nat, bj: nat)
    requires forall a, b :: 0 <= a < b < |teams| ==> (Before(a, b, i, j) <==> Before(a, b, i2, j2))
    requires BestSoFar(teams, ok, i, j, best, bi, bj)
    ensures BestSoFar(teams, ok, i2, j2, best, bi, bj)
  {
  }

  /** Entering row i: the pairs (i, b) with b <= i are not pairs of distinct positions. */
  lemma BestSoFarRowStart(teams: seq<Team>, ok: (Team, Team) -> bool, i: nat, best: Option<BalancedTeams>, bi: nat, bj: nat)
    requires BestSoFar(teams, ok, i, 0, best, bi, bj)
    ensures BestSoFar(teams, ok, i, i + 1, best, bi, bj)
  {
    BestSoFarSamePairs(teams, ok, i, 0, i, i + 1, best, bi, bj);
  }

  /** Leaving row i after its last column is entering row i + 1. */
  lemma BestSoFarRowEnd(teams: seq<Team>, ok: (Team, Team) -> bool, i: nat, best: Option<BalancedTeams>, bi: nat, bj: nat)
    requires BestSoFar(teams, ok, i, |teams|, best, bi, bj)
    ensures BestSoFar(teams, ok, i + 1, 0, best, bi, bj)
  {
    BestSoFarSamePairs(teams, ok, i, |teams|, i + 1, 0, best, bi, bj);
  }

  lemma NoneEligibleExtend(teams: seq<Team>, ok: (Team, Team) -> bool, i: nat, j: nat)
    requires i < j < |teams|
    requires NoneEligibleBefore(teams, ok, i, j) && !ok(teams[i], teams[j])
    ensures NoneEligibleBefore(teams, ok, i, j + 1)
  {
  }

  lemma AtMostExtend(teams: seq<Team>, ok: (Team, Team) -> bool, i: nat, j: nat, score: real)
    requires i < j < |teams|
    requires AtMostBefore(teams, ok, i, j, score)
    requires ok(teams[i], teams[j]) ==> score <= Balance(teams[i], teams[j])
    ensures AtMostBefore(teams, ok, i, j + 1, score)
  {
  }

  /** A strictly smaller score found at (i, j) is the new first minimum. */
  lemma NewMinimum(teams: seq<Team>, ok: (Team, Team) -> bool, i: nat, j: nat, old_score: Option<real>, score: real)
    requires i < j < |teams|
    requires old_score.None? ==> NoneEligibleBefore(teams, ok, i, j)
    requires old_score.Some? ==> AtMostBefore(teams, ok, i, j, old_score.value) && score < old_score.value
    requires score == Balance(teams[i], teams[j])
    ensures AtMostBefore(teams, ok, i, j + 1, score)
    ensures BelowBefore(teams, ok, i, j, score)
  {
  }

  /** One iteration of the inner loop keeps the best-so-far facts, one pair further on. */
  lemma BestSoFarStep(teams: seq<Team>, ok: (Team, Team) -> bool, i: nat, j: nat,
                      best: Option<BalancedTeams>, bi: nat, bj: nat,
                      best': Option<BalancedTeams>, bi': nat, bj': nat)
    requires i < j < |teams|
    requires BestSoFar(teams, ok, i, j, best, bi, bj)
    requires var e := ok(teams[i], teams[j]);
      var better := e && (best.None? || Balance(teams[i], teams[j]) < best.value.balanceScore);
      if better then best' == Some(BalancedTeams(teams[i], teams[j], Balance(teams[i], teams[j]))) && bi' == i && bj' == j
      else best' == best && bi' == bi && bj' == bj
    ensures BestSoFar(teams, ok, i, j + 1, best', bi', bj')
  {
    var e := ok(teams[i], teams[j]);
    if e && (best.None? || Balance(teams[i], teams[j]) < best.value.balanceScore) {
      var oldScore := if best.Some? then Some(best.value.balanceScore) else None;
      NewMinimum(teams, ok, i, j, oldScore, Balance(teams[i], teams[j]));
    } else if best.None? {
      NoneEligibleExtend(teams, ok, i, j);
    } else {
      AtMostExtend(teams, ok, i, j, best.value.balanceScore);
    }
  }

  /**
   * The search over pairs of distinct teams of `teams`, in loop order, keeping
   * a new best only when it is strictly better. `eligible` is the pair of
   * `continue` guards of the loop body (shared player, recent pairing).
   */
  method SearchBestPair(teams: seq<Team>, eligible: (Team, Team) -> bool)
    returns (best: Option<BalancedTeams>, ghost bi: nat, ghost bj: nat)
    ensures BestSoFar(teams, eligible, |teams|, 0, best, bi, bj)
  {
    best := None;
    bi, bj := 0, 0;
    var i := 0;
    while i < |teams|
      invariant 0 <= i <= |teams|
      invariant BestSoFar(teams, eligible, i, 0, best, bi, bj)
    {
      BestSoFarRowStart(teams, eligible, i, best, bi, bj);
      best, bi, bj := SearchRow(teams, eligible, i, best, bi, bj);
      BestSoFarRowEnd(teams, eligible, i, best, bi, bj);
      i := i + 1;
    }
  }

  /** The inner loop of the search: team i against every later team. */
  method SearchRow(teams: seq<Team>, eligible: (Team, Team) -> bool, i: nat,
                   best0: Option<BalancedTeams>, ghost bi0: nat, ghost bj0: nat)
    returns (best: Option<BalancedTeams>, ghost bi: nat, ghost bj: nat)
    requires i < |teams|
    requires BestSoFar(teams, eligible, i, i + 1, best0, bi0, bj0)
    ensures BestSoFar(teams, eligible, i, |teams|, best, bi, bj)
  {
    best, bi, bj := best0, bi0, bj0;
    var j := i + 1;
    while j < |teams|
      invariant i + 1 <= j <= |teams|
      invariant BestSoFar(teams, eligible, i, j, best, bi, bj)
    {
      best, bi, bj := ConsiderPair(teams, eligible, i, j, best, bi, bj);
      j := j + 1;
    }
  }

  /** The body of the inner loop: pair (i, j) replaces the best so far only when eligible and strictly better. */
  method ConsiderPair(teams: seq<Team>, eligible: (Team, Team) -> bool, i: nat, j: nat,
                      best0: Option<BalancedTeams>, ghost bi0: nat, ghost bj0: nat)
    returns (best: Option<BalancedTeams>, ghost bi: nat, ghost bj: nat)
    requires i < j < |teams|
    requires BestSoFar(teams, eligible, i, j, best0, bi0, bj0)
    ensures BestSoFar(teams, eligible, i, j + 1, best, bi, bj)
  {
    best, bi, bj := best0, bi0, bj0;
    var team1 := teams[i];
    var team2 := teams[j];
    if eligible(team1, team2) {
      var balanceScore := ScoreUtils.CalculateTeamBalance(team1.totalScore, team2.totalScore);
      if best.None? || balanceScore < best.value.balanceScore {
        best := Some(BalancedTeams(team1, team2, balanceScore));
        bi, bj := i, j;
      }
    }
    BestSoFarStep(teams, eligible, i, j, best0, bi0, bj0, best, bi, bj);
  }

  /**
   * findBalancedTeams: nothing for fewer than 4 players; otherwise the first
   * pair of teams, in loop order, of minimal imbalance among those that share
   * no player and contain no recent pairing; nothing when there is none.
   */
  method FindBalancedTeams(players: seq<Player>, recentMatches: seq<Types.UIMatch>)
    returns (r: Option<BalancedTeams>, ghost bi: nat, ghost bj: nat)
    requires MatchUtils.AllComplete(recentMatches)
    ensures |players| < 4 ==> r.None?
    ensures |players| >= 4 ==>
      BestSoFar(TeamsOf(players), EligibleUnder(MatchUtils.RecentKeys(recentMatches)), |TeamsOf(players)|, 0, r, bi, bj)
  {
    bi, bj := 0, 0;
    if |players| < 4 {
      return None, bi, bj;
    }
    var teams := GenerateTeamCombinations(players);
    var recentPairings := MatchUtils.GetRecentTeamPairings(recentMatches);
    r, bi, bj := SearchBestPair(teams, EligibleUnder(recentPairings));
  }

  /** The chosen teams come from the list, never share a player and neither is a recent pairing. */
  lemma ChosenTeamsEligible(teams: seq<Team>, recent: set<string>, best: Option<BalancedTeams>, bi: nat, bj: nat)
    requires BestSoFar(teams, EligibleUnder(recent), |teams|, 0, best, bi, bj) && best.Some?
    ensures best.value.team1 in teams && best.value.team2 in teams
    ensures !SharePlayer(best.value.team1, best.value.team2)
    ensures !IsRecent(best.value.team1, recent) && !IsRecent(best.value.team2, recent)
    ensures best.value.balanceScore == Balance(best.value.team1, best.value.team2)
  {
  }

  /** Some pair of distinct list positions is eligible. */
  ghost predicate HasEligiblePair(teams: seq<Team>, recent: set<string>)
  {
    exists a, b :: 0 <= a < b < |teams| && Eligible(teams[a], teams[b], recent)
  }

  /** The search finds nothing exactly when no pair is eligible. */
  lemma NothingFoundIffNoEligiblePair(teams: seq<Team>, recent: set<string>, best: Option<BalancedTeams>, bi: nat, bj: nat)
    requires BestSoFar(teams, EligibleUnder(recent), |teams|, 0, best, bi, bj)
    ensures best.None? <==> !HasEligiblePair(teams, recent)
  {
    if best.Some? {
      assert Eligible(teams[bi], teams[bj], recent);
    }
  }

  // ---------------------------------------------------------------------------
  // generateBalancedTeams
  // ---------------------------------------------------------------------------

  /** No two players have the same id. */
  predicate DistinctIds(ps: seq<Player>)
  {
    forall a, b :: 0 <= a < b < |ps| ==> ps[a].id != ps[b].id
  }

  /** With four players of distinct ids, teams {0,1} and {2,3} form an eligible pair when nothing is recent. */
  lemma SomeEligiblePair(ps: seq<Player>)
    requires |ps| >= 4 && DistinctIds(ps)
    ensures var i := RowStart(|ps|, 2);
      0 < i < |TeamsOf(ps)| && Eligible(TeamsOf(ps)[0], TeamsOf(ps)[i], {})
  {
    TeamAt(ps, 0, 1);
    TeamAt(ps, 2, 3);
    assert RowStart(|ps|, 2) == 2 * |ps| - 3;
  }

  /** `g` holds the pair that the completed search over `teams` under `ok` returns: the first eligible pair of least imbalance. */
  ghost predicate SearchResult(teams: seq<Team>, ok: (Team, Team) -> bool, g: GeneratedTeams)
  {
    exists bi: nat, bj: nat ::
      BestSoFar(teams, ok, |teams|, 0, Some(BalancedTeams(g.team1, g.team2, Balance(g.team1, g.team2))), bi, bj)
  }

  /**
   * generateBalancedTeams: nothing for fewer than 4 players; the recent-aware
   * search's result when it found one, flagged balanced iff the totals are at
   * most 200 apart; otherwise the search repeated without recent matches.
   */
  method GenerateBalancedTeams(players: seq<Player>, recentMatches: seq<Types.UIMatch>) returns (r: Option<GeneratedTeams>)
    requires MatchUtils.AllComplete(recentMatches)
    ensures |players| < 4 ==> r.None?
    ensures |players| >= 4 && DistinctIds(players) ==> r.Some?
    ensures r.Some? ==>
      (r.value.isBalanced <==> ScoreUtils.AreTeamsBalanced(r.value.team1.totalScore, r.value.team2.totalScore))
    ensures r.Some? ==> !SharePlayer(r.value.team1, r.value.team2)
    ensures r.Some? ==> r.value.team1 in TeamsOf(players) && r.value.team2 in TeamsOf(players)
    ensures |players| >= 4 && HasEligiblePair(TeamsOf(players), MatchUtils.RecentKeys(recentMatches)) ==>
      r.Some? &&
      !IsRecent(r.value.team1, MatchUtils.RecentKeys(recentMatches)) &&
      !IsRecent(r.value.team2, MatchUtils.RecentKeys(recentMatches)) &&
      SearchResult(TeamsOf(players), EligibleUnder(MatchUtils.RecentKeys(recentMatches)), r.value)
    ensures |players| >= 4 && !HasEligiblePair(TeamsOf(players), MatchUtils.RecentKeys(recentMatches)) && r.Some? ==>
      SearchResult(TeamsOf(players), EligibleUnder({}), r.value)
  {
    if |players| < 4 {
      return None;
    }
    ghost var teams := TeamsOf(players);
    ghost var recent := MatchUtils.RecentKeys(recentMatches);
    var balancedTeams, bi, bj := FindBalancedTeams(players, recentMatches);
    NothingFoundIffNoEligiblePair(teams, recent, balancedTeams, bi, bj);
    if balancedTeams.Some? {
      ChosenTeamsEligible(teams, recent, balancedTeams, bi, bj);
      var team1, team2 := balancedTeams.value.team1, balancedTeams.value.team2;
      if ScoreUtils.AreTeamsBalanced(team1.totalScore, team2.totalScore) {
        return Some(GeneratedTeams(team1, team2, true));
      }
      return Some(GeneratedTeams(team1, team2, false));
    }
    assert MatchUtils.RecentKeys([]) == {};
    var fallbackTeams, fi, fj := FindBalancedTeams(players, []);
    NothingFoundIffNoEligiblePair(teams, {}, fallbackTeams, fi, fj);
    if fallbackTeams.Some? {
      ChosenTeamsEligible(teams, {}, fallbackTeams, fi, fj);
      var team1, team2 := fallbackTeams.value.team1, fallbackTeams.value.team2;
      return Some(GeneratedTeams(team1, team2, ScoreUtils.AreTeamsBalanced(team1.totalScore, team2.totalScore)));
    }
    if DistinctIds(players) {
      SomeEligiblePair(players);
    }
    return None;
  }

  // ---------------------------------------------------------------------------
  // shuffleArray, generateRandomTeams
  // ---------------------------------------------------------------------------

  /**
   * shuffleArray: Fisher-Yates on a fresh copy. `rand[i]` stands for the
   * random draw of step i; the swap partner is `rand[i] % (i + 1)`.
   */
  method ShuffleArray<T>(input: array<T>, rand: seq<nat>) returns (shuffled: array<T>)
    requires |rand| == input.Length
    ensures fresh(shuffled)
    ensures shuffled.Length == input.Length
    ensures multiset(shuffled[..]) == multiset(input[..])
  {
    shuffled := new T[input.Length](k requires 0 <= k < input.Length reads input => input[k]);
    assert shuffled[..] == input[..];
    var i := shuffled.Length - 1;
    while i > 0
      invariant -1 <= i < shuffled.Length || shuffled.Length == 0
      invariant multiset(shuffled[..]) == multiset(input[..])
      modifies shuffled
    {
      var j := rand[i] % (i + 1);
      shuffled[i], shuffled[j] := shuffled[j], shuffled[i];
      i := i - 1;
    }
  }

  /** The first four shuffled players are four different entries of the input. */
  lemma FirstFourFromInput(players: seq<Player>, s: seq<Player>)
    requires |players| >= 4 && |s| == |players| && multiset(s) == multiset(players)
    ensures multiset(s[..4]) <= multiset(players)
  {
    assert s == s[..4] + s[4..];
  }

  /** Entries of a permutation of a list with distinct ids have distinct ids. */
  lemma PermutationKeepsDistinctIds(players: seq<Player>, s: seq<Player>)
    requires multiset(s) == multiset(players) && DistinctIds(players)
    ensures DistinctIds(s)
  {
    forall a, b | 0 <= a < b < |s|
      ensures s[a].id != s[b].id
    {
      assert s[a] in multiset(players) && s[b] in multiset(players);
      var x :| 0 <= x < |players| && players[x] == s[a];
      var y :| 0 <= y < |players| && players[y] == s[b];
      if x == y {
        RepeatMultiplicity(s, a, b);
        assert Distinct(players) by {
          forall p, q | 0 <= p < q < |players| ensures players[p] != players[q] { }
        }
        DistinctMultiplicity(players, s[a]);
      }
    }
  }

  /**
   * generateRandomTeams: nothing for fewer than 4 players; otherwise the first
   * two shuffled players against the next two.
   */
  method GenerateRandomTeams(players: seq<Player>, rand: seq<nat>) returns (r: Option<RandomTeams>)
    requires |rand| == |players|
    ensures r.None? <==> |players| < 4
    ensures r.Some? ==>
      multiset([r.value.team1.player1, r.value.team1.player2, r.value.team2.player1, r.value.team2.player2]) <= multiset(players)
    ensures r.Some? ==> r.value.team1.totalScore == r.value.team1.player1.score + r.value.team1.player2.score
    ensures r.Some? ==> r.value.team2.totalScore == r.value.team2.player1.score + r.value.team2.player2.score
    ensures r.Some? && DistinctIds(players) ==> !SharePlayer(r.value.team1, r.value.team2)
  {
    if |players| < 4 {
      return None;
    }
    var input := new Player[|players|](k requires 0 <= k < |players| => players[k]);
    assert input[..] == players;
    var shuffledArray := ShuffleArray(input, rand);
    var s := shuffledArray[..];
    FirstFourFromInput(players, s);
    assert s[..4] == [s[0], s[1], s[2], s[3]];
    if DistinctIds(players) {
      PermutationKeepsDistinctIds(players, s);
    }
    var team1 := MakeTeam(s[0], s[1]);
    var team2 := MakeTeam(s[2], s[3]);
    return Some(RandomTeams(team1, team2));
  }
}
