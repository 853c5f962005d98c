/** Team balance, the winner rule and the rating change after a match (src/utils/scoreUtils.ts). */
module ScoreUtils {
  import opened Wrappers
  import opened Types

  const KFactor: real := 32.0
  const CloseMatchMargin: int := 2
  const CloseMatchBonus: int := 5
  const DefaultBalanceThreshold: real := 200.0

  /** `Math.abs(team1Score - team2Score)`: how far apart two team totals are. */
  function CalculateTeamBalance(team1Score: real, team2Score: real): (r: real)
    ensures r >= 0.0
    ensures r == team1Score - team2Score || r == team2Score - team1Score
    ensures r == 0.0 <==> team1Score == team2Score
  {
    if team1Score >= team2Score then team1Score - team2Score else team2Score - team1Score
  }

  /** The balance does not depend on which team is named first. */
  lemma BalanceSymmetric(a: real, b: real)
    ensures CalculateTeamBalance(a, b) == CalculateTeamBalance(b, a)
  {
  }

  /** Two totals are balanced when they are at most `threshold` apart (200 by default). */
  function AreTeamsBalanced(team1Score: real, team2Score: real, threshold: real := DefaultBalanceThreshold): (r: bool)
    ensures r <==> -threshold <= team1Score - team2Score <= threshold
  {
    CalculateTeamBalance(team1Score, team2Score) <= threshold
  }

  /** A tie has no winner; otherwise the higher score wins. */
  function DetermineWinner(team1Score: int, team2Score: int): (r: Option<Winner>)
    ensures r.None? <==> team1Score == team2Score
    ensures r == Some(Team1) <==> team1Score > team2Score
    ensures r == Some(Team2) <==> team1Score < team2Score
  {
    if team1Score == team2Score then None
    else if team1Score > team2Score then Some(Team1) else Some(Team2)
  }

  function Other(w: Winner): Winner
  {
    if w == Team1 then Team2 else Team1
  }

  /** Swapping the two scores swaps a non-null winner. */
  lemma DetermineWinnerSwap(a: int, b: int)
    ensures DetermineWinner(b, a) == if a == b then None else Some(Other(DetermineWinner(a, b).value))
  {
  }

  /** `Math.round`: the nearest integer, halves rounded up. */
  function Round(x: real): (r: int)
    ensures x - 0.5 < r as real <= x + 0.5
  {
    (x + 0.5).Floor
  }

  /** The close-match bonus: 5 when the game scores are at most 2 apart. */
  function Bonus(team1Score: int, team2Score: int): (b: int)
    ensures b == CloseMatchBonus || b == 0
  {
    var diff := if team1Score >= team2Score then team1Score - team2Score else team2Score - team1Score;
    if diff <= CloseMatchMargin then CloseMatchBonus else 0
  }

  datatype ScoreChange = ScoreChange(playerId: string, scoreChange: int)

  /** The rating changes after a match, one per player in the order team1.player1, team1.player2,
      team2.player1, team2.player2. `team1Expected` is the logistic expected result of team 1, a value in
      [0, 1] computed in floating point by the source; it is a parameter here. */
  function CalculateScoreChanges(m: UIMatch, team1Score: int, team2Score: int, winner: Winner, team1Expected: real)
    : (r: seq<ScoreChange>)
    requires m.Complete()
    requires 0.0 <= team1Expected <= 1.0
    ensures |r| == 4
    ensures r[0].playerId == m.team1.player1.value.id && r[1].playerId == m.team1.player2.value.id
    ensures r[2].playerId == m.team2.player1.value.id && r[3].playerId == m.team2.player2.value.id
    ensures r[0].scoreChange == r[1].scoreChange && r[2].scoreChange == r[3].scoreChange
    ensures winner == Team1 ==>
      0 <= r[0].scoreChange - Bonus(team1Score, team2Score) <= 32 &&
      -32 <= r[2].scoreChange - Bonus(team1Score, team2Score) <= 0
    ensures winner == Team2 ==>
      -32 <= r[0].scoreChange - Bonus(team1Score, team2Score) <= 0 &&
      0 <= r[2].scoreChange - Bonus(team1Score, team2Score) <= 32
  {
    var team2Expected := 1.0 - team1Expected;
    var team1Actual := if winner == Team1 then 1.0 else 0.0;
    var team2Actual := if winner == Team2 then 1.0 else 0.0;
    var team1Change := Round(KFactor * (team1Actual - team1Expected));
    var team2Change := Round(KFactor * (team2Actual - team2Expected));
    var bonus := Bonus(team1Score, team2Score);
    [ ScoreChange(m.team1.player1.value.id, team1Change + bonus),
      ScoreChange(m.team1.player2.value.id, team1Change + bonus),
      ScoreChange(m.team2.player1.value.id, team2Change + bonus),
      ScoreChange(m.team2.player2.value.id, team2Change + bonus) ]
  }

  /** A close game (scores at most 2 apart) adds exactly 5 to every change compared with a game that is not close,
      all else equal. */
  lemma CloseMatchAddsBonus(m: UIMatch, a: int, b: int, a': int, b': int, winner: Winner, e: real)
    requires m.Complete() && 0.0 <= e <= 1.0
    requires -2 <= a - b <= 2
    requires a' - b' > 2 || b' - a' > 2
    ensures forall k :: 0 <= k < 4 ==>
      CalculateScoreChanges(m, a, b, winner, e)[k].scoreChange ==
      CalculateScoreChanges(m, a', b', winner, e)[k].scoreChange + 5
  {
  }
}
