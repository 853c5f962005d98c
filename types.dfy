/** The records the utilities exchange (src/types/index.ts). */
module Types {
  import opened Wrappers

  datatype Gender = Male | Female

  /** A player record; `score` is the skill rating (a float in the database). */
  datatype Player = Player(id: string, name: string, avatarUrl: Option<string>, gender: Gender, score: real)

  /** A team of the UI. A player slot is `None` where the source leaves it `undefined`. */
  datatype Team = Team(id: string, player1: Option<Player>, player2: Option<Player>, totalScore: real)
  {
    /** Both player slots are filled. */
    predicate Complete()
    {
      player1.Some? && player2.Some?
    }
  }

  datatype Winner = Team1 | Team2

  /** A match as the UI shows it; `team1Score`/`team2Score` are game points. */
  datatype UIMatch = UIMatch(
    id: string,
    team1: Team,
    team2: Team,
    team1Score: int,
    team2Score: int,
    winner: Option<Winner>,
    createdAt: string,
    updatedAt: string)
  {
    predicate Complete()
    {
      team1.Complete() && team2.Complete()
    }
  }
}
