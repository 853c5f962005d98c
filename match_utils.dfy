/**
 * Database rows to UI matches, the per-player match filter and the
 * "recent pairing" keys the balancer avoids (src/utils/matchUtils.ts).
 */
module MatchUtils {
  import opened Wrappers
  import opened Strings
  import opened SeqUtils
  import opened Types
  import opened ScoreUtils

  /** A `match_players` row joined with its player; `team` is 1 or 2 in well-formed data. */
  datatype MatchPlayerData = MatchPlayerData(playerId: string, team: int, players: Player)

  /** A `matches` row with its players; the game points may be missing. */
  datatype DatabaseMatch = DatabaseMatch(
    id: string,
    createdAt: string,
    team1Score: Option<int>,
    team2Score: Option<int>,
    matchPlayers: seq<MatchPlayerData>)

  /** The players of the rows on side `team`, in row order. */
  function TeamPlayers(rows: seq<MatchPlayerData>, team: int): (r: seq<Player>)
    ensures |r| <= |rows|
    ensures forall p :: p in r <==> exists row :: row in rows && row.team == team && row.players == p
  {
    if rows == [] then []
    else
      var rest := TeamPlayers(rows[1..], team);
      assert forall row :: row in rows <==> row == rows[0] || row in rows[1..];
      if rows[0].team == team then [rows[0].players] + rest else rest
  }

  /** Side selection distributes over concatenation: row order is kept. */
  lemma {:induction false} TeamPlayersAppend(a: seq<MatchPlayerData>, b: seq<MatchPlayerData>, team: int)
    ensures TeamPlayers(a + b, team) == TeamPlayers(a, team) + TeamPlayers(b, team)
  {
    if a == [] {
      assert a + b == b;
    } else {
      assert (a + b)[0] == a[0];
      assert (a + b)[1..] == a[1..] + b;
      TeamPlayersAppend(a[1..], b, team);
    }
  }

  /** `p0?.score + p1?.score || 0`: the sum of the first two scores, 0 when either is missing. */
  function TeamTotal(ps: seq<Player>): real
  {
    if |ps| >= 2 then ps[0].score + ps[1].score else 0.0
  }

  function At(ps: seq<Player>, i: nat): Option<Player>
  {
    if i < |ps| then Some(ps[i]) else None
  }

  /** The UI team of one side of a match. */
  function SideTeam(id: string, ps: seq<Player>): (t: Team)
    ensures t.id == id
    ensures t.Complete() <==> |ps| >= 2
    ensures t.Complete() ==> t.player1.value == ps[0] && t.player2.value == ps[1]
    ensures t.Complete() ==> t.totalScore == t.player1.value.score + t.player2.value.score
    ensures !t.Complete() ==> t.totalScore == 0.0
  {
    Team(id, At(ps, 0), At(ps, 1), TeamTotal(ps))
  }

  /** `a || 0` on an optional number: missing becomes 0. */
  function OrZero(s: Option<int>): int
  {
    if s.Some? then s.value else 0
  }

  /**
   * The stored winner rule: no winner unless both game scores are present and
   * nonzero; then team1 exactly when its score is higher, otherwise team2.
   */
  function StoredWinner(team1Score: Option<int>, team2Score: Option<int>): (r: Option<Winner>)
    ensures r.None? <==> OrZero(team1Score) == 0 || OrZero(team2Score) == 0
    ensures r == Some(Team1) <==> OrZero(team1Score) != 0 && OrZero(team2Score) != 0 && OrZero(team1Score) > OrZero(team2Score)
  {
    if team1Score.Some? && team1Score.value != 0 && team2Score.Some? && team2Score.value != 0 then
      (if team1Score.value > team2Score.value then Some(Team1) else Some(Team2))
    else None
  }

  /** With two nonzero, unequal scores the stored rule agrees with determineWinner. */
  lemma StoredWinnerAgrees(a: int, b: int)
    requires a != 0 && b != 0 && a != b
    ensures StoredWinner(Some(a), Some(b)) == DetermineWinner(a, b)
  {
  }

  /** A nonzero tie is credited to team2, where determineWinner reports no winner. */
  lemma StoredWinnerTieGoesToTeam2(a: int)
    requires a != 0
    ensures StoredWinner(Some(a), Some(a)) == Some(Team2)
    ensures DetermineWinner(a, a).None?
  {
  }

  /** One database match as a UI match. */
  function TransformMatch(m: DatabaseMatch): (u: UIMatch)
    ensures u.id == m.id && u.createdAt == m.createdAt && u.updatedAt == m.createdAt
    ensures u.team1.id == "team1-" + m.id && u.team2.id == "team2-" + m.id
    ensures u.team1Score == OrZero(m.team1Score) && u.team2Score == OrZero(m.team2Score)
    ensures u.winner == StoredWinner(m.team1Score, m.team2Score)
  {
    UIMatch(
      m.id,
      SideTeam("team1-" + m.id, TeamPlayers(m.matchPlayers, 1)),
      SideTeam("team2-" + m.id, TeamPlayers(m.matchPlayers, 2)),
      OrZero(m.team1Score),
      OrZero(m.team2Score),
      StoredWinner(m.team1Score, m.team2Score),
      m.createdAt,
      m.createdAt)
  }

  /**
   * A match whose rows are p, q on side 1 then r, s on side 2 becomes two
   * complete teams, in row order, whose totals are the score sums.
   */
  lemma TransformFullMatch(m: DatabaseMatch, p: MatchPlayerData, q: MatchPlayerData, r: MatchPlayerData, s: MatchPlayerData)
    requires m.matchPlayers == [p, q, r, s]
    requires p.team == 1 && q.team == 1 && r.team == 2 && s.team == 2
    ensures TransformMatch(m).Complete()
    ensures TransformMatch(m).team1.player1 == Some(p.players) && TransformMatch(m).team1.player2 == Some(q.players)
    ensures TransformMatch(m).team2.player1 == Some(r.players) && TransformMatch(m).team2.player2 == Some(s.players)
    ensures TransformMatch(m).team1.totalScore == p.players.score + q.players.score
    ensures TransformMatch(m).team2.totalScore == r.players.score + s.players.score
  {
    var rows := m.matchPlayers;
    assert rows[1..] == [q, r, s] && rows[2..] == [r, s] && rows[3..] == [s] && rows[4..] == [];
    assert rows[1..][1..] == rows[2..] && rows[2..][1..] == rows[3..] && rows[3..][1..] == rows[4..];
    assert TeamPlayers(rows[3..], 1) == [] && TeamPlayers(rows[3..], 2) == [s.players];
    assert TeamPlayers(rows[2..], 1) == [] && TeamPlayers(rows[2..], 2) == [r.players, s.players];
    assert TeamPlayers(rows[1..], 1) == [q.players] && TeamPlayers(rows[1..], 2) == [r.players, s.players];
    assert TeamPlayers(rows, 1) == [p.players, q.players];
    assert TeamPlayers(rows, 2) == [r.players, s.players];
  }

  /** transformMatchesToUI: the matches mapped one by one, count and order kept. */
  function TransformMatchesToUI(matches: seq<DatabaseMatch>): (r: seq<UIMatch>)
    ensures |r| == |matches|
    ensures forall i :: 0 <= i < |matches| ==> r[i] == TransformMatch(matches[i])
  {
    seq(|matches|, i requires 0 <= i < |matches| => TransformMatch(matches[i]))
  }

  /** Some `match_players` row of `m` is for `playerId`. */
  predicate Played(m: DatabaseMatch, playerId: string)
  {
    exists row :: row in m.matchPlayers && row.playerId == playerId
  }

  /** filterMatchesByPlayer: the matches `playerId` took part in. */
  function FilterMatchesByPlayer(matches: seq<DatabaseMatch>, playerId: string): (r: seq<DatabaseMatch>)
    ensures |r| <= |matches|
    ensures forall m :: m in r <==> m in matches && Played(m, playerId)
  {
    Filter(matches, m => Played(m, playerId))
  }

  /** The filter keeps input order: filtering a concatenation concatenates the filtered parts. */
  lemma FilterMatchesByPlayerAppend(a: seq<DatabaseMatch>, b: seq<DatabaseMatch>, playerId: string)
    ensures FilterMatchesByPlayer(a + b, playerId) == FilterMatchesByPlayer(a, playerId) + FilterMatchesByPlayer(b, playerId)
  {
    FilterAppend(a, b, m => Played(m, playerId));
  }

  /** `[a, b].sort().join('-')`: the two ids in string order, joined by '-'. */
  function PairingKey(a: string, b: string): (k: string)
    ensures k == a + "-" + b || k == b + "-" + a
  {
    if LexLe(a, b) then a + "-" + b else b + "-" + a
  }

  /** The key of a pairing does not depend on the order of the two ids. */
  lemma PairingKeySymmetric(a: string, b: string)
    ensures PairingKey(a, b) == PairingKey(b, a)
  {
    LexLeTotal(a, b);
    if LexLe(a, b) && LexLe(b, a) {
      LexLeAntisymmetric(a, b);
    }
  }

  function TeamKey(t: Team): string
    requires t.Complete()
  {
    PairingKey(t.player1.value.id, t.player2.value.id)
  }

  predicate AllComplete(matches: seq<UIMatch>)
  {
    forall i :: 0 <= i < |matches| ==> matches[i].Complete()
  }

  /** The keys of both teams of every match. */
  ghost function RecentKeys(matches: seq<UIMatch>): set<string>
    requires AllComplete(matches)
  {
    if matches == [] then {}
    else
      var last := matches[|matches| - 1];
      RecentKeys(matches[..|matches| - 1]) + {TeamKey(last.team1), TeamKey(last.team2)}
  }

  /** Both team keys of every match are among the keys. */
  lemma {:induction false} RecentKeysContain(matches: seq<UIMatch>, i: nat)
    requires AllComplete(matches) && i < |matches|
    ensures TeamKey(matches[i].team1) in RecentKeys(matches)
    ensures TeamKey(matches[i].team2) in RecentKeys(matches)
  {
    var n := |matches| - 1;
    if i < n {
      var front := matches[..n];
      assert front[i] == matches[i];
      RecentKeysContain(front, i);
    }
  }

  /** Every key is a team key of some match. */
  lemma {:induction false} RecentKeysOnly(matches: seq<UIMatch>, k: string)
    requires AllComplete(matches) && k in RecentKeys(matches)
    ensures exists i :: 0 <= i < |matches| && (k == TeamKey(matches[i].team1) || k == TeamKey(matches[i].team2))
  {
    var n := |matches| - 1;
    var front := matches[..n];
    if k in RecentKeys(front) {
      RecentKeysOnly(front, k);
      var i :| 0 <= i < |front| && (k == TeamKey(front[i].team1) || k == TeamKey(front[i].team2));
      assert front[i] == matches[i];
    } else {
      assert k == TeamKey(matches[n].team1) || k == TeamKey(matches[n].team2);
    }
  }

  /** At most two keys per match. */
  lemma {:induction false} RecentKeysCard(matches: seq<UIMatch>)
    requires AllComplete(matches)
    ensures |RecentKeys(matches)| <= 2 * |matches|
  {
    if matches != [] {
      var n := |matches| - 1;
      var front := matches[..n];
      RecentKeysCard(front);
      var a := RecentKeys(front);
      var k1 := TeamKey(matches[n].team1);
      var k2 := TeamKey(matches[n].team2);
      assert |a + {k1}| <= |a| + 1 by {
        if k1 in a { assert a + {k1} == a; }
      }
      assert |a + {k1} + {k2}| <= |a + {k1}| + 1 by {
        if k2 in a + {k1} { assert a + {k1} + {k2} == a + {k1}; }
      }
      assert RecentKeys(matches) == a + {k1} + {k2};
    }
  }

  /** getRecentTeamPairings: one pass over the matches adding both team keys to a set. */
  method GetRecentTeamPairings(matches: seq<UIMatch>) returns (recent: set<string>)
    requires AllComplete(matches)
    ensures recent == RecentKeys(matches)
  {
    recent := {};
    var i := 0;
    while i < |matches|
      invariant 0 <= i <= |matches|
      invariant recent == RecentKeys(matches[..i])
    {
      var m := matches[i];
      assert matches[..i + 1][..i] == matches[..i];
      recent := recent + {TeamKey(m.team1)};
      recent := recent + {TeamKey(m.team2)};
      i := i + 1;
    }
    assert matches[..|matches|] == matches;
  }

  /** isTeamPairingRecent: the order-free key of the two ids is in the set. */
  function IsTeamPairingRecent(player1Id: string, player2Id: string, recent: set<string>): bool
  {
    PairingKey(player1Id, player2Id) in recent
  }

  /** Asking about (a, b) or (b, a) gives the same answer. */
  lemma IsTeamPairingRecentSymmetric(a: string, b: string, recent: set<string>)
    ensures IsTeamPairingRecent(a, b, recent) == IsTeamPairingRecent(b, a, recent)
  {
    PairingKeySymmetric(a, b);
  }

  /** Every team of every recorded match counts as recent, with its ids in either order. */
  lemma RecordedTeamsAreRecent(matches: seq<UIMatch>, i: nat)
    requires AllComplete(matches) && i < |matches|
    ensures IsTeamPairingRecent(matches[i].team1.player1.value.id, matches[i].team1.player2.value.id, RecentKeys(matches))
    ensures IsTeamPairingRecent(matches[i].team1.player2.value.id, matches[i].team1.player1.value.id, RecentKeys(matches))
    ensures IsTeamPairingRecent(matches[i].team2.player1.value.id, matches[i].team2.player2.value.id, RecentKeys(matches))
    ensures IsTeamPairingRecent(matches[i].team2.player2.value.id, matches[i].team2.player1.value.id, RecentKeys(matches))
  {
    RecentKeysContain(matches, i);
    PairingKeySymmetric(matches[i].team1.player1.value.id, matches[i].team1.player2.value.id);
    PairingKeySymmetric(matches[i].team2.player1.value.id, matches[i].team2.player2.value.id);
  }
}
