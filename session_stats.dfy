/**
 * Committing a match: updatePlayerStats in src/utils/sessionGenerator.ts
 * updates the live player objects of both teams in place. The roster is an
 * array of player records and the teams are positions into it.
 */
module SessionStats {
  import opened SeqUtils
  import opened SessionPlayers
  import opened SessionScoring

  /** The ids of the players at `team` other than `own`, as the inner forEach adds them. */
  function TeamIds(players: seq<InternalPlayer>, team: seq<nat>, own: string): set<string>
    requires InRoster(players, team)
  {
    if team == [] then {}
    else
      var id := players[team[|team| - 1]].player.id;
      TeamIds(players, team[..|team| - 1], own) + (if id != own then {id} else {})
  }

  /** A partner id is one of the team's ids and never the player's own. */
  lemma {:induction false} TeamIdsSpec(players: seq<InternalPlayer>, team: seq<nat>, own: string, id: string)
    requires InRoster(players, team)
    ensures id in TeamIds(players, team, own) <==>
      id != own && exists i :: 0 <= i < |team| && players[team[i]].player.id == id
  {
    if team != [] {
      var front := team[..|team| - 1];
      TeamIdsSpec(players, front, own, id);
      if id != own && (exists i :: 0 <= i < |team| && players[team[i]].player.id == id) {
        var i :| 0 <= i < |team| && players[team[i]].player.id == id;
        if i < |front| {
          assert front[i] == team[i];
        }
      }
    }
  }

  /** Only the ids are read, so rosters with the same players give the same partner ids. */
  lemma {:induction false} TeamIdsSamePlayers(a: seq<InternalPlayer>, b: seq<InternalPlayer>, team: seq<nat>, own: string)
    requires |a| == |b| && forall j :: 0 <= j < |a| ==> a[j].player == b[j].player
    requires InRoster(a, team)
    ensures InRoster(b, team) && TeamIds(a, team, own) == TeamIds(b, team, own)
  {
    if team != [] {
      TeamIdsSamePlayers(a, b, team[..|team| - 1], own);
    }
  }

  /** One player of a team after the match: one more match, last played now, team-mates remembered. */
  function Played(p: InternalPlayer, players: seq<InternalPlayer>, team: seq<nat>, matchIndex: nat): (r: InternalPlayer)
    requires InRoster(players, team)
    ensures r.player == p.player && r.matchesPlayed == p.matchesPlayed + 1 && r.lastPlayed == matchIndex
    ensures r.lastTeamPartners == p.lastTeamPartners + TeamIds(players, team, p.player.id)
  {
    InternalPlayer(p.player, p.matchesPlayed + 1, matchIndex, p.lastTeamPartners + TeamIds(players, team, p.player.id))
  }

  /** The roster after the first `t` players of the team have been updated, in order. */
  function AfterTeam(players: seq<InternalPlayer>, team: seq<nat>, matchIndex: nat, t: nat): (r: seq<InternalPlayer>)
    requires InRoster(players, team) && t <= |team|
    ensures |r| == |players|
  {
    if t == 0 then players
    else
      var q := AfterTeam(players, team, matchIndex, t - 1);
      var k := team[t - 1];
      q[k := Played(q[k], q, team, matchIndex)]
  }

  /** Updating a team changes records, never which player sits at a position. */
  lemma {:induction false} AfterTeamPlayers(players: seq<InternalPlayer>, team: seq<nat>, matchIndex: nat, t: nat)
    requires InRoster(players, team) && t <= |team|
    ensures forall j :: 0 <= j < |players| ==> AfterTeam(players, team, matchIndex, t)[j].player == players[j].player
  {
    if t > 0 {
      AfterTeamPlayers(players, team, matchIndex, t - 1);
    }
  }

  /** The roster after the whole match: team1's players first, then team2's. */
  function AfterMatch(players: seq<InternalPlayer>, team1: seq<nat>, team2: seq<nat>, matchIndex: nat): (r: seq<InternalPlayer>)
    requires InRoster(players, team1) && InRoster(players, team2)
    ensures |r| == |players|
    ensures forall j :: 0 <= j < |players| ==> r[j].player == players[j].player
  {
    var mid := AfterTeam(players, team1, matchIndex, |team1|);
    AfterTeamPlayers(players, team1, matchIndex, |team1|);
    AfterTeamPlayers(mid, team2, matchIndex, |team2|);
    AfterTeam(mid, team2, matchIndex, |team2|)
  }

  /** The forEach over one team. */
  method UpdateTeam(players: array<InternalPlayer>, team: seq<nat>, matchIndex: nat)
    requires InRoster(players[..], team)
    modifies players
    ensures players[..] == AfterTeam(old(players[..]), team, matchIndex, |team|)
  {
    for t := 0 to |team|
      invariant players[..] == AfterTeam(old(players[..]), team, matchIndex, t)
    {
      var k := team[t];
      var p := players[k];
      var partners := p.lastTeamPartners;
      for u := 0 to |team|
        invariant partners == p.lastTeamPartners + TeamIds(players[..], team[..u], p.player.id)
      {
        assert team[..u + 1][..u] == team[..u];
        var partner := players[team[u]];
        if partner.player.id != p.player.id {
          partners := partners + {partner.player.id};
        }
      }
      assert team[..|team|] == team;
      players[k] := InternalPlayer(p.player, p.matchesPlayed + 1, matchIndex, partners);
    }
  }

  /** updatePlayerStats. */
  method UpdatePlayerStats(players: array<InternalPlayer>, team1: seq<nat>, team2: seq<nat>, matchIndex: nat)
    requires InRoster(players[..], team1) && InRoster(players[..], team2)
    modifies players
    ensures players[..] == AfterMatch(old(players[..]), team1, team2, matchIndex)
  {
    UpdateTeam(players, team1, matchIndex);
    UpdateTeam(players, team2, matchIndex);
  }

  // ---------------------------------------------------------------------------
  // What a match changes
  // ---------------------------------------------------------------------------

  /**
   * With no position twice in the team, exactly the team's players change,
   * each once, and each remembers the ids of its own team-mates.
   */
  lemma {:induction false} AfterTeamEffect(players: seq<InternalPlayer>, team: seq<nat>, matchIndex: nat, t: nat)
    requires InRoster(players, team) && t <= |team| && Distinct(team)
    ensures forall k :: 0 <= k < |players| && k in team[..t] ==>
      AfterTeam(players, team, matchIndex, t)[k] == Played(players[k], players, team, matchIndex)
    ensures forall k :: 0 <= k < |players| && k !in team[..t] ==>
      AfterTeam(players, team, matchIndex, t)[k] == players[k]
  {
    if t > 0 {
      AfterTeamEffect(players, team, matchIndex, t - 1);
      AfterTeamPlayers(players, team, matchIndex, t - 1);
      var q := AfterTeam(players, team, matchIndex, t - 1);
      TeamIdsSamePlayers(q, players, team, players[team[t - 1]].player.id);
      assert team[..t] == team[..t - 1] + [team[t - 1]];
      assert team[t - 1] !in team[..t - 1];
    }
  }

  /**
   * The match changes the four players and nobody else: each gets one more
   * match, last played at `matchIndex`, and adds its own team-mates' ids.
   */
  lemma AfterMatchEffect(players: seq<InternalPlayer>, team1: seq<nat>, team2: seq<nat>, matchIndex: nat)
    requires InRoster(players, team1) && InRoster(players, team2) && Distinct(team1 + team2)
    ensures forall k :: 0 <= k < |players| && k in team1 ==>
      AfterMatch(players, team1, team2, matchIndex)[k] == Played(players[k], players, team1, matchIndex)
    ensures forall k :: 0 <= k < |players| && k in team2 ==>
      AfterMatch(players, team1, team2, matchIndex)[k] == Played(players[k], players, team2, matchIndex)
    ensures forall k :: 0 <= k < |players| && k !in team1 && k !in team2 ==>
      AfterMatch(players, team1, team2, matchIndex)[k] == players[k]
  {
    DistinctAppend(team1, team2);
    assert team1[..|team1|] == team1;
    assert team2[..|team2|] == team2;
    var mid := AfterTeam(players, team1, matchIndex, |team1|);
    AfterTeamEffect(players, team1, matchIndex, |team1|);
    AfterTeamEffect(mid, team2, matchIndex, |team2|);
    TeamIdsSamePlayers(mid, players, team2, "");
    forall k | 0 <= k < |players| && k in team2
      ensures AfterMatch(players, team1, team2, matchIndex)[k] == Played(players[k], players, team2, matchIndex)
    {
      TeamIdsSamePlayers(mid, players, team2, players[k].player.id);
    }
  }

  // ---------------------------------------------------------------------------
  // Matches played, in total
  // ---------------------------------------------------------------------------

  /** Σ matchesPlayed over the roster. */
  function TotalPlayed(players: seq<InternalPlayer>): nat
  {
    if players == [] then 0 else players[0].matchesPlayed + TotalPlayed(players[1..])
  }

  lemma {:induction false} TotalPlayedUpdate(players: seq<InternalPlayer>, k: nat, x: InternalPlayer)
    requires k < |players|
    ensures TotalPlayed(players[k := x]) + players[k].matchesPlayed == TotalPlayed(players) + x.matchesPlayed
  {
    if k == 0 {
      assert players[k := x][1..] == players[1..];
    } else {
      assert players[k := x][1..] == players[1..][k - 1 := x];
      TotalPlayedUpdate(players[1..], k - 1, x);
    }
  }

  lemma {:induction false} AfterTeamTotal(players: seq<InternalPlayer>, team: seq<nat>, matchIndex: nat, t: nat)
    requires InRoster(players, team) && t <= |team|
    ensures TotalPlayed(AfterTeam(players, team, matchIndex, t)) == TotalPlayed(players) + t
  {
    if t > 0 {
      AfterTeamTotal(players, team, matchIndex, t - 1);
      var q := AfterTeam(players, team, matchIndex, t - 1);
      var k := team[t - 1];
      TotalPlayedUpdate(q, k, Played(q[k], q, team, matchIndex));
    }
  }

  /** Each match adds one match for each of its players to the roster's total. */
  lemma AfterMatchTotal(players: seq<InternalPlayer>, team1: seq<nat>, team2: seq<nat>, matchIndex: nat)
    requires InRoster(players, team1) && InRoster(players, team2)
    ensures TotalPlayed(AfterMatch(players, team1, team2, matchIndex)) == TotalPlayed(players) + |team1| + |team2|
  {
    AfterTeamTotal(players, team1, matchIndex, |team1|);
    var mid := AfterTeam(players, team1, matchIndex, |team1|);
    AfterTeamTotal(mid, team2, matchIndex, |team2|);
  }
}
