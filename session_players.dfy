/**
 * The session generator's per-player bookkeeping (src/utils/sessionGenerator.ts):
 * the internal player record, the fresh copy made at the start of a session,
 * and the backwards walk that counts consecutive matches.
 */
module SessionPlayers {
  import Types

  /**
   * A player with the counters the generator keeps: matches played so far,
   * the index of the last match played (-1 before the first), and the ids of
   * the partners the player has been teamed with.
   */
  datatype InternalPlayer = InternalPlayer(
    player: Types.Player,
    matchesPlayed: nat,
    lastPlayed: int,
    lastTeamPartners: set<string>)

  /** clonePlayers: one fresh record per input player, counters reset. */
  function ClonePlayers(players: seq<Types.Player>): (r: seq<InternalPlayer>)
    ensures |r| == |players|
    ensures forall k :: 0 <= k < |r| ==>
      r[k].player == players[k] && r[k].matchesPlayed == 0 && r[k].lastPlayed == -1 && r[k].lastTeamPartners == {}
  {
    seq(|players|, k requires 0 <= k < |players| => InternalPlayer(players[k], 0, -1, {}))
  }

  /**
   * The walk over match indices i, i-1, ..., 0 that counts while the player's
   * `lastPlayed` equals the index and stops at the first index where it does not.
   */
  function Walk(lastPlayed: int, i: int): nat
    decreases if i < 0 then 0 else i + 1
  {
    if i < 0 || lastPlayed != i then 0 else 1 + Walk(lastPlayed, i - 1)
  }

  /** The consecutive-match count of a player before match `matchIndex`. */
  function ConsecutiveMatches(p: InternalPlayer, matchIndex: nat): nat
  {
    Walk(p.lastPlayed, matchIndex - 1)
  }

  /**
   * `lastPlayed` holds a single index, so the walk never counts past 1: it
   * counts 1 exactly when the player played the match just before.
   */
  lemma {:induction false} WalkAtMostOne(lastPlayed: int, i: int)
    ensures Walk(lastPlayed, i) <= 1
    ensures Walk(lastPlayed, i) == 1 <==> 0 <= i && lastPlayed == i
  {
    if 0 <= i && lastPlayed == i {
      assert Walk(lastPlayed, i - 1) == 0;
    }
  }

  lemma ConsecutiveAtMostOne(p: InternalPlayer, matchIndex: nat)
    ensures ConsecutiveMatches(p, matchIndex) <= 1
    ensures ConsecutiveMatches(p, matchIndex) == 1 <==> matchIndex >= 1 && p.lastPlayed == matchIndex - 1
  {
    WalkAtMostOne(p.lastPlayed, matchIndex - 1);
  }

  /** The counting loop itself, run for one player. */
  method CountConsecutive(p: InternalPlayer, matchIndex: nat) returns (consecutiveMatches: nat)
    ensures consecutiveMatches == ConsecutiveMatches(p, matchIndex)
  {
    consecutiveMatches := 0;
    var i: int := matchIndex - 1;
    while i >= 0
      invariant -1 <= i <= matchIndex - 1
      invariant consecutiveMatches + Walk(p.lastPlayed, i) == Walk(p.lastPlayed, matchIndex - 1)
      decreases i + 1
    {
      if p.lastPlayed == i {
        consecutiveMatches := consecutiveMatches + 1;
      } else {
        break;
      }
      i := i - 1;
    }
  }
}
