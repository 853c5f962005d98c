/**
 * The weighted cost of a candidate split (scoreMatch in
 * src/utils/sessionGenerator.ts, with the weights of
 * src/utils/matchWeights.ts). Teams are lists of roster positions; the
 * players' records are read from the roster.
 */
module SessionScoring {
  import opened Types
  import opened SeqUtils
  import opened SessionPlayers

  // MatchWeights. `balance` is declared but never read: the balance term uses
  // the literal multiplier 100.
  const BalanceWeight: real := 1.0
  const FatigueWeight: real := 2.0
  const NoRestWeight: real := 1.0
  const FatigueFactorMale: real := 0.2
  const FatigueFactorFemale: real := 0.3
  const NoRestPenalty: real := 1.0

  const BalanceMultiplier: real := 100.0
  const RepetitionMultiplier: real := 10.0

  /** Every position of the team names a roster entry. */
  predicate InRoster(players: seq<InternalPlayer>, team: seq<nat>)
  {
    forall i :: 0 <= i < |team| ==> team[i] < |players|
  }

  /** The player records at the team's positions, in order. */
  function Members(players: seq<InternalPlayer>, team: seq<nat>): (r: seq<InternalPlayer>)
    requires InRoster(players, team)
    ensures |r| == |team|
    ensures forall i :: 0 <= i < |team| ==> r[i] == players[team[i]]
  {
    seq(|team|, i requires 0 <= i < |team| => players[team[i]])
  }

  lemma MembersAppend(players: seq<InternalPlayer>, a: seq<nat>, b: seq<nat>)
    requires InRoster(players, a) && InRoster(players, b)
    ensures InRoster(players, a + b)
    ensures Members(players, a + b) == Members(players, a) + Members(players, b)
  {
  }

  /** `reduce((sum, p) => sum + f(p), 0)`. */
  function Sum(ps: seq<InternalPlayer>, f: InternalPlayer -> real): real
  {
    if ps == [] then 0.0 else f(ps[0]) + Sum(ps[1..], f)
  }

  lemma {:induction false} SumAppend(a: seq<InternalPlayer>, b: seq<InternalPlayer>, f: InternalPlayer -> real)
    ensures Sum(a + b, f) == Sum(a, f) + Sum(b, f)
  {
    if a != [] {
      assert (a + b)[0] == a[0];
      assert (a + b)[1..] == a[1..] + b;
      SumAppend(a[1..], b, f);
    } else {
      assert a + b == b;
    }
  }

  lemma {:induction false} SumNonnegative(ps: seq<InternalPlayer>, f: InternalPlayer -> real)
    requires forall p :: f(p) >= 0.0
    ensures Sum(ps, f) >= 0.0
  {
    if ps != [] {
      SumNonnegative(ps[1..], f);
    }
  }

  /** The sum of the team's ratings. */
  function TeamScore(players: seq<InternalPlayer>, team: seq<nat>): real
    requires InRoster(players, team)
  {
    Sum(Members(players, team), (p: InternalPlayer) => p.player.score)
  }

  /**
   * One player's consecutive-match penalty: the count, times 1000 in a pool of
   * at most six or 2000 otherwise, once it reaches 3 or 2 respectively.
   */
  function ConsecutiveTerm(p: InternalPlayer, matchIndex: nat, isSmallPool: bool): real
  {
    var consecutive := ConsecutiveMatches(p, matchIndex);
    var maxConsecutive := if isSmallPool then 3 else 2;
    var multiplier := if isSmallPool then 1000.0 else 2000.0;
    if consecutive >= maxConsecutive then consecutive as real * multiplier else 0.0
  }

  /** One player's fatigue: matches played times the gender's factor. */
  function FatigueTerm(p: InternalPlayer): real
  {
    p.matchesPlayed as real * (if p.player.gender == Female then FatigueFactorFemale else FatigueFactorMale)
  }

  /** The fixed penalty for a player who sat in the match just before. */
  function NoRestTerm(p: InternalPlayer, matchIndex: nat): real
  {
    if p.lastPlayed == matchIndex - 1 then NoRestPenalty else 0.0
  }

  /** The team-mates of `p` (other ids) whose ids `p` has already partnered. */
  function RepetitionCount(p: InternalPlayer, partners: seq<InternalPlayer>): (r: nat)
    ensures r <= |partners|
  {
    var others := Filter(partners, (q: InternalPlayer) => q.player.id != p.player.id);
    |Filter(others, (q: InternalPlayer) => q.player.id in p.lastTeamPartners)|
  }

  /**
   * The repetition penalty over the positions in `all`: each player's count
   * within its own team (team1 when it holds the position, else team2), times 10.
   */
  function RepetitionPenalty(players: seq<InternalPlayer>, team1: seq<nat>, team2: seq<nat>, all: seq<nat>): real
    requires InRoster(players, team1) && InRoster(players, team2) && InRoster(players, all)
  {
    if all == [] then 0.0
    else
      var k := all[0];
      var own := if k in team1 then team1 else team2;
      RepetitionCount(players[k], Members(players, own)) as real * RepetitionMultiplier +
      RepetitionPenalty(players, team1, team2, all[1..])
  }

  /** The absolute difference of the two team totals. */
  function Imbalance(players: seq<InternalPlayer>, team1: seq<nat>, team2: seq<nat>): (r: real)
    requires InRoster(players, team1) && InRoster(players, team2)
    ensures r >= 0.0
    ensures r == TeamScore(players, team1) - TeamScore(players, team2) || r == TeamScore(players, team2) - TeamScore(players, team1)
  {
    var diff := TeamScore(players, team1) - TeamScore(players, team2);
    if diff < 0.0 then -diff else diff
  }

  /** scoreMatch: the sum of the five terms. */
  function ScoreMatch(players: seq<InternalPlayer>, team1: seq<nat>, team2: seq<nat>, matchIndex: nat): real
    requires InRoster(players, team1) && InRoster(players, team2)
  {
    var all := team1 + team2;
    MembersAppend(players, team1, team2);
    var everyone := Members(players, all);
    var isSmallPool := |team1| + |team2| <= 6;
    Sum(everyone, p => ConsecutiveTerm(p, matchIndex, isSmallPool)) +
    Imbalance(players, team1, team2) * BalanceMultiplier +
    Sum(everyone, FatigueTerm) * FatigueWeight +
    Sum(everyone, p => NoRestTerm(p, matchIndex)) * NoRestWeight +
    RepetitionPenalty(players, team1, team2, all)
  }

  // ---------------------------------------------------------------------------
  // Properties
  // ---------------------------------------------------------------------------

  /** The consecutive count never reaches 2, so the consecutive penalty is 0 whatever the pool size. */
  lemma ConsecutivePenaltyIsZero(ps: seq<InternalPlayer>, matchIndex: nat, isSmallPool: bool)
    ensures Sum(ps, p => ConsecutiveTerm(p, matchIndex, isSmallPool)) == 0.0
  {
    var f := p => ConsecutiveTerm(p, matchIndex, isSmallPool);
    forall p | true
      ensures f(p) == 0.0
    {
      ConsecutiveAtMostOne(p, matchIndex);
    }
    ZeroSum(ps, f);
  }

  lemma {:induction false} ZeroSum(ps: seq<InternalPlayer>, f: InternalPlayer -> real)
    requires forall p :: f(p) == 0.0
    ensures Sum(ps, f) == 0.0
  {
    if ps != [] {
      ZeroSum(ps[1..], f);
    }
  }

  /** The score is the balance, fatigue, rest and repetition terms alone. */
  lemma ScoreWithoutConsecutive(players: seq<InternalPlayer>, team1: seq<nat>, team2: seq<nat>, matchIndex: nat)
    requires InRoster(players, team1) && InRoster(players, team2)
    ensures
      var everyone := Members(players, team1) + Members(players, team2);
      InRoster(players, team1 + team2) &&
      ScoreMatch(players, team1, team2, matchIndex) ==
        Imbalance(players, team1, team2) * BalanceMultiplier +
        Sum(everyone, FatigueTerm) * FatigueWeight +
        Sum(everyone, p => NoRestTerm(p, matchIndex)) * NoRestWeight +
        RepetitionPenalty(players, team1, team2, team1 + team2)
  {
    MembersAppend(players, team1, team2);
    ConsecutivePenaltyIsZero(Members(players, team1 + team2), matchIndex, |team1| + |team2| <= 6);
  }

  lemma {:induction false} RepetitionNonnegative(players: seq<InternalPlayer>, team1: seq<nat>, team2: seq<nat>, all: seq<nat>)
    requires InRoster(players, team1) && InRoster(players, team2) && InRoster(players, all)
    ensures RepetitionPenalty(players, team1, team2, all) >= 0.0
  {
    if all != [] {
      RepetitionNonnegative(players, team1, team2, all[1..]);
    }
  }

  /** Every term is nonnegative, so the score is. */
  lemma ScoreNonnegative(players: seq<InternalPlayer>, team1: seq<nat>, team2: seq<nat>, matchIndex: nat)
    requires InRoster(players, team1) && InRoster(players, team2)
    ensures ScoreMatch(players, team1, team2, matchIndex) >= 0.0
  {
    MembersAppend(players, team1, team2);
    var everyone := Members(players, team1 + team2);
    ConsecutivePenaltyIsZero(everyone, matchIndex, |team1| + |team2| <= 6);
    SumNonnegative(everyone, FatigueTerm);
    SumNonnegative(everyone, p => NoRestTerm(p, matchIndex));
    RepetitionNonnegative(players, team1, team2, team1 + team2);
  }

  lemma {:induction false} RepetitionAppend(players: seq<InternalPlayer>, team1: seq<nat>, team2: seq<nat>, a: seq<nat>, b: seq<nat>)
    requires InRoster(players, team1) && InRoster(players, team2) && InRoster(players, a) && InRoster(players, b)
    ensures InRoster(players, a + b)
    ensures RepetitionPenalty(players, team1, team2, a + b) ==
      RepetitionPenalty(players, team1, team2, a) + RepetitionPenalty(players, team1, team2, b)
  {
    if a != [] {
      assert (a + b)[0] == a[0];
      assert (a + b)[1..] == a[1..] + b;
      RepetitionAppend(players, team1, team2, a[1..], b);
    } else {
      assert a + b == b;
    }
  }

  /** With disjoint teams every player finds its own team whichever team is named first. */
  lemma {:induction false} RepetitionSwap(players: seq<InternalPlayer>, team1: seq<nat>, team2: seq<nat>, all: seq<nat>)
    requires InRoster(players, team1) && InRoster(players, team2) && InRoster(players, all)
    requires forall k :: k in team1 ==> k !in team2
    requires forall k :: k in all ==> k in team1 || k in team2
    ensures RepetitionPenalty(players, team1, team2, all) == RepetitionPenalty(players, team2, team1, all)
  {
    if all != [] {
      RepetitionSwap(players, team1, team2, all[1..]);
    }
  }

  /** For disjoint teams, naming them in the other order leaves the score unchanged. */
  lemma ScoreSymmetric(players: seq<InternalPlayer>, team1: seq<nat>, team2: seq<nat>, matchIndex: nat)
    requires InRoster(players, team1) && InRoster(players, team2)
    requires forall k :: k in team1 ==> k !in team2
    ensures ScoreMatch(players, team1, team2, matchIndex) == ScoreMatch(players, team2, team1, matchIndex)
  {
    MembersAppend(players, team1, team2);
    MembersAppend(players, team2, team1);
    var m1, m2 := Members(players, team1), Members(players, team2);
    var small := |team1| + |team2| <= 6;
    SumAppend(m1, m2, p => ConsecutiveTerm(p, matchIndex, small));
    SumAppend(m2, m1, p => ConsecutiveTerm(p, matchIndex, small));
    SumAppend(m1, m2, FatigueTerm);
    SumAppend(m2, m1, FatigueTerm);
    SumAppend(m1, m2, p => NoRestTerm(p, matchIndex));
    SumAppend(m2, m1, p => NoRestTerm(p, matchIndex));
    RepetitionAppend(players, team1, team2, team1, team2);
    RepetitionAppend(players, team2, team1, team2, team1);
    RepetitionSwap(players, team1, team2, team1);
    RepetitionSwap(players, team1, team2, team2);
  }
}
