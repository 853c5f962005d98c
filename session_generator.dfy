/**
 * generateSession in src/utils/sessionGenerator.ts: round after round, pick
 * four players, score the three splits of every 4-subset, commit the
 * cheapest split and update the live player records. A round is specified by
 * `RoundPick`, a whole session by `Session`; the method `GenerateSession`
 * runs the source's loop and is proved to produce exactly `Session`.
 */
module SessionGenerator {
  import opened Wrappers
  import opened SeqUtils
  import opened Strings
  import Types
  import opened SessionPlayers
  import opened SessionSelection
  import opened SessionCombinations
  import opened SessionScoring
  import opened SessionStats

  /**
   * A generated match. The teams are positions into the roster the
   * generator updates in place, so reading a player through a match shows
   * that player's counters at the end of the session.
   */
  datatype SessionMatch = SessionMatch(matchNumber: nat, team1: seq<nat>, team2: seq<nat>)

  /** `bestMatch` with its `bestScore`. */
  datatype Choice = Choice(pairing: Pairing<nat>, score: real)

  // ---------------------------------------------------------------------------
  // Choosing players, with the fallback for fewer than four
  // ---------------------------------------------------------------------------

  /** `players.filter(p => p.lastPlayed < matchIndex)`, as positions. */
  function RestedPlayers(players: seq<InternalPlayer>, matchIndex: nat): seq<nat>
  {
    Filter(Range(|players|), (k: nat) => k < |players| && players[k].lastPlayed < matchIndex)
  }

  /** With four or more rested players, append those not yet available. */
  function WithRestedPlayers(players: seq<InternalPlayer>, available: seq<nat>, matchIndex: nat): seq<nat>
  {
    var rested := RestedPlayers(players, matchIndex);
    if |rested| >= 4 then available + Filter(rested, k => k !in available) else available
  }

  lemma WithRestedPlayersSpec(players: seq<InternalPlayer>, available: seq<nat>, matchIndex: nat)
    requires Distinct(available) && forall k :: k in available ==> k < |players|
    ensures Distinct(WithRestedPlayers(players, available, matchIndex))
    ensures forall k :: k in WithRestedPlayers(players, available, matchIndex) ==> k < |players|
  {
    var rested := RestedPlayers(players, matchIndex);
    if |rested| >= 4 {
      RangeDistinct(|players|);
      FilterDistinct(Range(|players|), (k: nat) => k < |players| && players[k].lastPlayed < matchIndex);
      FilterDistinct(rested, k => k !in available);
      DistinctConcat(available, Filter(rested, k => k !in available));
    }
  }

  /** The players of the round: getAvailablePlayers, topped up from the rested players when short. */
  function Available(players: seq<InternalPlayer>, matchIndex: nat): (r: seq<nat>)
    ensures forall k :: k in r ==> k < |players|
    ensures |players| >= 4 ==> r == GetAvailablePlayers(players, matchIndex) && |r| == 4
  {
    var available := GetAvailablePlayers(players, matchIndex);
    if |available| < 4 then
      GetAvailablePlayersDistinct(players, matchIndex);
      WithRestedPlayersSpec(players, available, matchIndex);
      WithRestedPlayers(players, available, matchIndex)
    else available
  }

  /** No position is available twice. */
  lemma AvailableDistinct(players: seq<InternalPlayer>, matchIndex: nat)
    ensures Distinct(Available(players, matchIndex))
  {
    GetAvailablePlayersDistinct(players, matchIndex);
    var available := GetAvailablePlayers(players, matchIndex);
    if |available| < 4 {
      WithRestedPlayersSpec(players, available, matchIndex);
    }
  }

  // ---------------------------------------------------------------------------
  // The best-split search
  // ---------------------------------------------------------------------------

  /** The splits of every candidate four, in the order the nested loops visit them. */
  function Candidates(fours: seq<seq<nat>>): (r: seq<Pairing<nat>>)
    requires forall f :: 0 <= f < |fours| ==> |fours[f]| >= 4
    ensures |r| == 3 * |fours|
  {
    if fours == [] then [] else Candidates(fours[..|fours| - 1]) + SplitTeams(fours[|fours| - 1])
  }

  /** Every candidate is two pairs drawn, without reuse, from the available players. */
  lemma {:induction false} CandidatesWithin(fours: seq<seq<nat>>, available: seq<nat>)
    requires forall f :: 0 <= f < |fours| ==> |fours[f]| == 4 && multiset(fours[f]) <= multiset(available)
    ensures forall c :: c in Candidates(fours) ==>
      |c.team1| == 2 && |c.team2| == 2 && multiset(c.team1 + c.team2) <= multiset(available)
  {
    if fours != [] {
      var last := fours[|fours| - 1];
      CandidatesWithin(fours[..|fours| - 1], available);
      SplitsArePartitions(last);
      assert last[..4] == last;
    }
  }

  /** One step of the search: a strictly lower score replaces the best so far. */
  function Improve(best: Option<Choice>, c: Pairing<nat>, s: real): Option<Choice>
  {
    if best.None? || s < best.value.score then Some(Choice(c, s)) else best
  }

  /** The outcome of the search over `cands`, in order. */
  function BestOf(cands: seq<Pairing<nat>>, score: Pairing<nat> -> real): Option<Choice>
  {
    if cands == [] then None
    else
      var last := cands[|cands| - 1];
      Improve(BestOf(cands[..|cands| - 1], score), last, score(last))
  }

  /** The index the search settles on: the first candidate of least score. */
  ghost function FirstMin(cands: seq<Pairing<nat>>, score: Pairing<nat> -> real): (b: nat)
    requires cands != []
    ensures b < |cands|
  {
    if |cands| == 1 then 0
    else
      var n := |cands| - 1;
      var b := FirstMin(cands[..n], score);
      if score(cands[n]) < score(cands[b]) then n else b
  }

  lemma {:induction false} FirstMinSpec(cands: seq<Pairing<nat>>, score: Pairing<nat> -> real)
    requires cands != []
    ensures BestOf(cands, score) == Some(Choice(cands[FirstMin(cands, score)], score(cands[FirstMin(cands, score)])))
    ensures forall i :: 0 <= i < |cands| ==> score(cands[FirstMin(cands, score)]) <= score(cands[i])
    ensures forall i :: 0 <= i < FirstMin(cands, score) ==> score(cands[FirstMin(cands, score)]) < score(cands[i])
  {
    var n := |cands| - 1;
    if n > 0 {
      var front := cands[..n];
      FirstMinSpec(front, score);
      var b := FirstMin(front, score);
      assert front[b] == cands[b];
      forall i | 0 <= i < n
        ensures score(cands[b]) <= score(cands[i])
      {
        assert front[i] == cands[i];
      }
      forall i | 0 <= i < b
        ensures score(cands[b]) < score(cands[i])
      {
        assert front[i] == cands[i];
      }
    }
  }

  /**
   * The search finds a split whenever there is a candidate, with the minimum
   * score; because only a strictly lower score replaces the best, it is the
   * earliest candidate with that score.
   */
  lemma BestOfIsFirstMinimum(cands: seq<Pairing<nat>>, score: Pairing<nat> -> real)
    ensures BestOf(cands, score).None? <==> cands == []
    ensures cands != [] ==>
      exists b :: 0 <= b < |cands| &&
        BestOf(cands, score) == Some(Choice(cands[b], score(cands[b]))) &&
        (forall i :: 0 <= i < |cands| ==> score(cands[b]) <= score(cands[i])) &&
        (forall i :: 0 <= i < b ==> score(cands[b]) < score(cands[i]))
  {
    if cands != [] {
      FirstMinSpec(cands, score);
      var b := FirstMin(cands, score);
      assert BestOf(cands, score) == Some(Choice(cands[b], score(cands[b])));
    }
  }

  lemma BestOfSnoc(cands: seq<Pairing<nat>>, c: Pairing<nat>, score: Pairing<nat> -> real)
    ensures BestOf(cands + [c], score) == Improve(BestOf(cands, score), c, score(c))
  {
    assert (cands + [c])[..|cands|] == cands;
  }

  lemma CandidatesSnoc(fours: seq<seq<nat>>, f: nat)
    requires f < |fours| && forall i :: 0 <= i < |fours| ==> |fours[i]| >= 4
    ensures Candidates(fours[..f + 1]) == Candidates(fours[..f]) + SplitTeams(fours[f])
  {
    assert fours[..f + 1][..f] == fours[..f];
  }

  /** The two nested loops over the candidate fours and their splits. */
  method PickBestSplit(candidateFours: seq<seq<nat>>, score: Pairing<nat> -> real) returns (best: Option<Choice>)
    requires forall f :: 0 <= f < |candidateFours| ==> |candidateFours[f]| >= 4
    ensures best == BestOf(Candidates(candidateFours), score)
  {
    best := None;
    for f := 0 to |candidateFours|
      invariant best == BestOf(Candidates(candidateFours[..f]), score)
    {
      var teamPairs := SplitTeams(candidateFours[f]);
      ghost var before := Candidates(candidateFours[..f]);
      assert before + teamPairs[..0] == before;
      for s := 0 to |teamPairs|
        invariant best == BestOf(before + teamPairs[..s], score)
      {
        BestOfSnoc(before + teamPairs[..s], teamPairs[s], score);
        assert before + teamPairs[..s + 1] == (before + teamPairs[..s]) + [teamPairs[s]];
        var matchScore := score(teamPairs[s]);
        if best.None? || matchScore < best.value.score {
          best := Some(Choice(teamPairs[s], matchScore));
        }
      }
      assert teamPairs[..3] == teamPairs;
      CandidatesSnoc(candidateFours, f);
    }
    assert candidateFours[..|candidateFours|] == candidateFours;
  }

  // ---------------------------------------------------------------------------
  // One round
  // ---------------------------------------------------------------------------

  /** scoreMatch of a split on the roster as it stands. */
  function ScoreOf(players: seq<InternalPlayer>, matchIndex: nat): Pairing<nat> -> real
  {
    (p: Pairing<nat>) =>
      if InRoster(players, p.team1) && InRoster(players, p.team2) then ScoreMatch(players, p.team1, p.team2, matchIndex) else 0.0
  }

  /** The nested search over every 4-subset of `available` and its three splits. */
  function Search(available: seq<nat>, score: Pairing<nat> -> real): Option<Choice>
  {
    CombosShape(available, 4);
    BestOf(Candidates(Combos(available, 4, 0, [])), score)
  }

  /** Two teams of two, made of four different players of `available`. */
  ghost predicate Drawn(available: seq<nat>, p: Pairing<nat>)
  {
    |p.team1| == 2 && |p.team2| == 2 && Distinct(p.team1 + p.team2) &&
    forall k :: k in p.team1 + p.team2 ==> k in available
  }

  /** Whatever the search commits is two pairs drawn from the available players. */
  lemma SearchDraws(available: seq<nat>, score: Pairing<nat> -> real)
    requires Distinct(available)
    ensures Search(available, score).Some? ==> Drawn(available, Search(available, score).value.pairing)
  {
    CombosShape(available, 4);
    var fours := Combos(available, 4, 0, []);
    var cands := Candidates(fours);
    BestOfIsFirstMinimum(cands, score);
    if cands != [] {
      CandidatesWithin(fours, available);
      var b :| 0 <= b < |cands| && BestOf(cands, score) == Some(Choice(cands[b], score(cands[b])));
      var p := cands[b];
      assert p in cands;
      var both := p.team1 + p.team2;
      SubMultisetDistinct(both, available);
      forall k | k in both
        ensures k in available
      {
        assert k in multiset(both);
      }
    }
  }

  /**
   * Among exactly four players the candidates are their three splits, and the
   * search commits one with the lowest score, the earliest of them on a tie.
   */
  lemma SearchOfFour(available: seq<nat>, score: Pairing<nat> -> real)
    requires |available| == 4
    ensures var splits := SplitTeams(available);
      exists b :: 0 <= b < 3 && Search(available, score) == Some(Choice(splits[b], score(splits[b]))) &&
        (forall i :: 0 <= i < 3 ==> score(splits[b]) <= score(splits[i])) &&
        (forall i :: 0 <= i < b ==> score(splits[b]) < score(splits[i]))
  {
    CombosOfFour(available);
    var fours := Combos(available, 4, 0, []);
    assert fours[..0] == [];
    assert Candidates(fours) == SplitTeams(available);
    BestOfIsFirstMinimum(SplitTeams(available), score);
  }

  /** The split a round commits, or None where the source stops. */
  function RoundPick(players: seq<InternalPlayer>, matchIndex: nat): Option<Pairing<nat>>
  {
    var available := Available(players, matchIndex);
    if |available| < 4 then None
    else
      var best := Search(available, ScoreOf(players, matchIndex));
      if best.None? then None else Some(best.value.pairing)
  }

  /** A committed split: two teams of two, four different roster positions. */
  ghost predicate WellFormed(players: seq<InternalPlayer>, p: Pairing<nat>)
  {
    |p.team1| == 2 && |p.team2| == 2 && Distinct(p.team1 + p.team2) &&
    InRoster(players, p.team1) && InRoster(players, p.team2)
  }

  lemma DrawnIsWellFormed(players: seq<InternalPlayer>, available: seq<nat>, p: Pairing<nat>)
    requires Drawn(available, p) && forall k :: k in available ==> k < |players|
    ensures WellFormed(players, p)
  {
    var both := p.team1 + p.team2;
    forall i | 0 <= i < 2
      ensures p.team1[i] < |players| && p.team2[i] < |players|
    {
      assert p.team1[i] == both[i] && p.team2[i] == both[i + 2];
      assert both[i] in both && both[i + 2] in both;
    }
  }

  /**
   * With four or more players every round commits a split, and the split is
   * two teams of two made of four different available players.
   */
  lemma RoundPickSpec(players: seq<InternalPlayer>, matchIndex: nat)
    ensures |players| >= 4 ==> RoundPick(players, matchIndex).Some?
    ensures RoundPick(players, matchIndex).Some? ==>
      WellFormed(players, RoundPick(players, matchIndex).value) &&
      Drawn(Available(players, matchIndex), RoundPick(players, matchIndex).value)
  {
    var available := Available(players, matchIndex);
    var score := ScoreOf(players, matchIndex);
    if |available| >= 4 {
      AvailableDistinct(players, matchIndex);
      SearchDraws(available, score);
      if |players| >= 4 {
        SearchOfFour(available, score);
      }
      if Search(available, score).Some? {
        DrawnIsWellFormed(players, available, Search(available, score).value.pairing);
      }
    }
  }

  /**
   * With four or more players the round's candidates are the three splits of
   * the four players getAvailablePlayers returns, and the committed one has
   * the lowest score, the earliest of them on a tie.
   */
  lemma RoundPickIsBest(players: seq<InternalPlayer>, matchIndex: nat)
    requires |players| >= 4
    ensures var splits := SplitTeams(GetAvailablePlayers(players, matchIndex));
      var score := ScoreOf(players, matchIndex);
      exists b :: 0 <= b < 3 && RoundPick(players, matchIndex) == Some(splits[b]) &&
        (forall i :: 0 <= i < 3 ==> score(splits[b]) <= score(splits[i])) &&
        (forall i :: 0 <= i < b ==> score(splits[b]) < score(splits[i]))
  {
    SearchOfFour(Available(players, matchIndex), ScoreOf(players, matchIndex));
  }

  /** With both teams on the roster the search's score is scoreMatch. */
  lemma ScoreOfIsScoreMatch(players: seq<InternalPlayer>, matchIndex: nat, p: Pairing<nat>)
    requires InRoster(players, p.team1) && InRoster(players, p.team2)
    ensures ScoreOf(players, matchIndex)(p) == ScoreMatch(players, p.team1, p.team2, matchIndex)
  {
  }

  // ---------------------------------------------------------------------------
  // A whole session
  // ---------------------------------------------------------------------------

  /** The committed splits in order, and the roster at the end. */
  datatype Outcome = Outcome(pairings: seq<Pairing<nat>>, roster: seq<InternalPlayer>)

  /** How a round chooses: the split it commits on a roster at a match index, or None to stop. */
  type Chooser = (seq<InternalPlayer>, nat) -> Option<Pairing<nat>>

  /** Every split the chooser commits is two teams of two, four different roster positions. */
  ghost predicate Commits(pick: Chooser)
  {
    forall players, matchIndex :: pick(players, matchIndex).Some? ==> WellFormed(players, pick(players, matchIndex).value)
  }

  /** On a roster of four or more the chooser always commits a split. */
  ghost predicate AlwaysCommits(pick: Chooser)
  {
    forall players: seq<InternalPlayer>, matchIndex :: |players| >= 4 ==> pick(players, matchIndex).Some?
  }

  /**
   * The loop of generateSession with the round's choice as a parameter: the
   * rounds from `matchIndex` on, up to `totalMatches` or until a round finds
   * nothing, each committing its split to the roster.
   */
  function Rounds(pick: Chooser, players: seq<InternalPlayer>, matchIndex: nat, totalMatches: nat): Outcome
    requires Commits(pick)
    decreases totalMatches - matchIndex
  {
    if matchIndex >= totalMatches then Outcome([], players)
    else match pick(players, matchIndex)
      case None => Outcome([], players)
      case Some(p) =>
        Prefixed([p], Rounds(pick, AfterMatch(players, p.team1, p.team2, matchIndex), matchIndex + 1, totalMatches))
  }

  lemma RoundPickCommits()
    ensures Commits(RoundPick)
  {
    forall players, matchIndex
      ensures RoundPick(players, matchIndex).Some? ==> WellFormed(players, RoundPick(players, matchIndex).value)
    {
      RoundPickSpec(players, matchIndex);
    }
  }

  lemma RoundPickAlwaysCommits()
    ensures AlwaysCommits(RoundPick)
  {
    forall players: seq<InternalPlayer>, matchIndex: nat | |players| >= 4
      ensures RoundPick(players, matchIndex).Some?
    {
      RoundPickSpec(players, matchIndex);
    }
  }

  /** The session generateSession plays: every round chooses as RoundPick does. */
  function Session(players: seq<InternalPlayer>, matchIndex: nat, totalMatches: nat): Outcome
  {
    RoundPickCommits();
    Rounds(RoundPick, players, matchIndex, totalMatches)
  }

  /** With a chooser that always commits and four or more players there are `totalMatches - matchIndex` matches. */
  lemma {:induction false} RoundsLength(pick: Chooser, players: seq<InternalPlayer>, matchIndex: nat, totalMatches: nat)
    requires Commits(pick) && AlwaysCommits(pick)
    requires |players| >= 4 && matchIndex <= totalMatches
    ensures |Rounds(pick, players, matchIndex, totalMatches).pairings| == totalMatches - matchIndex
    ensures |Rounds(pick, players, matchIndex, totalMatches).roster| == |players|
    decreases totalMatches - matchIndex
  {
    if matchIndex < totalMatches {
      var p := pick(players, matchIndex).value;
      RoundsLength(pick, AfterMatch(players, p.team1, p.team2, matchIndex), matchIndex + 1, totalMatches);
    }
  }

  /** Every match is two teams of two, four different roster positions, and the roster keeps its size. */
  lemma {:induction false} RoundsWellFormed(pick: Chooser, players: seq<InternalPlayer>, matchIndex: nat, totalMatches: nat)
    requires Commits(pick)
    ensures |Rounds(pick, players, matchIndex, totalMatches).roster| == |players|
    ensures forall j :: 0 <= j < |Rounds(pick, players, matchIndex, totalMatches).pairings| ==>
      WellFormed(players, Rounds(pick, players, matchIndex, totalMatches).pairings[j])
    decreases totalMatches - matchIndex
  {
    if matchIndex < totalMatches && pick(players, matchIndex).Some? {
      var p := pick(players, matchIndex).value;
      var next := AfterMatch(players, p.team1, p.team2, matchIndex);
      RoundsWellFormed(pick, next, matchIndex + 1, totalMatches);
      var rest := Rounds(pick, next, matchIndex + 1, totalMatches).pairings;
      var s := Rounds(pick, players, matchIndex, totalMatches).pairings;
      assert s == [p] + rest;
      forall j | 0 <= j < |s|
        ensures WellFormed(players, s[j])
      {
        if j > 0 {
          assert s[j] == rest[j - 1];
        }
      }
    }
  }

  /** Every match adds four matches played to the roster's total. */
  lemma {:induction false} RoundsTotal(pick: Chooser, players: seq<InternalPlayer>, matchIndex: nat, totalMatches: nat)
    requires Commits(pick)
    ensures TotalPlayed(Rounds(pick, players, matchIndex, totalMatches).roster) ==
      TotalPlayed(players) + 4 * |Rounds(pick, players, matchIndex, totalMatches).pairings|
    decreases totalMatches - matchIndex
  {
    if matchIndex < totalMatches && pick(players, matchIndex).Some? {
      var p := pick(players, matchIndex).value;
      AfterMatchTotal(players, p.team1, p.team2, matchIndex);
      RoundsTotal(pick, AfterMatch(players, p.team1, p.team2, matchIndex), matchIndex + 1, totalMatches);
    }
  }

  lemma {:induction false} ClonedTotalIsZero(players: seq<Types.Player>)
    ensures TotalPlayed(ClonePlayers(players)) == 0
  {
    if players != [] {
      ClonedTotalIsZero(players[1..]);
      assert ClonePlayers(players)[1..] == ClonePlayers(players[1..]);
    }
  }

  // ---------------------------------------------------------------------------
  // Rotation
  // ---------------------------------------------------------------------------

  /**
   * The state the rounds keep: nobody's last match is in the future, whoever
   * has a last match has played, and after the first round exactly the four
   * players of the previous match have it as their last.
   */
  predicate Consistent(players: seq<InternalPlayer>, matchIndex: nat)
  {
    (forall k :: 0 <= k < |players| ==>
      players[k].lastPlayed < matchIndex && (players[k].lastPlayed >= 0 ==> players[k].matchesPlayed > 0)) &&
    (matchIndex > 0 ==> |PreviousPlayers(players, matchIndex)| == 4)
  }

  lemma ClonedIsConsistent(players: seq<Types.Player>)
    ensures Consistent(ClonePlayers(players), 0)
  {
  }

  /** Committing a well-formed split keeps the state consistent; its four players now played last. */
  lemma ConsistentStep(players: seq<InternalPlayer>, matchIndex: nat, p: Pairing<nat>)
    requires Consistent(players, matchIndex) && WellFormed(players, p)
    ensures Consistent(AfterMatch(players, p.team1, p.team2, matchIndex), matchIndex + 1)
    ensures forall k :: k in p.team1 + p.team2 ==> AfterMatch(players, p.team1, p.team2, matchIndex)[k].lastPlayed == matchIndex
  {
    var n := |players|;
    var next := AfterMatch(players, p.team1, p.team2, matchIndex);
    var both := p.team1 + p.team2;
    AfterMatchEffect(players, p.team1, p.team2, matchIndex);
    forall k | k in both
      ensures k < n && next[k].lastPlayed == matchIndex
    {
      if k in p.team1 {
        var i :| 0 <= i < |p.team1| && p.team1[i] == k;
      } else {
        var i :| 0 <= i < |p.team2| && p.team2[i] == k;
      }
    }
    var previous := PreviousPlayers(next, matchIndex + 1);
    RangeDistinct(n);
    FilterDistinct(Range(n), (k: nat) => k < n && next[k].lastPlayed == matchIndex + 1 - 1);
    forall k | k in previous
      ensures k in both
    {
    }
    forall k | k in both
      ensures k in previous
    {
      assert Range(n)[k] == k;
    }
    CoverCount(previous, both, []);
    CoverCount(both, previous, []);
  }

  /** None of the players of `a` plays in `b`. */
  ghost predicate Rests(a: Pairing<nat>, b: Pairing<nat>)
  {
    forall k :: k in a.team1 + a.team2 ==> k !in b.team1 + b.team2
  }

  /** With eight or more players the round after a match commits four other players. */
  lemma NextRoundRests(players: seq<InternalPlayer>, matchIndex: nat, p: Pairing<nat>)
    requires |players| >= 8 && Consistent(players, matchIndex) && WellFormed(players, p)
    ensures var next := AfterMatch(players, p.team1, p.team2, matchIndex);
      RoundPick(next, matchIndex + 1).Some? && Rests(p, RoundPick(next, matchIndex + 1).value)
  {
    var next := AfterMatch(players, p.team1, p.team2, matchIndex);
    ConsistentStep(players, matchIndex, p);
    RoundPickSpec(next, matchIndex + 1);
    NoBackToBack(next, matchIndex + 1);
  }

  /** After a match on a consistent roster of eight or more, whatever the chooser commits next rests that match's four. */
  ghost predicate Rotates(pick: Chooser)
  {
    forall players, matchIndex: nat, p: Pairing<nat> ::
      |players| >= 8 && Consistent(players, matchIndex) && WellFormed(players, p) &&
      pick(AfterMatch(players, p.team1, p.team2, matchIndex), matchIndex + 1).Some? ==>
        Rests(p, pick(AfterMatch(players, p.team1, p.team2, matchIndex), matchIndex + 1).value)
  }

  lemma RoundPickRotates()
    ensures Rotates(RoundPick)
  {
    forall players, matchIndex: nat, p: Pairing<nat> |
      |players| >= 8 && Consistent(players, matchIndex) && WellFormed(players, p)
      ensures var next := AfterMatch(players, p.team1, p.team2, matchIndex);
        RoundPick(next, matchIndex + 1).Some? ==> Rests(p, RoundPick(next, matchIndex + 1).value)
    {
      NextRoundRests(players, matchIndex, p);
    }
  }

  /**
   * With a chooser that rotates and eight or more players no player plays two
   * matches in a row: the four of one match are never chosen for the next.
   */
  lemma {:induction false} RoundsNoBackToBack(pick: Chooser, players: seq<InternalPlayer>, matchIndex: nat, totalMatches: nat)
    requires Commits(pick) && Rotates(pick)
    requires |players| >= 8 && Consistent(players, matchIndex)
    ensures var s := Rounds(pick, players, matchIndex, totalMatches).pairings;
      forall j :: 0 <= j < |s| - 1 ==> Rests(s[j], s[j + 1])
    decreases totalMatches - matchIndex
  {
    if matchIndex < totalMatches && pick(players, matchIndex).Some? {
      var p := pick(players, matchIndex).value;
      var next := AfterMatch(players, p.team1, p.team2, matchIndex);
      ConsistentStep(players, matchIndex, p);
      RoundsNoBackToBack(pick, next, matchIndex + 1, totalMatches);
      var rest := Rounds(pick, next, matchIndex + 1, totalMatches).pairings;
      if rest != [] {
        RoundsFirst(pick, next, matchIndex + 1, totalMatches);
        assert Rests(p, pick(next, matchIndex + 1).value);
      }
      RotationPrepend(p, rest);
    }
  }

  /** A run of rounds that is not empty starts with the split its first round commits. */
  lemma RoundsFirst(pick: Chooser, players: seq<InternalPlayer>, matchIndex: nat, totalMatches: nat)
    requires Commits(pick) && Rounds(pick, players, matchIndex, totalMatches).pairings != []
    ensures matchIndex < totalMatches && pick(players, matchIndex).Some?
    ensures Rounds(pick, players, matchIndex, totalMatches).pairings[0] == pick(players, matchIndex).value
  {
  }

  lemma RotationPrepend(p: Pairing<nat>, rest: seq<Pairing<nat>>)
    requires forall j :: 0 <= j < |rest| - 1 ==> Rests(rest[j], rest[j + 1])
    requires rest != [] ==> Rests(p, rest[0])
    ensures var s := [p] + rest; forall j :: 0 <= j < |s| - 1 ==> Rests(s[j], s[j + 1])
  {
    var s := [p] + rest;
    forall j | 1 <= j < |s| - 1
      ensures Rests(s[j], s[j + 1])
    {
      assert s[j] == rest[j - 1] && s[j + 1] == rest[j];
    }
  }

  /**
   * In every round after the first the forced rotation and the top-up never
   * run: the round's players are the first four of the sorted roster.
   */
  lemma RoundTakesTopFour(players: seq<InternalPlayer>, matchIndex: nat)
    requires |players| >= 4 && Consistent(players, matchIndex)
    ensures Available(players, matchIndex) == Take(SortByKey(Keys(players, matchIndex)), 4)
  {
    AvailableIsTopFour(players, matchIndex);
  }

  // ---------------------------------------------------------------------------
  // generateSession
  // ---------------------------------------------------------------------------

  /** The session so far followed by the rest. */
  function Prefixed(done: seq<Pairing<nat>>, rest: Outcome): Outcome
  {
    Outcome(done + rest.pairings, rest.roster)
  }

  /** The matches, numbered from 1, of the committed splits in order. */
  ghost predicate Numbered(matches: seq<SessionMatch>, pairings: seq<Pairing<nat>>)
  {
    |matches| == |pairings| &&
    forall j :: 0 <= j < |matches| ==> matches[j] == SessionMatch(j + 1, pairings[j].team1, pairings[j].team2)
  }

  lemma NumberedAppend(matches: seq<SessionMatch>, pairings: seq<Pairing<nat>>, p: Pairing<nat>)
    requires Numbered(matches, pairings)
    ensures Numbered(matches + [SessionMatch(|matches| + 1, p.team1, p.team2)], pairings + [p])
  {
  }

  /**
   * One iteration of generateSession's loop up to the commit: the available
   * players, the fallback, and the search. None where the source breaks.
   */
  method ChooseMatch(players: seq<InternalPlayer>, matchIndex: nat) returns (pick: Option<Pairing<nat>>)
    ensures pick == RoundPick(players, matchIndex)
    ensures |players| >= 4 ==> pick.Some?
    ensures pick.Some? ==> WellFormed(players, pick.value) && Drawn(Available(players, matchIndex), pick.value)
  {
    RoundPickSpec(players, matchIndex);
    var availablePlayers := GetAvailablePlayers(players, matchIndex);
    if |availablePlayers| < 4 {
      availablePlayers := WithRestedPlayers(players, availablePlayers, matchIndex);
    }
    assert availablePlayers == Available(players, matchIndex);
    if |availablePlayers| < 4 {
      return None;
    }
    var candidateFours := GetCombinations(availablePlayers, 4);
    var best := PickBestSplit(candidateFours, ScoreOf(players, matchIndex));
    assert best == Search(availablePlayers, ScoreOf(players, matchIndex));
    if best.None? {
      return None;
    }
    pick := Some(best.value.pairing);
  }

  /** The `for` loop of generateSession over the match indices, on the live roster. */
  method PlayRounds(players: array<InternalPlayer>, totalMatches: nat) returns (matches: seq<SessionMatch>)
    modifies players
    ensures players[..] == Session(old(players[..]), 0, totalMatches).roster
    ensures Numbered(matches, Session(old(players[..]), 0, totalMatches).pairings)
  {
    ghost var start := players[..];
    RoundPickCommits();
    matches := [];
    ghost var picked: seq<Pairing<nat>> := [];
    var matchIndex := 0;
    while matchIndex < totalMatches
      invariant 0 <= matchIndex <= totalMatches
      invariant Numbered(matches, picked) && |picked| == matchIndex
      invariant Session(start, 0, totalMatches) == Prefixed(picked, Session(players[..], matchIndex, totalMatches))
    {
      var snapshot := players[..];
      var pick := ChooseMatch(snapshot, matchIndex);
      if pick.None? {
        RoundsStop(RoundPick, start, totalMatches, picked, snapshot, matchIndex);
        break;
      }
      RoundsAdvance(RoundPick, start, totalMatches, picked, snapshot, matchIndex, pick.value);
      var team1, team2 := pick.value.team1, pick.value.team2;
      UpdatePlayerStats(players, team1, team2, matchIndex);
      NumberedAppend(matches, picked, pick.value);
      matches := matches + [SessionMatch(matchIndex + 1, team1, team2)];
      picked := picked + [pick.value];
      matchIndex := matchIndex + 1;
    }
    if matchIndex >= totalMatches {
      RoundsStop(RoundPick, start, totalMatches, picked, players[..], matchIndex);
    }
  }

  /** The loop's step: committing the round's split moves it from the rest of the rounds to the splits made. */
  lemma RoundsAdvance(pick: Chooser, start: seq<InternalPlayer>, totalMatches: nat, picked: seq<Pairing<nat>>,
                      players: seq<InternalPlayer>, matchIndex: nat, p: Pairing<nat>)
    requires Commits(pick) && matchIndex < totalMatches && pick(players, matchIndex) == Some(p)
    requires Rounds(pick, start, 0, totalMatches) == Prefixed(picked, Rounds(pick, players, matchIndex, totalMatches))
    ensures WellFormed(players, p)
    ensures Rounds(pick, start, 0, totalMatches) ==
      Prefixed(picked + [p], Rounds(pick, AfterMatch(players, p.team1, p.team2, matchIndex), matchIndex + 1, totalMatches))
  {
    var rest := Rounds(pick, AfterMatch(players, p.team1, p.team2, matchIndex), matchIndex + 1, totalMatches);
    assert (picked + [p]) + rest.pairings == picked + ([p] + rest.pairings);
  }

  /** The loop's exit: when the matches run out or a round finds nothing, the rounds are the splits made. */
  lemma RoundsStop(pick: Chooser, start: seq<InternalPlayer>, totalMatches: nat, picked: seq<Pairing<nat>>,
                   players: seq<InternalPlayer>, matchIndex: nat)
    requires Commits(pick) && (matchIndex >= totalMatches || pick(players, matchIndex).None?)
    requires Rounds(pick, start, 0, totalMatches) == Prefixed(picked, Rounds(pick, players, matchIndex, totalMatches))
    ensures Rounds(pick, start, 0, totalMatches) == Outcome(picked, players)
  {
    assert picked + [] == picked;
  }

  /** What a session from a fresh roster amounts to. */
  lemma SessionFacts(players: seq<Types.Player>, totalMatches: nat)
    ensures var o := Session(ClonePlayers(players), 0, totalMatches);
      |o.roster| == |players| &&
      (|players| >= 4 ==> |o.pairings| == totalMatches) &&
      (forall j :: 0 <= j < |o.pairings| ==> WellFormed(o.roster, o.pairings[j])) &&
      TotalPlayed(o.roster) == 4 * |o.pairings| &&
      (|players| >= 8 ==> forall j :: 0 <= j < |o.pairings| - 1 ==> Rests(o.pairings[j], o.pairings[j + 1]))
  {
    var cloned := ClonePlayers(players);
    RoundPickCommits();
    if |players| >= 4 {
      RoundPickAlwaysCommits();
      RoundsLength(RoundPick, cloned, 0, totalMatches);
    }
    RoundsWellFormed(RoundPick, cloned, 0, totalMatches);
    RoundsTotal(RoundPick, cloned, 0, totalMatches);
    ClonedTotalIsZero(players);
    if |players| >= 8 {
      ClonedIsConsistent(players);
      RoundPickRotates();
      RoundsNoBackToBack(RoundPick, cloned, 0, totalMatches);
    }
  }

  /**
   * The number of rounds of `generateSession`: `Math.floor(sessionMinutes / matchDurationMinutes)`, where a
   * negative count runs the loop no times.
   */
  function MatchCount(sessionMinutes: real, matchDurationMinutes: real): (n: nat)
    requires matchDurationMinutes != 0.0
    ensures sessionMinutes / matchDurationMinutes >= 0.0 ==>
      n as real <= sessionMinutes / matchDurationMinutes < n as real + 1.0
    ensures sessionMinutes / matchDurationMinutes < 1.0 ==> n == 0
  {
    var q := (sessionMinutes / matchDurationMinutes).Floor;
    if q < 0 then 0 else q
  }

  /**
   * generateSession. The shuffle is the permutation `shuffledPlayers` of the
   * input; `roster` is the player objects after the session, which the
   * returned matches point into.
   */
  method GenerateSession(rawPlayers: seq<Types.Player>, shuffledPlayers: seq<Types.Player>,
                         sessionMinutes: real, matchDurationMinutes: real)
    returns (matches: seq<SessionMatch>, roster: seq<InternalPlayer>)
    requires matchDurationMinutes != 0.0
    requires multiset(shuffledPlayers) == multiset(rawPlayers)
    ensures |rawPlayers| < 4 ==> matches == [] && roster == []
    ensures |rawPlayers| >= 4 ==>
      var o := Session(ClonePlayers(shuffledPlayers), 0, MatchCount(sessionMinutes, matchDurationMinutes));
      roster == o.roster && Numbered(matches, o.pairings)
    ensures |rawPlayers| >= 4 ==> |matches| == MatchCount(sessionMinutes, matchDurationMinutes) && |roster| == |rawPlayers|
    ensures forall j :: 0 <= j < |matches| ==>
      matches[j].matchNumber == j + 1 && WellFormed(roster, Pairing(matches[j].team1, matches[j].team2))
    ensures TotalPlayed(roster) == 4 * |matches|
    ensures |rawPlayers| >= 8 ==> forall j :: 0 <= j < |matches| - 1 ==>
      Rests(Pairing(matches[j].team1, matches[j].team2), Pairing(matches[j + 1].team1, matches[j + 1].team2))
  {
    if |rawPlayers| < 4 {
      return [], [];
    }
    assert |shuffledPlayers| == |multiset(shuffledPlayers)| == |rawPlayers|;
    var cloned := ClonePlayers(shuffledPlayers);
    var players := new InternalPlayer[|cloned|](i requires 0 <= i < |cloned| => cloned[i]);
    assert players[..] == cloned;
    var totalMatches := MatchCount(sessionMinutes, matchDurationMinutes);
    matches := PlayRounds(players, totalMatches);
    roster := players[..];
    SessionFacts(shuffledPlayers, totalMatches);
    var o := Session(cloned, 0, totalMatches);
    assert forall j :: 0 <= j < |matches| ==> Pairing(matches[j].team1, matches[j].team2) == o.pairings[j];
  }

  // ---------------------------------------------------------------------------
  // convertSessionMatchToUIMatch
  // ---------------------------------------------------------------------------

  /**
   * The UI record of a generated match: ids built from the base id and the
   * match number, the first two players of each team, totals as score sums,
   * no points and no winner yet. `now` stands for both timestamps.
   */
  function ConvertSessionMatchToUIMatch(m: SessionMatch, roster: seq<InternalPlayer>, baseId: string, now: string): (u: Types.UIMatch)
    requires |m.team1| >= 2 && |m.team2| >= 2 && InRoster(roster, m.team1) && InRoster(roster, m.team2)
    ensures u.id == baseId + "-" + NatToString(m.matchNumber)
    ensures u.Complete()
    ensures u.team1.player1 == Some(roster[m.team1[0]].player) && u.team1.player2 == Some(roster[m.team1[1]].player)
    ensures u.team2.player1 == Some(roster[m.team2[0]].player) && u.team2.player2 == Some(roster[m.team2[1]].player)
    ensures u.team1.totalScore == roster[m.team1[0]].player.score + roster[m.team1[1]].player.score
    ensures u.team2.totalScore == roster[m.team2[0]].player.score + roster[m.team2[1]].player.score
    ensures u.team1Score == 0 && u.team2Score == 0 && u.winner.None?
  {
    var number := NatToString(m.matchNumber);
    var a1, a2 := roster[m.team1[0]].player, roster[m.team1[1]].player;
    var b1, b2 := roster[m.team2[0]].player, roster[m.team2[1]].player;
    Types.UIMatch(
      baseId + "-" + number,
      Types.Team("team1-" + baseId + "-" + number, Some(a1), Some(a2), a1.score + a2.score),
      Types.Team("team2-" + baseId + "-" + number, Some(b1), Some(b2), b1.score + b2.score),
      0, 0, None, now, now)
  }

  /** Under one base id the UI id determines the match number, so different matches get different ids. */
  lemma ConvertedIdDeterminesNumber(m1: SessionMatch, m2: SessionMatch, roster: seq<InternalPlayer>, baseId: string, now: string)
    requires |m1.team1| >= 2 && |m1.team2| >= 2 && InRoster(roster, m1.team1) && InRoster(roster, m1.team2)
    requires |m2.team1| >= 2 && |m2.team2| >= 2 && InRoster(roster, m2.team1) && InRoster(roster, m2.team2)
    requires ConvertSessionMatchToUIMatch(m1, roster, baseId, now).id == ConvertSessionMatchToUIMatch(m2, roster, baseId, now).id
    ensures m1.matchNumber == m2.matchNumber
  {
    var prefix := baseId + "-";
    var id1 := ConvertSessionMatchToUIMatch(m1, roster, baseId, now).id;
    var id2 := ConvertSessionMatchToUIMatch(m2, roster, baseId, now).id;
    assert id1 == prefix + NatToString(m1.matchNumber);
    assert id2 == prefix + NatToString(m2.matchNumber);
    assert id1[|prefix|..] == NatToString(m1.matchNumber);
    assert id2[|prefix|..] == NatToString(m2.matchNumber);
    NatToStringInjective(m1.matchNumber, m2.matchNumber);
  }
}
