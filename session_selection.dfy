/**
 * Choosing the players of the next match (getAvailablePlayers in
 * src/utils/sessionGenerator.ts). Players are named by their position in the
 * live roster, which is how the source's object identity (`includes`) is
 * modelled.
 */
module SessionSelection {
  import opened SeqUtils
  import opened SessionPlayers

  /**
   * The sort key of a player: not yet played first, then fewer consecutive
   * matches, then fewer matches, then the earlier last match.
   */
  datatype Priority = Priority(hasPlayed: nat, consecutive: nat, matchesPlayed: nat, lastPlayed: int)

  function PriorityOf(p: InternalPlayer, matchIndex: nat): Priority
  {
    Priority(if p.matchesPlayed == 0 then 0 else 1, ConsecutiveMatches(p, matchIndex), p.matchesPlayed, p.lastPlayed)
  }

  /** Strict lexicographic order on keys. */
  predicate PriorityLt(a: Priority, b: Priority)
  {
    a.hasPlayed < b.hasPlayed ||
    (a.hasPlayed == b.hasPlayed && (a.consecutive < b.consecutive ||
    (a.consecutive == b.consecutive && (a.matchesPlayed < b.matchesPlayed ||
    (a.matchesPlayed == b.matchesPlayed && a.lastPlayed < b.lastPlayed)))))
  }

  /**
   * The sort comparator on `{player, consecutiveMatches}` entries: negative
   * when `a` goes first, positive when `b` does.
   */
  function Compare(a: InternalPlayer, aConsecutive: nat, b: InternalPlayer, bConsecutive: nat): int
  {
    if a.matchesPlayed == 0 && b.matchesPlayed > 0 then -1
    else if b.matchesPlayed == 0 && a.matchesPlayed > 0 then 1
    else if aConsecutive != bConsecutive then aConsecutive - bConsecutive
    else if a.matchesPlayed != b.matchesPlayed then a.matchesPlayed - b.matchesPlayed
    else a.lastPlayed - b.lastPlayed
  }

  /** The comparator is exactly the lexicographic order on keys, so it is a consistent total preorder. */
  lemma CompareIsPriorityOrder(a: InternalPlayer, b: InternalPlayer, matchIndex: nat)
    ensures var c := Compare(a, ConsecutiveMatches(a, matchIndex), b, ConsecutiveMatches(b, matchIndex));
      (c < 0 <==> PriorityLt(PriorityOf(a, matchIndex), PriorityOf(b, matchIndex))) &&
      (c > 0 <==> PriorityLt(PriorityOf(b, matchIndex), PriorityOf(a, matchIndex))) &&
      (c == 0 <==> PriorityOf(a, matchIndex) == PriorityOf(b, matchIndex))
  {
  }

  lemma PriorityLtTransitive(a: Priority, b: Priority, c: Priority)
    requires PriorityLt(a, b) && PriorityLt(b, c)
    ensures PriorityLt(a, c)
  {
  }

  /** The keys of the whole roster, position by position. */
  function Keys(players: seq<InternalPlayer>, matchIndex: nat): (keys: seq<Priority>)
    ensures |keys| == |players|
    ensures forall k :: 0 <= k < |players| ==> keys[k] == PriorityOf(players[k], matchIndex)
  {
    seq(|players|, k requires 0 <= k < |players| => PriorityOf(players[k], matchIndex))
  }

  /** Position x sorts before position y: smaller key, or equal key and earlier position (stability). */
  predicate Ahead(keys: seq<Priority>, x: nat, y: nat)
  {
    x < |keys| && y < |keys| && (PriorityLt(keys[x], keys[y]) || (keys[x] == keys[y] && x < y))
  }

  predicate SortedByKey(keys: seq<Priority>, s: seq<nat>)
  {
    forall a, b :: 0 <= a < b < |s| ==> Ahead(keys, s[a], s[b])
  }

  /** Insert position x after every entry whose key is not larger. */
  function Insert(keys: seq<Priority>, x: nat, s: seq<nat>): (r: seq<nat>)
    ensures |r| == |s| + 1
  {
    if s == [] then [x]
    else if x < |keys| && s[0] < |keys| && PriorityLt(keys[x], keys[s[0]]) then [x] + s
    else [s[0]] + Insert(keys, x, s[1..])
  }

  /** Positions 0 .. m-1 after a stable sort by key. */
  function SortPrefix(keys: seq<Priority>, m: nat): (r: seq<nat>)
    requires m <= |keys|
    ensures |r| == m
  {
    if m == 0 then [] else Insert(keys, m - 1, SortPrefix(keys, m - 1))
  }

  /** `Array.prototype.sort` is stable, so the sorted roster is unique: this one. */
  function SortByKey(keys: seq<Priority>): (r: seq<nat>)
    ensures |r| == |keys|
  {
    SortPrefix(keys, |keys|)
  }

  lemma {:induction false} InsertSpec(keys: seq<Priority>, x: nat, s: seq<nat>)
    requires x < |keys|
    requires forall k :: 0 <= k < |s| ==> s[k] < x
    requires SortedByKey(keys, s)
    ensures multiset(Insert(keys, x, s)) == multiset(s) + multiset{x}
    ensures SortedByKey(keys, Insert(keys, x, s))
  {
    if s == [] {
    } else if PriorityLt(keys[x], keys[s[0]]) {
      var r := [x] + s;
      forall a, b | 0 <= a < b < |r|
        ensures Ahead(keys, r[a], r[b])
      {
        if a == 0 && b > 1 {
          assert Ahead(keys, s[0], s[b - 1]);
          if PriorityLt(keys[s[0]], keys[s[b - 1]]) {
            PriorityLtTransitive(keys[x], keys[s[0]], keys[s[b - 1]]);
          }
        }
      }
    } else {
      var tail := s[1..];
      InsertSpec(keys, x, tail);
      var r := [s[0]] + Insert(keys, x, tail);
      assert s == [s[0]] + tail;
      forall a, b | 0 <= a < b < |r|
        ensures Ahead(keys, r[a], r[b])
      {
        if a == 0 {
          var y := r[b];
          assert y in multiset(Insert(keys, x, tail));
          if y == x {
          } else {
            assert y in tail;
            var c :| 0 <= c < |tail| && tail[c] == y;
            assert Ahead(keys, s[0], s[c + 1]);
          }
        }
      }
    }
  }

  lemma {:induction false} SortPrefixSpec(keys: seq<Priority>, m: nat)
    requires m <= |keys|
    ensures multiset(SortPrefix(keys, m)) == multiset(Range(m))
    ensures SortedByKey(keys, SortPrefix(keys, m))
  {
    if m > 0 {
      SortPrefixSpec(keys, m - 1);
      InsertNext(keys, m, SortPrefix(keys, m - 1));
    }
  }

  /** Inserting position m - 1 into a sorted permutation of 0 .. m-2 gives a sorted permutation of 0 .. m-1. */
  lemma InsertNext(keys: seq<Priority>, m: nat, s: seq<nat>)
    requires 0 < m <= |keys|
    requires multiset(s) == multiset(Range(m - 1)) && SortedByKey(keys, s)
    ensures multiset(Insert(keys, m - 1, s)) == multiset(Range(m))
    ensures SortedByKey(keys, Insert(keys, m - 1, s))
  {
    PermutationOfRange(s, m - 1);
    forall k | 0 <= k < |s|
      ensures s[k] < m - 1
    {
      assert s[k] in s;
    }
    InsertSpec(keys, m - 1, s);
    RangeSnoc(m);
  }

  /** The sorted roster is every position exactly once, in key order, equal keys in position order. */
  lemma SortByKeySpec(keys: seq<Priority>)
    ensures multiset(SortByKey(keys)) == multiset(Range(|keys|))
    ensures |SortByKey(keys)| == |keys|
    ensures Distinct(SortByKey(keys))
    ensures forall k: nat :: k in SortByKey(keys) <==> k < |keys|
    ensures SortedByKey(keys, SortByKey(keys))
  {
    SortPrefixSpec(keys, |keys|);
    PermutationOfRange(SortByKey(keys), |keys|);
  }

  // ---------------------------------------------------------------------------
  // getAvailablePlayers
  // ---------------------------------------------------------------------------

  /** The pool is "small" at 6 players or fewer. */
  const SmallPoolSize: nat := 6

  /** `players.filter(p => p.lastPlayed === matchIndex - 1)`, as positions. */
  function PreviousPlayers(players: seq<InternalPlayer>, matchIndex: nat): seq<nat>
  {
    Filter(Range(|players|), (k: nat) => k < |players| && players[k].lastPlayed == matchIndex - 1)
  }

  /** Rested means fewer than 2 consecutive matches. */
  predicate Rested(keys: seq<Priority>, k: nat)
  {
    k < |keys| && keys[k].consecutive < 2
  }

  /**
   * getAvailablePlayers: sort the roster by key; in a small pool, after the
   * first match, take the first four players who were not in the previous
   * match if there are four, otherwise the first four (topped up from the
   * rest if fewer); in a larger pool take the first four rested players if
   * there are four, otherwise the first four.
   */
  function GetAvailablePlayers(players: seq<InternalPlayer>, matchIndex: nat): (r: seq<nat>)
    ensures |r| == if |players| < 4 then |players| else 4
    ensures forall k :: k in r ==> 0 <= k < |players|
  {
    var n := |players|;
    var keys := Keys(players, matchIndex);
    var sorted := SortByKey(keys);
    SortByKeySpec(keys);
    if n <= SmallPoolSize then
      var previous := PreviousPlayers(players, matchIndex);
      var others := Filter(sorted, k => k !in previous);
      FilterDistinct(sorted, k => k !in previous);
      if matchIndex > 0 && |others| >= 4 then
        Take(others, 4)
      else
        var selected := Take(sorted, 4);
        if |selected| < 4 then
          var remaining := Filter(Drop(sorted, 4), k => k !in selected);
          assert Drop(sorted, 4) == [];
          selected + Take(remaining, 4 - |selected|)
        else selected
    else
      var rested := Filter(sorted, k => Rested(keys, k));
      FilterDistinct(sorted, k => Rested(keys, k));
      if |rested| >= 4 then Take(rested, 4) else Take(sorted, 4)
  }

  /** No position is chosen twice. */
  lemma GetAvailablePlayersDistinct(players: seq<InternalPlayer>, matchIndex: nat)
    ensures Distinct(GetAvailablePlayers(players, matchIndex))
  {
    var keys := Keys(players, matchIndex);
    var sorted := SortByKey(keys);
    SortByKeySpec(keys);
    var previous := PreviousPlayers(players, matchIndex);
    FilterDistinct(sorted, k => k !in previous);
    FilterDistinct(sorted, k => Rested(keys, k));
  }

  /** The consecutive count never reaches 2, so the rested filter keeps the whole sorted roster. */
  lemma LargePoolTakesTopFour(players: seq<InternalPlayer>, matchIndex: nat)
    requires |players| > SmallPoolSize
    ensures GetAvailablePlayers(players, matchIndex) == Take(SortByKey(Keys(players, matchIndex)), 4)
  {
    var keys := Keys(players, matchIndex);
    var sorted := SortByKey(keys);
    SortByKeySpec(keys);
    forall k | k in sorted
      ensures Rested(keys, k)
    {
      ConsecutiveAtMostOne(players[k], matchIndex);
    }
    FilterKeepsAll(sorted, k => Rested(keys, k));
  }

  /**
   * Once at least four players sat in the previous match, a pool of at most
   * six has at most two others, so the forced rotation never fires and the
   * top-up never runs: the choice is always the first four of the sorted roster.
   */
  lemma AvailableIsTopFour(players: seq<InternalPlayer>, matchIndex: nat)
    requires |players| >= 4
    requires |players| <= SmallPoolSize && matchIndex > 0 ==> |PreviousPlayers(players, matchIndex)| >= 4
    ensures GetAvailablePlayers(players, matchIndex) == Take(SortByKey(Keys(players, matchIndex)), 4)
  {
    var n := |players|;
    var keys := Keys(players, matchIndex);
    var sorted := SortByKey(keys);
    SortByKeySpec(keys);
    if n > SmallPoolSize {
      LargePoolTakesTopFour(players, matchIndex);
    } else if matchIndex > 0 {
      var previous := PreviousPlayers(players, matchIndex);
      var others := Filter(sorted, k => k !in previous);
      FilterDistinct(sorted, k => k !in previous);
      RangeDistinct(n);
      FilterDistinct(Range(n), (k: nat) => k < n && players[k].lastPlayed == matchIndex - 1);
      forall x | x in others || x in previous
        ensures x in Range(n)
      {
        assert Range(n)[x] == x;
      }
      DisjointCount(others, previous, Range(n));
    }
  }

  /**
   * With eight or more players, when the previous match's players number at
   * most four and have all played, none of them is picked again: every other
   * player sorts ahead of them and there are at least four others.
   */
  lemma NoBackToBack(players: seq<InternalPlayer>, matchIndex: nat)
    requires |players| >= 8 && matchIndex > 0
    requires |PreviousPlayers(players, matchIndex)| <= 4
    requires forall k :: 0 <= k < |players| && players[k].lastPlayed == matchIndex - 1 ==> players[k].matchesPlayed > 0
    ensures forall k :: k in GetAvailablePlayers(players, matchIndex) ==> players[k].lastPlayed != matchIndex - 1
  {
    var n := |players|;
    var keys := Keys(players, matchIndex);
    var sorted := SortByKey(keys);
    SortByKeySpec(keys);
    LargePoolTakesTopFour(players, matchIndex);
    var r := GetAvailablePlayers(players, matchIndex);
    forall k | k in r
      ensures players[k].lastPlayed != matchIndex - 1
    {
      var a :| 0 <= a < |r| && r[a] == k;
      assert sorted[a] == k;
      PreviousSitLate(players, matchIndex, a, k);
    }
  }

  /** An entry that sorts strictly before another sits at an earlier position. */
  lemma SortedBefore(keys: seq<Priority>, s: seq<nat>, i: nat, j: nat)
    requires SortedByKey(keys, s)
    requires i < |s| && j < |s|
    requires s[j] < |keys| && s[i] < |keys| && PriorityLt(keys[s[j]], keys[s[i]])
    ensures j < i
  {
  }

  /**
   * In a roster of eight or more, a player from the previous match sits
   * behind every other player, so at position 4 or later.
   */
  lemma PreviousSitLate(players: seq<InternalPlayer>, matchIndex: nat, a: nat, k: nat)
    requires |players| >= 8 && matchIndex > 0 && a < |players| && k < |players|
    requires SortByKey(Keys(players, matchIndex))[a] == k
    requires |PreviousPlayers(players, matchIndex)| <= 4
    requires forall k :: 0 <= k < |players| && players[k].lastPlayed == matchIndex - 1 ==> players[k].matchesPlayed > 0
    ensures players[k].lastPlayed == matchIndex - 1 ==> a >= 4
  {
    var n := |players|;
    var keys := Keys(players, matchIndex);
    var sorted := SortByKey(keys);
    SortByKeySpec(keys);
    if players[k].lastPlayed == matchIndex - 1 {
      var previous := PreviousPlayers(players, matchIndex);
      var others := Filter(Range(n), (q: nat) => q < n && players[q].lastPlayed != matchIndex - 1);
      RangeDistinct(n);
      forall x | x in Range(n)
        ensures x in others || x in previous
      {
      }
      CoverCount(Range(n), others, previous);
      FilterDistinct(Range(n), (q: nat) => q < n && players[q].lastPlayed != matchIndex - 1);
      DistinctCard(others);
      ConsecutiveAtMostOne(players[k], matchIndex);
      forall q | q in others
        ensures q in sorted[..a]
      {
        ConsecutiveAtMostOne(players[q], matchIndex);
        assert q in sorted;
        var b :| 0 <= b < |sorted| && sorted[b] == q;
        SortedBefore(keys, sorted, a, b);
      }
      ElemsCard(sorted[..a]);
      SubsetCard(Elems(others), Elems(sorted[..a]));
    }
  }
}
