/**
 * The candidate enumeration of the session generator
 * (src/utils/sessionGenerator.ts): every size-k choice of the available
 * players, and the three ways of splitting four players into two pairs.
 */
module SessionCombinations {
  import opened SeqUtils

  // ---------------------------------------------------------------------------
  // getCombinations
  // ---------------------------------------------------------------------------

  /**
   * What `combine(start, combo)` appends to the shared result: `combo` itself
   * once it has `size` elements, otherwise the extensions by each later element
   * in index order.
   */
  function Combos<T>(arr: seq<T>, size: nat, start: nat, combo: seq<T>): seq<seq<T>>
    requires start <= |arr|
    decreases |arr| - start, 1
  {
    if |combo| == size then [combo] else ComboLoop(arr, size, combo, start)
  }

  /** The `for (let i = start; ...)` loop of `combine`, from index `i` on. */
  function ComboLoop<T>(arr: seq<T>, size: nat, combo: seq<T>, i: nat): seq<seq<T>>
    requires i <= |arr|
    decreases |arr| - i, 0
  {
    if i == |arr| then []
    else Combos(arr, size, i + 1, combo + [arr[i]]) + ComboLoop(arr, size, combo, i + 1)
  }

  /** The binomial coefficient, by Pascal's rule. */
  function Choose(n: nat, k: nat): nat
  {
    if k == 0 then 1 else if n == 0 then 0 else Choose(n - 1, k - 1) + Choose(n - 1, k)
  }

  /** The recursive helper, threading the shared result array through its calls. */
  method Combine<T>(arr: seq<T>, size: nat, start: nat, combo: seq<T>, result0: seq<seq<T>>)
    returns (result: seq<seq<T>>)
    requires start <= |arr|
    ensures result == result0 + Combos(arr, size, start, combo)
    decreases |arr| - start
  {
    result := result0;
    if |combo| == size {
      result := result + [combo];
      return;
    }
    var i := start;
    while i < |arr|
      invariant start <= i <= |arr|
      invariant result + ComboLoop(arr, size, combo, i) == result0 + ComboLoop(arr, size, combo, start)
    {
      result := Combine(arr, size, i + 1, combo + [arr[i]], result);
      i := i + 1;
    }
  }

  /** getCombinations: the result of `combine(0, [])`. */
  method GetCombinations<T>(arr: seq<T>, size: nat) returns (result: seq<seq<T>>)
    ensures result == Combos(arr, size, 0, [])
    ensures |result| == Choose(|arr|, size)
    ensures forall c :: c in result ==> |c| == size && multiset(c) <= multiset(arr)
  {
    result := Combine(arr, size, 0, [], []);
    CombosCount(arr, size);
    CombosShape(arr, size);
  }

  /** Every call with `r` elements still to choose from `n - start` remaining adds C(n - start, r) results. */
  lemma {:induction false} CombosCountFrom<T>(arr: seq<T>, size: nat, start: nat, combo: seq<T>)
    requires start <= |arr| && |combo| <= size
    ensures |Combos(arr, size, start, combo)| == Choose(|arr| - start, size - |combo|)
    decreases |arr| - start, 1
  {
    if |combo| < size {
      ComboLoopCount(arr, size, combo, start);
    }
  }

  lemma {:induction false} ComboLoopCount<T>(arr: seq<T>, size: nat, combo: seq<T>, i: nat)
    requires i <= |arr| && |combo| < size
    ensures |ComboLoop(arr, size, combo, i)| == Choose(|arr| - i, size - |combo|)
    decreases |arr| - i, 0
  {
    if i < |arr| {
      CombosCountFrom(arr, size, i + 1, combo + [arr[i]]);
      ComboLoopCount(arr, size, combo, i + 1);
    }
  }

  /** getCombinations yields C(n, k) results. */
  lemma CombosCount<T>(arr: seq<T>, size: nat)
    ensures |Combos(arr, size, 0, [])| == Choose(|arr|, size)
  {
    CombosCountFrom(arr, size, 0, []);
  }

  lemma {:induction false} ChooseZero(n: nat, k: nat)
    requires n < k
    ensures Choose(n, k) == 0
  {
    if n > 0 {
      ChooseZero(n - 1, k - 1);
      ChooseZero(n - 1, k);
    }
  }

  /** Fewer elements than the size: no combination at all. */
  lemma NoCombosWhenTooFew<T>(arr: seq<T>, size: nat)
    requires |arr| < size
    ensures Combos(arr, size, 0, []) == []
  {
    CombosCount(arr, size);
    ChooseZero(|arr|, size);
  }

  /**
   * Every result is `combo` extended by later elements of `arr`: it has
   * `size` elements, and the added ones are drawn from `arr[start..]` without
   * reuse.
   */
  lemma {:induction false} CombosShapeFrom<T>(arr: seq<T>, size: nat, start: nat, combo: seq<T>)
    requires start <= |arr| && |combo| <= size
    ensures forall c :: c in Combos(arr, size, start, combo) ==>
      |c| == size && c[..|combo|] == combo && multiset(c[|combo|..]) <= multiset(arr[start..])
    decreases |arr| - start, 1
  {
    if |combo| == size {
      assert combo[..|combo|] == combo && combo[|combo|..] == [];
    } else {
      ComboLoopShape(arr, size, combo, start);
    }
  }

  lemma {:induction false} ComboLoopShape<T>(arr: seq<T>, size: nat, combo: seq<T>, i: nat)
    requires i <= |arr| && |combo| < size
    ensures forall c :: c in ComboLoop(arr, size, combo, i) ==>
      |c| == size && c[..|combo|] == combo && multiset(c[|combo|..]) <= multiset(arr[i..])
    decreases |arr| - i, 0
  {
    if i < |arr| {
      var ext := combo + [arr[i]];
      CombosShapeFrom(arr, size, i + 1, ext);
      ComboLoopShape(arr, size, combo, i + 1);
      assert arr[i..] == [arr[i]] + arr[i + 1..];
      forall c | c in Combos(arr, size, i + 1, ext)
        ensures |c| == size && c[..|combo|] == combo && multiset(c[|combo|..]) <= multiset(arr[i..])
      {
        assert c[..|ext|] == ext;
        assert c[..|combo|] == c[..|ext|][..|combo|];
        assert c[|combo|..] == [arr[i]] + c[|ext|..];
      }
    }
  }

  /** Every result has `size` elements, taken from `arr` without reuse. */
  lemma CombosShape<T>(arr: seq<T>, size: nat)
    ensures forall c :: c in Combos(arr, size, 0, []) ==> |c| == size && multiset(c) <= multiset(arr)
  {
    if size == 0 {
    } else {
      ComboLoopShape(arr, size, [], 0);
      assert arr[0..] == arr;
      forall c | c in Combos(arr, size, 0, [])
        ensures multiset(c) <= multiset(arr)
      {
        assert c[0..] == c;
      }
    }
  }

  /** A loop with fewer elements left than still to choose adds nothing. */
  lemma NothingLeftToChoose<T>(arr: seq<T>, size: nat, combo: seq<T>, i: nat)
    requires i <= |arr| && |combo| < size && |arr| - i < size - |combo|
    ensures ComboLoop(arr, size, combo, i) == []
  {
    ComboLoopCount(arr, size, combo, i);
    ChooseZero(|arr| - i, size - |combo|);
  }

  /** Choosing four out of four yields the four themselves, once. */
  lemma CombosOfFour<T>(arr: seq<T>)
    requires |arr| == 4
    ensures Combos(arr, 4, 0, []) == [arr]
  {
    var a, b, c, d := arr[0], arr[1], arr[2], arr[3];
    assert [a, b, c] + [d] == arr;
    assert [a, b] + [c] == [a, b, c];
    assert [a] + [b] == [a, b];
    assert [] + [a] == [a];
    assert Combos(arr, 4, 4, arr) == [arr];
    assert Combos(arr, 4, 3, [a, b, c]) == Combos(arr, 4, 4, arr) + ComboLoop(arr, 4, [a, b, c], 4);
    NothingLeftToChoose(arr, 4, [a, b], 3);
    assert Combos(arr, 4, 2, [a, b]) == Combos(arr, 4, 3, [a, b, c]) + ComboLoop(arr, 4, [a, b], 3);
    NothingLeftToChoose(arr, 4, [a], 2);
    assert Combos(arr, 4, 1, [a]) == Combos(arr, 4, 2, [a, b]) + ComboLoop(arr, 4, [a], 2);
    NothingLeftToChoose(arr, 4, [], 1);
    assert Combos(arr, 4, 0, []) == Combos(arr, 4, 1, [a]) + ComboLoop(arr, 4, [], 1);
  }

  // ---------------------------------------------------------------------------
  // getCombinations by index
  // ---------------------------------------------------------------------------

  /** The elements of `arr` at the index list `ix`. */
  function Pick<T>(arr: seq<T>, ix: seq<nat>): (r: seq<T>)
    requires forall i :: 0 <= i < |ix| ==> ix[i] < |arr|
    ensures |r| == |ix|
    ensures forall i :: 0 <= i < |ix| ==> r[i] == arr[ix[i]]
  {
    seq(|ix|, i requires 0 <= i < |ix| => arr[ix[i]])
  }

  /** Every index of every index list is below `n`. */
  ghost predicate Bounded(cs: seq<seq<nat>>, n: nat)
  {
    forall j, i :: 0 <= j < |cs| && 0 <= i < |cs[j]| ==> cs[j][i] < n
  }

  /** `Pick` applied to each index list. */
  function PickAll<T>(arr: seq<T>, cs: seq<seq<nat>>): (r: seq<seq<T>>)
    requires Bounded(cs, |arr|)
    ensures |r| == |cs|
    ensures forall j :: 0 <= j < |cs| ==> r[j] == Pick(arr, cs[j])
  {
    seq(|cs|, j requires 0 <= j < |cs| => Pick(arr, cs[j]))
  }

  /** The indices strictly increase. */
  ghost predicate Increasing(ix: seq<nat>)
  {
    forall i, j :: 0 <= i < j < |ix| ==> ix[i] < ix[j]
  }

  /** `x` comes strictly before `y` in lexicographic order: they agree up to a position where `x` is smaller. */
  ghost predicate LexBefore(x: seq<nat>, y: seq<nat>)
  {
    exists p :: 0 <= p < |x| && p < |y| && x[..p] == y[..p] && x[p] < y[p]
  }

  ghost predicate LexSorted(cs: seq<seq<nat>>)
  {
    forall i, j :: 0 <= i < j < |cs| ==> LexBefore(cs[i], cs[j])
  }

  lemma LexSortedAppend(a: seq<seq<nat>>, b: seq<seq<nat>>)
    requires LexSorted(a) && LexSorted(b)
    requires forall x, y :: x in a && y in b ==> LexBefore(x, y)
    ensures LexSorted(a + b)
  {
    var ab := a + b;
    forall i, j | 0 <= i < j < |ab|
      ensures LexBefore(ab[i], ab[j])
    {
      if j < |a| {
        assert ab[i] == a[i] && ab[j] == a[j];
      } else if |a| <= i {
        assert ab[i] == b[i - |a|] && ab[j] == b[j - |a|];
      } else {
        assert ab[i] == a[i] && a[i] in a;
        assert ab[j] == b[j - |a|] && b[j - |a|] in b;
      }
    }
  }

  lemma PickAllAppend<T>(arr: seq<T>, a: seq<seq<nat>>, b: seq<seq<nat>>)
    requires Bounded(a, |arr|) && Bounded(b, |arr|)
    ensures Bounded(a + b, |arr|)
    ensures PickAll(arr, a + b) == PickAll(arr, a) + PickAll(arr, b)
  {
    var ab := a + b;
    forall j, i | 0 <= j < |ab| && 0 <= i < |ab[j]|
      ensures ab[j][i] < |arr|
    {
      if j < |a| {
        assert ab[j] == a[j];
      } else {
        assert ab[j] == b[j - |a|];
      }
    }
  }

  /**
   * Run on the index list `0 .. n-1`, a call extends `combo` by increasing
   * indices from `start` on, and its results come in strictly increasing
   * lexicographic order.
   */
  lemma {:induction false} IndexCombosFrom(n: nat, size: nat, start: nat, combo: seq<nat>)
    requires start <= n && |combo| <= size && Increasing(combo)
    requires forall i :: 0 <= i < |combo| ==> combo[i] < start
    ensures forall c :: c in Combos(Range(n), size, start, combo) ==>
      |c| == size && Increasing(c) && c[..|combo|] == combo &&
      (forall i :: |combo| <= i < |c| ==> start <= c[i] < n)
    ensures LexSorted(Combos(Range(n), size, start, combo))
    decreases n - start, 1
  {
    if |combo| == size {
      assert combo[..|combo|] == combo;
    } else {
      IndexComboLoop(n, size, combo, start);
    }
  }

  lemma {:induction false} IndexComboLoop(n: nat, size: nat, combo: seq<nat>, i: nat)
    requires i <= n && |combo| < size && Increasing(combo)
    requires forall k :: 0 <= k < |combo| ==> combo[k] < i
    ensures forall c :: c in ComboLoop(Range(n), size, combo, i) ==>
      |c| == size && Increasing(c) && c[..|combo|] == combo &&
      (forall k :: |combo| <= k < |c| ==> i <= c[k] < n)
    ensures LexSorted(ComboLoop(Range(n), size, combo, i))
    decreases n - i, 0
  {
    if i < n {
      var ext := combo + [i];
      assert Range(n)[i] == i;
      IndexCombosFrom(n, size, i + 1, ext);
      IndexComboLoop(n, size, combo, i + 1);
      var first := Combos(Range(n), size, i + 1, ext);
      var rest := ComboLoop(Range(n), size, combo, i + 1);
      forall c | c in first
        ensures c[..|combo|] == combo && c[|combo|] == i
      {
        assert c[..|ext|] == ext;
        assert c[..|combo|] == c[..|ext|][..|combo|];
      }
      forall x, y | x in first && y in rest
        ensures LexBefore(x, y)
      {
        var p := |combo|;
        assert x[..p] == y[..p] && x[p] < y[p];
      }
      LexSortedAppend(first, rest);
    }
  }

  /** Every call of `combine` on `arr` is the same call on the indices, with each index list read from `arr`. */
  lemma {:induction false} CombosByIndexFrom<T>(arr: seq<T>, size: nat, start: nat, ix: seq<nat>)
    requires start <= |arr| && forall i :: 0 <= i < |ix| ==> ix[i] < |arr|
    ensures Bounded(Combos(Range(|arr|), size, start, ix), |arr|)
    ensures Combos(arr, size, start, Pick(arr, ix)) == PickAll(arr, Combos(Range(|arr|), size, start, ix))
    decreases |arr| - start, 1
  {
    if |ix| != size {
      ComboLoopByIndex(arr, size, ix, start);
    }
  }

  lemma {:induction false} ComboLoopByIndex<T>(arr: seq<T>, size: nat, ix: seq<nat>, i: nat)
    requires i <= |arr| && forall k :: 0 <= k < |ix| ==> ix[k] < |arr|
    ensures Bounded(ComboLoop(Range(|arr|), size, ix, i), |arr|)
    ensures ComboLoop(arr, size, Pick(arr, ix), i) == PickAll(arr, ComboLoop(Range(|arr|), size, ix, i))
    decreases |arr| - i, 0
  {
    if i < |arr| {
      var ext := ix + [i];
      assert Range(|arr|)[i] == i;
      assert Pick(arr, ext) == Pick(arr, ix) + [arr[i]];
      CombosByIndexFrom(arr, size, i + 1, ext);
      ComboLoopByIndex(arr, size, ix, i + 1);
      PickAllAppend(arr, Combos(Range(|arr|), size, i + 1, ext), ComboLoop(Range(|arr|), size, ix, i + 1));
    }
  }

  /**
   * getCombinations returns, read from `arr`, exactly the index lists of
   * the same call on `0 .. n-1`: each one strictly increasing, all of them
   * different and in lexicographic order.
   */
  lemma CombosInIndexOrder<T>(arr: seq<T>, size: nat)
    ensures Bounded(Combos(Range(|arr|), size, 0, []), |arr|)
    ensures Combos(arr, size, 0, []) == PickAll(arr, Combos(Range(|arr|), size, 0, []))
    ensures forall c :: c in Combos(Range(|arr|), size, 0, []) ==> |c| == size && Increasing(c)
    ensures LexSorted(Combos(Range(|arr|), size, 0, []))
    ensures forall i, j :: 0 <= i < j < |Combos(Range(|arr|), size, 0, [])| ==>
      Combos(Range(|arr|), size, 0, [])[i] != Combos(Range(|arr|), size, 0, [])[j]
  {
    assert Pick(arr, []) == [];
    CombosByIndexFrom(arr, size, 0, []);
    IndexCombosFrom(|arr|, size, 0, []);
    var cs := Combos(Range(|arr|), size, 0, []);
    forall i, j | 0 <= i < j < |cs|
      ensures cs[i] != cs[j]
    {
      assert LexBefore(cs[i], cs[j]);
      var p :| 0 <= p < |cs[i]| && p < |cs[j]| && cs[i][..p] == cs[j][..p] && cs[i][p] < cs[j][p];
    }
  }

  // ---------------------------------------------------------------------------
  // splitTeams
  // ---------------------------------------------------------------------------

  /** Two teams facing each other. */
  datatype Pairing<T> = Pairing(team1: seq<T>, team2: seq<T>)

  /**
   * splitTeams: with `[a, b, c, d]` the first four players, pair `a` with
   * each of the others in turn against the remaining two.
   */
  function SplitTeams<T>(four: seq<T>): (r: seq<Pairing<T>>)
    requires |four| >= 4
    ensures |r| == 3
    ensures forall i :: 0 <= i < 3 ==>
      |r[i].team1| == 2 && |r[i].team2| == 2 && r[i].team1[0] == four[0]
  {
    var a, b, c, d := four[0], four[1], four[2], four[3];
    [Pairing([a, b], [c, d]), Pairing([a, c], [b, d]), Pairing([a, d], [b, c])]
  }

  /** Each split puts the four players into the two teams, each exactly once. */
  lemma SplitsArePartitions<T>(four: seq<T>)
    requires |four| >= 4
    ensures forall i :: 0 <= i < 3 ==>
      multiset(SplitTeams(four)[i].team1 + SplitTeams(four)[i].team2) == multiset(four[..4])
  {
    var a, b, c, d := four[0], four[1], four[2], four[3];
    assert four[..4] == [a, b, c, d];
    var r := SplitTeams(four);
    forall i | 0 <= i < 3
      ensures multiset(r[i].team1 + r[i].team2) == multiset([a, b, c, d])
    {
      if i == 0 {
        assert r[i].team1 + r[i].team2 == [a, b, c, d];
      } else if i == 1 {
        assert r[i].team1 + r[i].team2 == [a, c, b, d];
        SwapMiddle(a, b, c, d);
      } else {
        assert r[i].team1 + r[i].team2 == [a, d, b, c];
        SwapMiddle(a, d, b, c);
        SwapLast(a, b, d, c);
      }
    }
  }

  lemma SingletonsOfFour<T>(a: T, b: T, c: T, d: T)
    ensures multiset([a, b, c, d]) == multiset([a]) + multiset([b]) + multiset([c]) + multiset([d])
  {
    assert [a, b, c, d] == [a, b, c] + [d];
    assert [a, b, c] == [a, b] + [c];
    assert [a, b] == [a] + [b];
  }

  lemma SwapMiddle<T>(a: T, x: T, y: T, z: T)
    ensures multiset([a, x, y, z]) == multiset([a, y, x, z])
  {
    SingletonsOfFour(a, x, y, z);
    SingletonsOfFour(a, y, x, z);
  }

  lemma SwapLast<T>(a: T, b: T, x: T, y: T)
    ensures multiset([a, b, x, y]) == multiset([a, b, y, x])
  {
    SingletonsOfFour(a, b, x, y);
    SingletonsOfFour(a, b, y, x);
  }

  /** With four distinct players the three splits are different pairings. */
  lemma SplitsDistinct<T>(four: seq<T>)
    requires |four| >= 4 && Distinct(four[..4])
    ensures forall i, j :: 0 <= i < j < 3 ==> SplitTeams(four)[i] != SplitTeams(four)[j]
  {
    var r := SplitTeams(four);
    assert four[..4][1] != four[..4][2] && four[..4][1] != four[..4][3] && four[..4][2] != four[..4][3];
    assert r[0].team1[1] != r[1].team1[1] && r[0].team1[1] != r[2].team1[1] && r[1].team1[1] != r[2].team1[1];
  }

  /**
   * The splits are all of them: any way of putting the first player with one
   * partner against the other two is one of the three.
   */
  lemma SplitsCoverAll<T>(four: seq<T>, partner: nat)
    requires |four| >= 4 && 1 <= partner < 4
    ensures exists i :: 0 <= i < 3 && SplitTeams(four)[i].team1 == [four[0], four[partner]] &&
      multiset(SplitTeams(four)[i].team2) == multiset(four[..4]) - multiset{four[0], four[partner]}
  {
    var r := SplitTeams(four);
    var i := partner - 1;
    SplitsArePartitions(four);
    assert r[i].team1 == [four[0], four[partner]];
  }
}
