/** The in-place shuffle the service applies to an upcoming pile: a
    Fisher-Yates pass from the last position down to position 1, swapping each
    position with one chosen at or below it. The random source is a
    parameter. */
module Shuffling {

  /** A random source for one shuffle: the raw number drawn at step i. */
  type Draws = nat -> nat

  /** The position drawn at step i: the raw number reduced to 0..i, a draw
      from 0..n-1 with n = i + 1. */
  function Pick(choose: Draws, i: nat): (j: nat)
    ensures j <= i
  {
    choose(i) % (i + 1)
  }

  /** A raw draw already below the bound is taken as it is. */
  lemma SmallDraw(v: nat, bound: nat)
    requires v < bound
    ensures v % bound == v
  {
  }

  /** Exchange the elements at positions `i` and `j`. */
  function Swap<T>(s: seq<T>, i: nat, j: nat): (t: seq<T>)
    requires i < |s| && j < |s|
    ensures |t| == |s|
    ensures t[i] == s[j] && t[j] == s[i]
  {
    s[i := s[j]][j := s[i]]
  }

  /** A swap leaves every other position as it was. */
  lemma SwapLeavesOthers<T>(s: seq<T>, i: nat, j: nat, k: nat)
    requires i < |s| && j < |s| && k < |s| && k != i && k != j
    ensures Swap(s, i, j)[k] == s[k]
  {
  }

  /** A swap only rearranges the contents. */
  lemma SwapPermutes<T>(s: seq<T>, i: nat, j: nat)
    requires i < |s| && j < |s|
    ensures multiset(Swap(s, i, j)) == multiset(s)
  {
  }

  /** The Fisher-Yates steps for positions i, i - 1, ..., 1. */
  function ShuffleDown<T>(s: seq<T>, i: nat, choose: Draws): (t: seq<T>)
    requires i < |s|
    ensures |t| == |s|
    decreases i
  {
    if i == 0 then s
    else ShuffleDown(Swap(s, i, Pick(choose, i)), i - 1, choose)
  }

  /** The Fisher-Yates steps only rearrange the contents. */
  lemma {:induction false} ShuffleDownPermutes<T>(s: seq<T>, i: nat, choose: Draws)
    requires i < |s|
    ensures multiset(ShuffleDown(s, i, choose)) == multiset(s)
    decreases i
  {
    if i > 0 {
      SwapPermutes(s, i, Pick(choose, i));
      ShuffleDownPermutes(Swap(s, i, Pick(choose, i)), i - 1, choose);
    }
  }

  /** A full shuffle: the result is a permutation of the input. */
  function Shuffle<T>(s: seq<T>, choose: Draws): (t: seq<T>)
    ensures |t| == |s|
    ensures multiset(t) == multiset(s)
  {
    if |s| == 0 then s
    else
      ShuffleDownPermutes(s, |s| - 1, choose);
      ShuffleDown(s, |s| - 1, choose)
  }

  /** A pile of at most one card comes back unchanged, whatever the draws. */
  lemma ShuffleShortPile<T>(s: seq<T>, choose: Draws)
    requires |s| <= 1
    ensures Shuffle(s, choose) == s
  {
  }

  /** The steps for positions i down to 1 consult the random source only at
      those positions. */
  lemma {:induction false} ShuffleDownUsesDrawsUpTo<T>(s: seq<T>, i: nat, c1: Draws, c2: Draws)
    requires i < |s|
    requires forall k :: 0 <= k <= i ==> c1(k) == c2(k)
    ensures ShuffleDown(s, i, c1) == ShuffleDown(s, i, c2)
    decreases i
  {
    if i > 0 {
      assert Pick(c1, i) == Pick(c2, i);
      ShuffleDownUsesDrawsUpTo(Swap(s, i, Pick(c1, i)), i - 1, c1, c2);
    }
  }

  /** The card wanted at position i sits at some position at or below i. */
  lemma SourcePosition<T>(s: seq<T>, t: seq<T>, i: nat) returns (j: nat)
    requires i < |s| == |t|
    requires multiset(s[..i + 1]) == multiset(t[..i + 1])
    ensures j <= i && s[j] == t[i]
  {
    assert t[i] == t[..i + 1][i];
    assert t[i] in multiset(s[..i + 1]);
    assert t[i] in s[..i + 1];
    var k :| 0 <= k <= i && s[..i + 1][k] == t[i];
    j := k;
  }

  /** A swap inside positions 0..i keeps the multiset of that prefix. */
  lemma SwapKeepsPrefix<T>(s: seq<T>, i: nat, j: nat)
    requires j <= i < |s|
    ensures multiset(Swap(s, i, j)[..i + 1]) == multiset(s[..i + 1])
  {
    assert Swap(s, i, j)[..i + 1] == Swap(s[..i + 1], i, j);
    SwapPermutes(s[..i + 1], i, j);
  }

  /** Removing the last element from both of two sequences with equal
      multisets and equal last elements keeps their multisets equal. */
  lemma DropLast<T>(u: seq<T>, v: seq<T>)
    requires 0 < |u| == |v| && u[|u| - 1] == v[|v| - 1]
    requires multiset(u) == multiset(v)
    ensures multiset(u[..|u| - 1]) == multiset(v[..|v| - 1])
  {
    var x := u[|u| - 1];
    var u', v' := u[..|u| - 1], v[..|v| - 1];
    assert u == u' + [x];
    assert v == v' + [x];
    var m := multiset(u);
    assert m == multiset(u') + multiset{x};
    assert m == multiset(v') + multiset{x};
    assert multiset(u') == m - multiset{x};
    assert multiset(v') == m - multiset{x};
  }

  /** Swapping into position i a card that belongs there leaves a smaller
      rearrangement problem on positions 0..i-1. */
  lemma SwapIntoPlace<T>(s: seq<T>, t: seq<T>, i: nat, j: nat)
    requires 0 < i < |s| == |t| && j <= i
    requires multiset(s[..i + 1]) == multiset(t[..i + 1])
    requires s[i + 1..] == t[i + 1..]
    requires s[j] == t[i]
    ensures multiset(Swap(s, i, j)[..i]) == multiset(t[..i])
    ensures Swap(s, i, j)[i..] == t[i..]
  {
    var s' := Swap(s, i, j);
    SwapKeepsPrefix(s, i, j);
    DropLast(s'[..i + 1], t[..i + 1]);
    assert s'[..i + 1][..i] == s'[..i];
    assert t[..i + 1][..i] == t[..i];
    assert s'[i..] == [t[i]] + s[i + 1..];
    assert t[i..] == [t[i]] + t[i + 1..];
  }

  /** Two sequences that agree after position 0 and hold the same first
      element are equal. */
  lemma SingletonPrefixes<T>(s: seq<T>, t: seq<T>)
    requires 0 < |s| == |t|
    requires multiset(s[..1]) == multiset(t[..1])
    requires s[1..] == t[1..]
    ensures s == t
  {
    assert s[..1] == [s[0]] && t[..1] == [t[0]];
    assert s[0] in multiset(t[..1]);
    assert s == [s[0]] + s[1..] && t == [t[0]] + t[1..];
  }

  /** The random source `inner` with its draw at step i replaced by j. */
  function FixDraw(inner: Draws, i: nat, j: nat): (choose: Draws)
    requires j <= i
    ensures Pick(choose, i) == j
  {
    SmallDraw(j, i + 1);
    k => if k == i then j else inner(k)
  }

  /** Fixing the draw at step i to j makes the first step swap i with j and
      leaves the remaining steps as `inner` would perform them. */
  lemma FirstStepThenRest<T>(s: seq<T>, i: nat, j: nat, inner: Draws)
    requires 0 < i < |s| && j <= i
    ensures ShuffleDown(s, i, FixDraw(inner, i, j)) == ShuffleDown(Swap(s, i, j), i - 1, inner)
  {
    var choose := FixDraw(inner, i, j);
    forall k: nat | k <= i - 1
      ensures choose(k) == inner(k)
    {
    }
    ShuffleDownUsesDrawsUpTo(Swap(s, i, j), i - 1, choose, inner);
  }

  /** Any rearrangement of positions 0..i is produced by some random source. */
  lemma {:induction false} ShuffleDownReachesAll<T>(s: seq<T>, t: seq<T>, i: nat) returns (choose: Draws)
    requires i < |s| == |t|
    requires multiset(s[..i + 1]) == multiset(t[..i + 1])
    requires s[i + 1..] == t[i + 1..]
    ensures ShuffleDown(s, i, choose) == t
    decreases i
  {
    if i == 0 {
      SingletonPrefixes(s, t);
      choose := k => 0;
    } else {
      var j := SourcePosition(s, t, i);
      SwapIntoPlace(s, t, i, j);
      assert i - 1 + 1 == i;
      var inner := ShuffleDownReachesAll(Swap(s, i, j), t, i - 1);
      choose := FixDraw(inner, i, j);
      FirstStepThenRest(s, i, j, inner);
    }
  }

  /** Every permutation of the pile is the outcome of the shuffle for some
      random source, and (by its contract) nothing else is. */
  lemma ShuffleReachesOrder<T>(s: seq<T>, t: seq<T>) returns (choose: Draws)
    requires multiset(s) == multiset(t)
    ensures Shuffle(s, choose) == t
  {
    assert |s| == |multiset(s)| == |t|;
    if |s| == 0 {
      choose := k => 0;
    } else {
      assert s[..|s|] == s && t[..|t|] == t;
      choose := ShuffleDownReachesAll(s, t, |s| - 1);
    }
  }
}
