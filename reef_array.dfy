/**
 * Array helpers of the reef package (packages/reef/src/array.ts): removing one index,
 * the Fisher-Yates shuffle in place and on a copy, and filtering from the back.
 *
 * `Math.random()` is a parameter: `picks[i]` is the position the shuffle loop picks when it
 * stands at position `i` (the pick for position 0 is never used).
 */
module ReefArray {

  /** `removeIndexFromArray(array, i)`: `array.slice(0, i).concat(array.slice(i + 1))`. */
  function RemoveIndex<T>(s: seq<T>, i: nat): (r: seq<T>)
    ensures |r| == if i < |s| then |s| - 1 else |s|
    ensures forall k :: 0 <= k < |r| ==> r[k] == if k < i then s[k] else s[k + 1]
  {
    var front := if i <= |s| then i else |s|;
    var back := if i + 1 <= |s| then i + 1 else |s|;
    s[..front] + s[back..]
  }

  /**
   * Removing an index inside the array drops exactly that element: the others keep their
   * order, the length shrinks by one and the contents lose one copy of the element; an
   * index past the end gives the array back.
   */
  lemma RemoveIndexDropsOne<T>(s: seq<T>, i: nat)
    ensures i < |s| ==>
              && |RemoveIndex(s, i)| == |s| - 1
              && (forall k :: 0 <= k < |s| - 1 ==> RemoveIndex(s, i)[k] == if k < i then s[k] else s[k + 1])
              && multiset(RemoveIndex(s, i)) + multiset{s[i]} == multiset(s)
    ensures i >= |s| ==> RemoveIndex(s, i) == s
  {
    if i < |s| {
      assert s == s[..i] + [s[i]] + s[i + 1..];
    } else {
      assert s[..|s|] == s;
    }
  }

  /** `[1, 2, 3, 4, 5]` without index 2 is `[1, 2, 4, 5]`. */
  lemma RemoveIndexExample()
    ensures RemoveIndex([1, 2, 3, 4, 5], 2) == [1, 2, 4, 5]
  {
    var s := [1, 2, 3, 4, 5];
    assert s[..2] == [1, 2] && s[3..] == [4, 5];
  }

  /**
   * The positions a shuffle of `n` elements picks: at position `i` the loop picks
   * `Math.floor(Math.random() * (i + 1))`, some position from `0` to `i`.
   */
  predicate ValidPicks(picks: seq<nat>, n: nat)
  {
    |picks| == n && forall k :: 0 <= k < n ==> picks[k] <= k
  }

  /** `s` with positions `i` and `j` exchanged. */
  function Swap<T>(s: seq<T>, i: nat, j: nat): (t: seq<T>)
    requires i < |s| && j < |s|
    ensures |t| == |s|
  {
    s[i := s[j]][j := s[i]]
  }

  /** The shuffle loop from position `i` down to 1: swap `i` with its pick, go on with `i - 1`. */
  function ShuffleDown<T>(s: seq<T>, picks: seq<nat>, i: nat): (t: seq<T>)
    requires ValidPicks(picks, |s|) && i < |s|
    ensures |t| == |s|
    decreases i
  {
    if i == 0 then s else ShuffleDown(Swap(s, i, picks[i]), picks, i - 1)
  }

  /** The whole loop of `shuffleArray`, from the last position down. */
  function Shuffled<T>(s: seq<T>, picks: seq<nat>): (r: seq<T>)
    requires ValidPicks(picks, |s|)
    ensures |r| == |s|
  {
    if |s| == 0 then s else ShuffleDown(s, picks, |s| - 1)
  }

  /** A swap moves elements around and loses none. */
  lemma SwapPermutes<T>(s: seq<T>, i: nat, j: nat)
    requires i < |s| && j < |s|
    ensures multiset(Swap(s, i, j)) == multiset(s)
  {
    var t := s[i := s[j]];
    assert multiset(t) == multiset(s) - multiset{s[i]} + multiset{s[j]};
  }

  /**
   * Each step swaps position `i` with a position `j <= i`, so the positions above `i` are
   * never touched again, and the result is a permutation of the start.
   */
  lemma {:induction false} ShuffleDownPermutes<T>(s: seq<T>, picks: seq<nat>, i: nat)
    requires ValidPicks(picks, |s|) && i < |s|
    ensures multiset(ShuffleDown(s, picks, i)) == multiset(s)
    ensures forall k :: i < k < |s| ==> ShuffleDown(s, picks, i)[k] == s[k]
    decreases i
  {
    if i > 0 {
      var j := picks[i];
      var t := Swap(s, i, j);
      SwapPermutes(s, i, j);
      ShuffleDownPermutes(t, picks, i - 1);
    }
  }

  /** A shuffle is a permutation of what it shuffled. */
  lemma ShuffledPermutes<T>(s: seq<T>, picks: seq<nat>)
    requires ValidPicks(picks, |s|)
    ensures |Shuffled(s, picks)| == |s|
    ensures multiset(Shuffled(s, picks)) == multiset(s)
  {
    if |s| > 0 {
      ShuffleDownPermutes(s, picks, |s| - 1);
    }
  }

  /** `shuffleArray(array)`: shuffles in place and returns the very same array. */
  method ShuffleArray<T>(a: array<T>, picks: seq<nat>) returns (r: array<T>)
    requires ValidPicks(picks, a.Length)
    modifies a
    ensures r == a
    ensures a[..] == Shuffled(old(a[..]), picks)
  {
    ShuffleInPlace(a, picks);
    r := a;
  }

  /** The loop of lines 10-13 and 22-25: from the last position down to 1. */
  method ShuffleInPlace<T>(a: array<T>, picks: seq<nat>)
    requires ValidPicks(picks, a.Length)
    modifies a
    ensures a[..] == Shuffled(old(a[..]), picks)
  {
    if a.Length == 0 {
      return;
    }
    var i := a.Length - 1;
    while i > 0
      invariant 0 <= i < a.Length
      invariant Shuffled(old(a[..]), picks) == ShuffleDown(a[..], picks, i)
    {
      var j := picks[i];
      a[i], a[j] := a[j], a[i];
      i := i - 1;
    }
  }

  /** `getShuffleArray(array)`: a shuffled shallow copy; the input is left as it was. */
  method GetShuffleArray<T>(a: array<T>, picks: seq<nat>) returns (b: array<T>)
    requires ValidPicks(picks, a.Length)
    ensures fresh(b)
    ensures b[..] == Shuffled(a[..], picks)
  {
    b := new T[a.Length](k requires 0 <= k < a.Length reads a => a[k]);
    assert b[..] == a[..];
    ShuffleInPlace(b, picks);
  }

  /** The elements of `s` that pass `f`, in order. */
  function Filter<T>(s: seq<T>, f: T -> bool): (r: seq<T>)
    ensures |r| <= |s|
    ensures forall k :: 0 <= k < |r| ==> f(r[k])
  {
    if s == [] then [] else (if f(s[0]) then [s[0]] else []) + Filter(s[1..], f)
  }

  /** `s` back to front. */
  function Reverse<T>(s: seq<T>): (r: seq<T>)
    ensures |r| == |s|
    ensures forall k :: 0 <= k < |s| ==> r[k] == s[|s| - 1 - k]
  {
    if s == [] then [] else Reverse(s[1..]) + [s[0]]
  }

  lemma {:induction false} FilterAppend<T>(x: seq<T>, y: seq<T>, f: T -> bool)
    ensures Filter(x + y, f) == Filter(x, f) + Filter(y, f)
  {
    if x == [] {
      assert x + y == y;
    } else {
      assert (x + y)[1..] == x[1..] + y;
      FilterAppend(x[1..], y, f);
    }
  }

  /** A filter keeps each element as many times as it occurs, exactly when it passes. */
  lemma {:induction false} FilterCounts<T>(s: seq<T>, f: T -> bool, x: T)
    ensures multiset(Filter(s, f))[x] == if f(x) then multiset(s)[x] else 0
  {
    if s != [] {
      FilterCounts(s[1..], f, x);
      assert s == [s[0]] + s[1..];
    }
  }

  /** What `reverseFilter(container, filterFn, onlyFirstCoincidence)` returns. */
  function ReverseFiltered<T>(s: seq<T>, f: T -> bool, onlyFirst: bool): (r: seq<T>)
    ensures forall k :: 0 <= k < |r| ==> f(r[k])
    ensures onlyFirst ==> |r| <= 1
  {
    var hits := Filter(s, f);
    if !onlyFirst then Reverse(hits)
    else if hits == [] then [] else [hits[|hits| - 1]]
  }

  /** `reverseFilter`: walks from the back, returning at the first hit when asked to. */
  method ReverseFilter<T>(container: seq<T>, f: T -> bool, onlyFirstCoincidence: bool) returns (result: seq<T>)
    ensures result == ReverseFiltered(container, f, onlyFirstCoincidence)
  {
    result := [];
    var i := |container|;
    while i > 0
      invariant 0 <= i <= |container|
      invariant container == container[..i] + container[i..]
      invariant onlyFirstCoincidence ==> Filter(container[i..], f) == [] && result == []
      invariant !onlyFirstCoincidence ==> result == Reverse(Filter(container[i..], f))
    {
      var x := container[i - 1];
      assert container[i - 1..] == [x] + container[i..];
      if f(x) {
        if onlyFirstCoincidence {
          LastHit(container, f, i);
          return [x];
        }
        result := result + [x];
      }
      i := i - 1;
    }
    assert container[0..] == container;
  }

  /** With no hit after `i - 1` and a hit at `i - 1`, that element is the last hit. */
  lemma LastHit<T>(s: seq<T>, f: T -> bool, i: nat)
    requires 0 < i <= |s| && f(s[i - 1]) && Filter(s[i..], f) == []
    ensures ReverseFiltered(s, f, true) == [s[i - 1]]
  {
    assert s == s[..i - 1] + [s[i - 1]] + s[i..];
    FilterAppend(s[..i - 1] + [s[i - 1]], s[i..], f);
    FilterAppend(s[..i - 1], [s[i - 1]], f);
  }

  /**
   * The result holds the matching elements and nothing else, each as often as it occurs,
   * the last match first; with `onlyFirstCoincidence` it is the last match alone.
   */
  lemma ReverseFilterKeepsMatches<T>(s: seq<T>, f: T -> bool, x: T)
    ensures multiset(ReverseFiltered(s, f, false))[x] == if f(x) then multiset(s)[x] else 0
    ensures ReverseFiltered(s, f, true) == [] <==> forall k :: 0 <= k < |s| ==> !f(s[k])
  {
    FilterCounts(s, f, x);
    ReverseCounts(Filter(s, f));
    if forall k :: 0 <= k < |s| ==> !f(s[k]) {
      NoHits(s, f);
    } else {
      var k :| 0 <= k < |s| && f(s[k]);
      FilterCounts(s, f, s[k]);
      assert s[k] in multiset(Filter(s, f));
    }
  }

  lemma {:induction false} NoHits<T>(s: seq<T>, f: T -> bool)
    requires forall k :: 0 <= k < |s| ==> !f(s[k])
    ensures Filter(s, f) == []
  {
    if s != [] {
      NoHits(s[1..], f);
    }
  }

  /** A filter that every element passes keeps the sequence as it is. */
  lemma {:induction false} FilterKeepsAll<T>(s: seq<T>, f: T -> bool)
    requires forall k :: 0 <= k < |s| ==> f(s[k])
    ensures Filter(s, f) == s
  {
    if s != [] {
      FilterKeepsAll(s[1..], f);
    }
  }

  lemma ReverseCounts<T>(s: seq<T>)
    ensures multiset(Reverse(s)) == multiset(s)
  {
    if s != [] {
      ReverseCounts(s[1..]);
      assert s == [s[0]] + s[1..];
    }
  }

  /** `reverseFilter([1, 2, 3, 4, 5], isEven)` is `[4, 2]`. */
  lemma ReverseFilterExample()
    ensures ReverseFiltered([1, 2, 3, 4, 5], x => x % 2 == 0, false) == [4, 2]
  {
    var s := [1, 2, 3, 4, 5];
    var even := (x: int) => x % 2 == 0;
    assert Filter(s[4..], even) == [];
    assert Filter(s[3..], even) == [4];
    assert Filter(s[2..], even) == [4];
    assert Filter(s[1..], even) == [2, 4];
    assert Filter(s, even) == [2, 4];
  }
}
