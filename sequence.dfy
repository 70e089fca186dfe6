/** The click order: generateRandomNumbers, an in-place Fisher-Yates shuffle
    of [1..count]. The random index drawn at each step is supplied by the
    caller instead of Math.random. */
module Sequence {

  /** The identity sequence [1, 2, ..., n]. */
  function Iota(n: nat): (r: seq<int>)
    ensures |r| == n
    ensures forall k :: 0 <= k < n ==> r[k] == k + 1
  {
    if n == 0 then [] else Iota(n - 1) + [n]
  }

  /** The values 1..n as a set (empty when n < 1). */
  function Upto(n: int): (r: set<int>)
    ensures forall k :: k in r <==> 1 <= k <= n
    decreases if n < 0 then 0 else n
  {
    if n < 1 then {} else Upto(n - 1) + {n}
  }

  lemma {:induction false} UptoSize(n: nat)
    ensures |Upto(n)| == n
  {
    if n > 0 {
      UptoSize(n - 1);
      var prev := Upto(n - 1);
      assert n !in prev;
      assert |prev + {n}| == |prev| + 1;
    }
  }

  /** A set of values drawn from 1..n has at most n elements, and exactly n
      only when it is all of 1..n. */
  lemma {:induction false} SubsetOfUpto(s: set<int>, n: nat)
    requires s <= Upto(n)
    ensures |s| <= n
    ensures |s| == n ==> s == Upto(n)
  {
    if n > 0 {
      SubsetOfUpto(s - {n}, n - 1);
      if n in s {
        assert s == (s - {n}) + {n};
      } else {
        assert s == s - {n};
      }
    } else {
      assert s == {};
    }
  }

  /** Every value 1..n occurs in Iota(n) exactly once, and nothing else occurs. */
  lemma {:induction false} IotaOccurrences(n: nat, v: int)
    ensures multiset(Iota(n))[v] == if 1 <= v <= n then 1 else 0
  {
    if n > 0 {
      IotaOccurrences(n - 1, v);
      var prefix := Iota(n - 1);
      assert Iota(n) == prefix + [n];
      assert multiset(prefix + [n]) == multiset(prefix) + multiset{n};
    }
  }

  /** The destructuring swap [s[i], s[j]] = [s[j], s[i]]. */
  function Swap(s: seq<int>, i: nat, j: nat): seq<int>
    requires i < |s| && j < |s|
  {
    s[i := s[j]][j := s[i]]
  }

  lemma SwapPermutes(s: seq<int>, i: nat, j: nat)
    requires i < |s| && j < |s|
    ensures |Swap(s, i, j)| == |s|
    ensures multiset(Swap(s, i, j)) == multiset(s)
  {
    var t := s[i := s[j]];
    assert multiset(t) == multiset(s) - multiset{s[i]} + multiset{s[j]};
    assert multiset(t[j := s[i]]) == multiset(t) - multiset{t[j]} + multiset{s[i]};
  }

  /** The draws for the steps i, i-1, ..., 1 in the order the loop makes
      them: draw k is the index picked at step i - k, so it lies in [0, i - k]. */
  predicate DrawsFor(i: nat, draws: seq<nat>)
  {
    |draws| == i && forall k :: 0 <= k < i ==> draws[k] <= i - k
  }

  /** The shuffle's remaining work: the steps i down to 1 applied to s. */
  function ShuffleFrom(s: seq<int>, i: nat, draws: seq<nat>): seq<int>
    requires i < |s| || i == 0
    requires DrawsFor(i, draws)
    decreases i
  {
    if i == 0 then s else ShuffleFrom(Swap(s, i, draws[0]), i - 1, draws[1..])
  }

  /** Number of swap steps the loop makes for count elements (i = count-1 down to 1). */
  function Steps(count: nat): nat
  {
    if count == 0 then 0 else count - 1
  }

  /** The sequence the generator returns for the given draws. */
  function Shuffled(count: nat, draws: seq<nat>): seq<int>
    requires DrawsFor(Steps(count), draws)
  {
    ShuffleFrom(Iota(count), Steps(count), draws)
  }

  lemma {:induction false} ShufflePermutes(s: seq<int>, i: nat, draws: seq<nat>)
    requires i < |s| || i == 0
    requires DrawsFor(i, draws)
    ensures |ShuffleFrom(s, i, draws)| == |s|
    ensures multiset(ShuffleFrom(s, i, draws)) == multiset(s)
    decreases i
  {
    if i > 0 {
      SwapPermutes(s, i, draws[0]);
      ShufflePermutes(Swap(s, i, draws[0]), i - 1, draws[1..]);
    }
  }

  /** Whatever the draws, the generator yields count values containing every
      value of 1..count exactly once. */
  lemma ShuffledIsPermutation(count: nat, draws: seq<nat>)
    requires DrawsFor(Steps(count), draws)
    ensures |Shuffled(count, draws)| == count
    ensures forall v :: multiset(Shuffled(count, draws))[v] == if 1 <= v <= count then 1 else 0
  {
    ShufflePermutes(Iota(count), Steps(count), draws);
    forall v ensures multiset(Shuffled(count, draws))[v] == if 1 <= v <= count then 1 else 0 {
      IotaOccurrences(count, v);
    }
  }

  /** generateRandomNumbers(count): fills [1..count] and swaps from the last
      index down to 1, index i with the drawn index j in [0, i]. */
  method GenerateRandomNumbers(count: nat, draws: seq<nat>) returns (numbers: array<int>)
    requires DrawsFor(Steps(count), draws)
    ensures numbers.Length == count
    ensures numbers[..] == Shuffled(count, draws)
    ensures forall v :: multiset(numbers[..])[v] == if 1 <= v <= count then 1 else 0
  {
    numbers := new int[count](k => k + 1);
    assert numbers[..] == Iota(count);
    var i := numbers.Length - 1;
    ghost var remaining := draws;
    while i > 0
      invariant -1 <= i < count
      invariant i < 0 ==> count == 0 && numbers[..] == Shuffled(count, draws)
      invariant 0 <= i ==> DrawsFor(i, remaining) && remaining == draws[Steps(count) - i..]
      invariant 0 <= i ==> ShuffleFrom(numbers[..], i, remaining) == Shuffled(count, draws)
    {
      var j := draws[Steps(count) - i];
      assert j == remaining[0];
      ghost var before := numbers[..];
      numbers[i], numbers[j] := numbers[j], numbers[i];
      assert numbers[..] == Swap(before, i, j);
      remaining := remaining[1..];
      i := i - 1;
    }
    ShuffledIsPermutation(count, draws);
  }
}
