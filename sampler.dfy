/**
 * The Lotomania bet sampler: numbers are drawn from 0 to 99 until 50 distinct
 * ones are held, and the collected numbers are then sorted ascending.
 *
 * The random source is an oracle: a finite sequence of draws, each a value that
 * Math.floor(Math.random() * 100) can produce. The loop consumes one draw per
 * iteration, so it ends either with 50 numbers or when the oracle runs out.
 */
module Sampler {

  /** Numbers in one bet. */
  const BetSize := 50
  /** Draws are integers from 0 to Span - 1. */
  const Span := 100

  /** Every value of `s` is one a single draw can produce. */
  predicate AllDrawable(s: seq<int>) {
    forall k :: 0 <= k < |s| ==> 0 <= s[k] < Span
  }

  predicate NoDuplicates(s: seq<int>) {
    forall i, j :: 0 <= i < j < |s| ==> s[i] != s[j]
  }

  predicate Ascending(s: seq<int>) {
    forall i, j :: 0 <= i < j < |s| ==> s[i] <= s[j]
  }

  predicate StrictlyAscending(s: seq<int>) {
    forall i, j :: 0 <= i < j < |s| ==> s[i] < s[j]
  }

  /** A finished Lotomania bet: 50 drawable numbers, strictly ascending. */
  predicate IsBet(s: seq<int>) {
    |s| == BetSize && AllDrawable(s) && StrictlyAscending(s)
  }

  function Elements(s: seq<int>): set<int> {
    set x | x in s
  }

  /**
   * The numbers held after the loop has consumed the draws `p`, in the order
   * they were pushed: a draw is kept only while fewer than 50 are held and only
   * when it is not one of them already.
   */
  function Gathered(p: seq<int>): (held: seq<int>)
    ensures |held| <= BetSize
    ensures NoDuplicates(held)
    ensures forall x :: x in held ==> x in p
    decreases |p|
  {
    if p == [] then []
    else
      var before := Gathered(p[..|p| - 1]);
      var d := p[|p| - 1];
      if |before| == BetSize || d in before then before else before + [d]
  }

  /** Held numbers are drawable numbers. */
  lemma GatheredDrawable(p: seq<int>)
    requires AllDrawable(p)
    ensures AllDrawable(Gathered(p))
  {
  }

  /** Once 50 numbers are held, later draws change nothing. */
  lemma {:induction false} GatheredStable(p: seq<int>, q: seq<int>)
    requires |Gathered(p)| == BetSize
    ensures Gathered(p + q) == Gathered(p)
    decreases |q|
  {
    if q == [] {
      assert p + q == p;
    } else {
      var q' := q[..|q| - 1];
      GatheredStable(p, q');
      assert (p + q)[..|p + q| - 1] == p + q';
    }
  }

  /** A run that ends with fewer than 50 numbers has kept every value it drew. */
  lemma {:induction false} GatheredKeepsAll(p: seq<int>)
    requires |Gathered(p)| < BetSize
    ensures forall x :: x in p ==> x in Gathered(p)
    decreases |p|
  {
    if p != [] {
      var p' := p[..|p| - 1];
      assert p == p' + [p[|p| - 1]];
      GatheredKeepsAll(p');
    }
  }

  /** Distinct draws, no more than 50 of them, are all kept in the order drawn. */
  lemma {:induction false} GatheredOfDistinct(p: seq<int>)
    requires NoDuplicates(p) && |p| <= BetSize
    ensures Gathered(p) == p
    decreases |p|
  {
    if p != [] {
      var p' := p[..|p| - 1];
      GatheredOfDistinct(p');
      assert p == p' + [p[|p| - 1]];
      assert p[|p| - 1] !in p' by {
        forall k | 0 <= k < |p'| ensures p'[k] != p[|p| - 1] {
          assert p'[k] == p[k];
        }
      }
    }
  }

  /** The number of distinct values is at most the length, and equal to it without duplicates. */
  lemma {:induction false} ElementsCount(s: seq<int>)
    ensures |Elements(s)| <= |s|
    ensures NoDuplicates(s) ==> |Elements(s)| == |s|
    decreases |s|
  {
    if s != [] {
      var s' := s[..|s| - 1];
      var d := s[|s| - 1];
      ElementsCount(s');
      assert s == s' + [d];
      assert Elements(s) == Elements(s') + {d};
      if NoDuplicates(s) {
        assert NoDuplicates(s');
        assert d !in Elements(s') by {
          forall k | 0 <= k < |s'| ensures s'[k] != d {
            assert s'[k] == s[k];
          }
        }
      }
    }
  }

  lemma SubsetCount(a: set<int>, b: set<int>)
    requires a <= b
    ensures |a| <= |b|
  {
    assert b == a + (b - a);
    assert a * (b - a) == {};
  }

  /** A run completes with 50 numbers exactly when the draws hold at least 50 distinct values. */
  lemma CompletesIff(p: seq<int>)
    ensures |Gathered(p)| == BetSize <==> |Elements(p)| >= BetSize
  {
    var held := Gathered(p);
    ElementsCount(held);
    if |held| == BetSize {
      assert Elements(held) <= Elements(p);
      SubsetCount(Elements(held), Elements(p));
    } else {
      GatheredKeepsAll(p);
      forall y | y in Elements(p) ensures y in Elements(held) {
        assert y in p;
      }
      SubsetCount(Elements(p), Elements(held));
    }
  }

  /** With no duplicates, every value occurs at most once. */
  lemma {:induction false} OccursAtMostOnce(s: seq<int>, v: int)
    requires NoDuplicates(s)
    ensures multiset(s)[v] <= 1
    decreases |s|
  {
    if s != [] {
      var s' := s[1..];
      assert s == [s[0]] + s';
      assert NoDuplicates(s');
      OccursAtMostOnce(s', v);
      if s[0] == v {
        assert v !in s' by {
          forall k | 0 <= k < |s'| ensures s'[k] != v {
            assert s'[k] == s[k + 1];
          }
        }
      }
    }
  }

  /** A permutation of a sequence without duplicates has no duplicates. */
  lemma NoDuplicatesPermuted(x: seq<int>, y: seq<int>)
    requires multiset(x) == multiset(y) && NoDuplicates(y)
    ensures NoDuplicates(x)
  {
    forall i, j | 0 <= i < j < |x| ensures x[i] != x[j] {
      OccursAtMostOnce(y, x[i]);
      RepeatOccursTwice(x, i, j);
    }
  }

  /** A value at two positions of a sequence occurs there at least twice. */
  lemma RepeatOccursTwice(s: seq<int>, i: int, j: int)
    requires 0 <= i < j < |s|
    ensures s[i] == s[j] ==> multiset(s)[s[i]] >= 2
  {
    assert s == s[..j] + s[j..];
    assert s[i] in s[..j];
    assert s[j] in s[j..];
    assert multiset(s)[s[j]] == multiset(s[..j])[s[j]] + multiset(s[j..])[s[j]];
  }

  /** In a strictly ascending sequence, values at least as far apart as their positions. */
  lemma {:induction false} AscendingGaps(s: seq<int>, i: int, j: int)
    requires StrictlyAscending(s) && 0 <= i <= j < |s|
    ensures s[j] - s[i] >= j - i
    decreases j - i
  {
    if i < j {
      AscendingGaps(s, i + 1, j);
    }
  }

  /**
   * Draws that are 0 .. 49 in some order sort to exactly [0, 1, ..., 49]:
   * any strictly ascending arrangement of what the loop collected is that sequence.
   */
  lemma FirstFiftyInAnyOrder(draws: seq<int>, bet: seq<int>)
    requires |draws| == BetSize && NoDuplicates(draws)
    requires forall k :: 0 <= k < |draws| ==> 0 <= draws[k] < BetSize
    requires StrictlyAscending(bet) && multiset(bet) == multiset(Gathered(draws))
    ensures bet == seq(BetSize, i => i)
  {
    GatheredOfDistinct(draws);
    assert |bet| == |multiset(bet)| == |draws|;
    forall k | 0 <= k < |bet| ensures 0 <= bet[k] < BetSize {
      assert bet[k] in multiset(bet);
      assert bet[k] in draws;
    }
    forall k | 0 <= k < |bet| ensures bet[k] == k {
      AscendingGaps(bet, 0, k);
      AscendingGaps(bet, k, |bet| - 1);
    }
  }

  /**
   * The sampling loop: keeps drawing while fewer than 50 numbers are held and
   * a draw is left, pushing each draw that is not already held.
   */
  method Collect(draws: seq<int>) returns (numbers: seq<int>)
    requires AllDrawable(draws)
    ensures numbers == Gathered(draws)
    ensures |numbers| <= BetSize && NoDuplicates(numbers) && AllDrawable(numbers)
    ensures |numbers| < BetSize ==> forall x :: x in draws ==> x in numbers
  {
    numbers := [];
    var k := 0;
    while |numbers| < BetSize && k < |draws|
      invariant 0 <= k <= |draws|
      invariant numbers == Gathered(draws[..k])
      invariant |numbers| <= BetSize
      invariant NoDuplicates(numbers)
      invariant AllDrawable(numbers)
      decreases |draws| - k
    {
      var d := draws[k];
      assert draws[..k + 1][..k] == draws[..k];
      if d !in numbers {
        numbers := numbers + [d];
      }
      k := k + 1;
    }
    if k < |draws| {
      GatheredStable(draws[..k], draws[k..]);
      assert draws[..k] + draws[k..] == draws;
    } else {
      assert draws[..k] == draws;
    }
    if |numbers| < BetSize {
      GatheredKeepsAll(draws);
    }
  }

  /** Sorts `a` in place into ascending order (insertion sort, by adjacent swaps). */
  method SortAscending(a: array<int>)
    modifies a
    ensures Ascending(a[..])
    ensures multiset(a[..]) == multiset(old(a[..]))
  {
    var i := 0;
    while i < a.Length
      invariant 0 <= i <= a.Length
      invariant forall k, l :: 0 <= k < l < i ==> a[k] <= a[l]
      invariant multiset(a[..]) == multiset(old(a[..]))
    {
      var j := i;
      while j > 0 && a[j - 1] > a[j]
        invariant 0 <= j <= i
        invariant forall k, l :: 0 <= k < l <= i && k != j && l != j ==> a[k] <= a[l]
        invariant forall l :: j < l <= i ==> a[j] < a[l]
        invariant multiset(a[..]) == multiset(old(a[..]))
      {
        a[j - 1], a[j] := a[j], a[j - 1];
        j := j - 1;
      }
      i := i + 1;
    }
  }

  /**
   * Draws a bet from the oracle and sorts it. The bet is complete (50 numbers)
   * exactly when the oracle held 50 distinct values; it is always strictly
   * ascending and a permutation of what the loop collected.
   */
  method GenerateNumbers(draws: seq<int>) returns (bet: seq<int>)
    requires AllDrawable(draws)
    ensures StrictlyAscending(bet) && AllDrawable(bet)
    ensures multiset(bet) == multiset(Gathered(draws))
    ensures |bet| <= BetSize
    ensures |bet| == BetSize <==> |Elements(draws)| >= BetSize
  {
    var numbers := Collect(draws);
    var a := new int[|numbers|](k requires 0 <= k < |numbers| => numbers[k]);
    assert a[..] == numbers;
    SortAscending(a);
    bet := a[..];
    NoDuplicatesPermuted(bet, numbers);
    assert |bet| == |multiset(bet)| == |numbers|;
    forall k | 0 <= k < |bet| ensures 0 <= bet[k] < Span {
      assert bet[k] in multiset(numbers);
      assert bet[k] in numbers;
    }
    CompletesIff(draws);
  }
}
