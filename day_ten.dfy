/** Adapter array (src/day_ten.rs): over the sorted adapter joltages, the counts of gaps of
    one and three jolts, and the number of ways to chain adapters from the outlet (0 jolts)
    to the last one with steps of at most three jolts. */
module DayTen {
  import opened Common

  predicate NonDecreasing(xs: seq<nat>)
  {
    forall i, j | 0 <= i < j < |xs| :: xs[i] <= xs[j]
  }

  predicate StrictlyIncreasing(xs: seq<nat>)
  {
    forall i, j | 0 <= i < j < |xs| :: xs[i] < xs[j]
  }

  /** The differences between neighbouring joltages. */
  function Gaps(xs: seq<nat>): (g: seq<int>)
    ensures |g| == if xs == [] then 0 else |xs| - 1
    ensures forall i | 0 <= i < |g| :: g[i] == xs[i + 1] as int - xs[i] as int
  {
    if |xs| < 2 then [] else Gaps(xs[..|xs| - 1]) + [xs[|xs| - 1] as int - xs[|xs| - 2] as int]
  }

  /** The gaps add up to the spread between the last and the first joltage. */
  lemma {:induction false} GapsTelescope(xs: seq<nat>)
    requires xs != []
    ensures Sum(Gaps(xs)) == xs[|xs| - 1] as int - xs[0] as int
  {
    if |xs| >= 2 {
      GapsTelescope(xs[..|xs| - 1]);
    }
  }

  lemma CountGapsStep(xs: seq<nat>, i: nat, v: int)
    requires 1 <= i < |xs|
    ensures Count(Gaps(xs[..i + 1]), v)
            == Count(Gaps(xs[..i]), v) + if xs[i] as int - xs[i - 1] as int == v then 1 else 0
  {
    assert xs[..i + 1][..i] == xs[..i];
    var g := Gaps(xs[..i + 1]);
    assert g == Gaps(xs[..i]) + [xs[i] as int - xs[i - 1] as int];
    assert g[..|g| - 1] == Gaps(xs[..i]);
  }

  /** The number of gaps equal to `v` among the first `n` joltages. */
  function GapCount(xs: seq<nat>, v: int, n: nat): nat
    requires n <= |xs|
  {
    if n < 2 then 0 else GapCount(xs, v, n - 1) + if xs[n - 1] as int - xs[n - 2] as int == v then 1 else 0
  }

  lemma {:induction false} GapCountIsCount(xs: seq<nat>, v: int, n: nat)
    requires n <= |xs|
    ensures GapCount(xs, v, n) == Count(Gaps(xs[..n]), v)
  {
    if n >= 2 {
      GapCountIsCount(xs, v, n - 1);
      CountGapsStep(xs, n - 1, v);
    }
  }

  /** `find_jolt_differences`: starting from [1, 1], counts neighbouring gaps of one and of
      three jolts; the usize subtraction needs the input sorted, and `&input[1..]` needs at
      least one adapter. */
  method FindJoltDifferences(input: seq<nat>) returns (result: seq<nat>)
    requires NonDecreasing(input) && input != []
    ensures result == [1 + Count(Gaps(input), 1), 1 + Count(Gaps(input), 3)]
  {
    var ones, threes := 1, 1;
    var i := 1;
    while i < |input|
      invariant 1 <= i <= |input|
      invariant ones == 1 + GapCount(input, 1, i) && threes == 1 + GapCount(input, 3, i)
      decreases |input| - i
    {
      var diff := input[i] - input[i - 1];
      if diff == 1 {
        ones := ones + 1;
      } else if diff == 3 {
        threes := threes + 1;
      }
      i := i + 1;
    }
    GapCountIsCount(input, 1, |input|);
    GapCountIsCount(input, 3, |input|);
    assert input[..|input|] == input;
    result := [ones, threes];
  }

  /** The fold of `get_number_of_arrangements` after the first `k` (previous, current)
      pairs, the previous of the first adapter being the outlet 0. */
  function Arrangements(input: seq<nat>, k: nat): (t: (nat, nat, nat))
    requires NonDecreasing(input) && k <= |input|
  {
    if k == 0 then (0, 0, 1)
    else
      var a := if k == 1 then 0 else input[k - 2];
      Advance(Arrangements(input, k - 1), input[k - 1] as int - a as int)
  }

  /** The fold's closure on the gap `d` between the pair. */
  function Advance(t: (nat, nat, nat), d: int): (nat, nat, nat)
  {
    var (x, y, z) := t;
    match d
    case 3 => (0, 0, z)
    case 2 => (z, 0, y + z)
    case _ => (y, z, x + y + z)
  }

  /** `get_number_of_arrangements`: the last component of the fold. */
  function GetNumberOfArrangements(input: seq<nat>): nat
    requires NonDecreasing(input)
  {
    Arrangements(input, |input|).2
  }

  /** The joltage of the chain's start: the outlet and then each adapter. */
  predicate Available(input: seq<nat>, u: int)
  {
    u == 0 || u in input
  }

  /** Reference count: the number of chains from the outlet to joltage `u` through
      available joltages with steps of one to three jolts. */
  function Ways(input: seq<nat>, u: int): nat
    decreases u
  {
    if u < 0 || !Available(input, u) then 0
    else if u == 0 then 1
    else Ways(input, u - 1) + Ways(input, u - 2) + Ways(input, u - 3)
  }

  /** Steps of one to three jolts from the outlet through strictly increasing adapters. */
  predicate Chainable(input: seq<nat>)
  {
    StrictlyIncreasing(input) && (input != [] ==> 1 <= input[0] <= 3)
    && forall i | 0 <= i < |input| - 1 :: input[i + 1] - input[i] <= 3
  }

  function Current(input: seq<nat>, k: nat): nat
    requires k <= |input|
  {
    if k == 0 then 0 else input[k - 1]
  }

  lemma NotAvailableBetween(input: seq<nat>, k: nat, u: int)
    requires Chainable(input) && 1 <= k <= |input|
    requires Current(input, k - 1) < u < input[k - 1]
    ensures !Available(input, u)
  {
    forall j | 0 <= j < |input| ensures input[j] != u {
      if j < k - 1 {
        assert input[j] <= input[k - 2];
      } else {
        assert input[j] >= input[k - 1];
      }
    }
  }

  /** The reference counts of joltages `u - 2`, `u - 1` and `u`. */
  function Window(input: seq<nat>, u: int): (nat, nat, nat)
  {
    (Ways(input, u - 2), Ways(input, u - 1), Ways(input, u))
  }

  /** One step of the reference count: from joltage `a` to the next available joltage `b`,
      one to three jolts above it. */
  lemma StepWays(input: seq<nat>, a: int, b: int)
    requires 0 <= a < b <= a + 3 && Available(input, b)
    requires forall u | a < u < b :: !Available(input, u)
    ensures Advance(Window(input, a), b - a) == Window(input, b)
  {
    assert Ways(input, b) == Ways(input, b - 1) + Ways(input, b - 2) + Ways(input, b - 3);
    if b - a == 3 {
      assert !Available(input, b - 1) && !Available(input, b - 2);
    } else if b - a == 2 {
      assert !Available(input, b - 1);
    }
  }

  /** The step from the joltage before the k-th adapter to it. */
  lemma StepFacts(input: seq<nat>, k: nat)
    requires Chainable(input) && 1 <= k <= |input|
    ensures var a, b := Current(input, k - 1), input[k - 1];
            1 <= b - a <= 3 && Available(input, b) && (k >= 2 ==> a == input[k - 2])
            && forall u | a < u < b :: !Available(input, u)
  {
    var a, b := Current(input, k - 1), input[k - 1];
    assert input[k - 1] in input;
    forall u | a < u < b ensures !Available(input, u) {
      NotAvailableBetween(input, k, u);
    }
  }

  /** The fold's triple holds the reference counts of the current joltage and the two
      below it. */
  lemma {:induction false} ArrangementsAreWays(input: seq<nat>, k: nat)
    requires Chainable(input) && k <= |input|
    ensures Arrangements(input, k) == Window(input, Current(input, k))
  {
    if k > 0 {
      ArrangementsAreWays(input, k - 1);
      var a, b := Current(input, k - 1), input[k - 1];
      StepFacts(input, k);
      StepWays(input, a, b);
      assert Arrangements(input, k) == Advance(Arrangements(input, k - 1), b - a);
    }
  }

  /** For sorted adapters with steps of at most three jolts, the fold counts exactly the
      chains from the outlet to the last adapter, and there is at least one. */
  lemma ArrangementsCountChains(input: seq<nat>)
    requires Chainable(input) && input != []
    ensures GetNumberOfArrangements(input) == Ways(input, input[|input| - 1])
    ensures GetNumberOfArrangements(input) >= 1
  {
    ArrangementsAreWays(input, |input|);
    WaysPositive(input, |input|);
  }

  lemma {:induction false} WaysPositive(input: seq<nat>, k: nat)
    requires Chainable(input) && k <= |input|
    ensures Ways(input, Current(input, k)) >= 1
  {
    if k > 0 {
      WaysPositive(input, k - 1);
      var a, b := Current(input, k - 1), input[k - 1];
      assert k >= 2 ==> a == input[k - 2];
      assert Available(input, b);
      assert b - 1 == a || b - 2 == a || b - 3 == a;
    }
  }

  /** When every step is three jolts there is exactly one arrangement. */
  lemma {:induction false} AllGapsThree(input: seq<nat>, k: nat)
    requires NonDecreasing(input) && k <= |input|
    requires forall i | 0 <= i < |input| :: input[i] == 3 * (i + 1)
    ensures Arrangements(input, k).2 == 1
  {
    if k > 0 {
      AllGapsThree(input, k - 1);
    }
  }
}
