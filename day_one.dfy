/** Report repair (src/day_one.rs): the first two or three entries, taken at increasing
    positions in the order `tuple_combinations` enumerates them, whose values sum to a
    target. */
module DayOne {
  import opened Common

  /** The pair of positions (a, b), a < b, sums to `value`. */
  predicate PairSums(xs: seq<nat>, value: nat, a: nat, b: nat)
  {
    a < b < |xs| && xs[a] + xs[b] == value
  }

  /** Lexicographic order on position pairs: (a, b) comes before (c, d). */
  predicate PairBefore(a: nat, b: nat, c: nat, d: nat)
  {
    a < c || (a == c && b < d)
  }

  /** The search of `tuple_combinations().find(...)` resumed at the pair (i, j): pairs are
      visited as (0,1), (0,2), ..., (0,n-1), (1,2), ... */
  function PairSearch(xs: seq<nat>, value: nat, i: nat, j: nat): (r: Option<(nat, nat)>)
    requires i < j <= |xs|
    ensures r.Some? ==> PairSums(xs, value, r.value.0, r.value.1)
                        && !PairBefore(r.value.0, r.value.1, i, j)
    ensures forall a: nat, b: nat | a < b < |xs| && !PairBefore(a, b, i, j)
              && (r.Some? ==> PairBefore(a, b, r.value.0, r.value.1)) :: !PairSums(xs, value, a, b)
    decreases |xs| - i, |xs| - j
  {
    if i + 1 >= |xs| then None
    else if j == |xs| then PairSearch(xs, value, i + 1, i + 2)
    else if xs[i] + xs[j] == value then Some((i, j))
    else PairSearch(xs, value, i, j + 1)
  }

  /** `find_pair_summing_to`: the values of the first pair of positions summing to `value`.
      The sums are u32 additions, so they must not overflow. */
  function FindPairSummingTo(xs: seq<nat>, value: nat): (r: Option<(nat, nat)>)
    requires forall a, b | 0 <= a < b < |xs| :: xs[a] + xs[b] < U32_BOUND
    ensures r.None? <==> forall a: nat, b: nat | a < b < |xs| :: !PairSums(xs, value, a, b)
    ensures r.Some? ==> exists a: nat, b: nat :: PairSums(xs, value, a, b) && r.value == (xs[a], xs[b])
                          && forall c: nat, d: nat | c < d < |xs| && PairBefore(c, d, a, b) :: !PairSums(xs, value, c, d)
  {
    if |xs| < 2 then None
    else match PairSearch(xs, value, 0, 1)
      case None => None
      case Some((a, b)) => Some((xs[a], xs[b]))
  }

  /** The triple of positions (a, b, c), a < b < c, sums to `value`. */
  predicate TripleSums(xs: seq<nat>, value: nat, a: nat, b: nat, c: nat)
  {
    a < b < c < |xs| && xs[a] + xs[b] + xs[c] == value
  }

  /** Lexicographic order on position triples. */
  predicate TripleBefore(a: nat, b: nat, c: nat, d: nat, e: nat, f: nat)
  {
    a < d || (a == d && PairBefore(b, c, e, f))
  }

  /** The triple search resumed at (i, j, k), visiting triples in lexicographic order. */
  function TripleSearch(xs: seq<nat>, value: nat, i: nat, j: nat, k: nat): (r: Option<(nat, nat, nat)>)
    requires i < j < k <= |xs|
    ensures r.Some? ==> TripleSums(xs, value, r.value.0, r.value.1, r.value.2)
                        && !TripleBefore(r.value.0, r.value.1, r.value.2, i, j, k)
    ensures forall a: nat, b: nat, c: nat | a < b < c < |xs| && !TripleBefore(a, b, c, i, j, k)
              && (r.Some? ==> TripleBefore(a, b, c, r.value.0, r.value.1, r.value.2))
              :: !TripleSums(xs, value, a, b, c)
    decreases |xs| - i, |xs| - j, |xs| - k
  {
    if i + 2 >= |xs| then None
    else if j + 1 >= |xs| then TripleSearch(xs, value, i + 1, i + 2, i + 3)
    else if k == |xs| then TripleSearch(xs, value, i, j + 1, j + 2)
    else if xs[i] + xs[j] + xs[k] == value then Some((i, j, k))
    else TripleSearch(xs, value, i, j, k + 1)
  }

  /** `find_triple_summing_to`: the values of the first triple of positions summing to
      `value`; the u32 sums must not overflow. */
  function FindTripleSummingTo(xs: seq<nat>, value: nat): (r: Option<(nat, nat, nat)>)
    requires forall a, b, c | 0 <= a < b < c < |xs| :: xs[a] + xs[b] + xs[c] < U32_BOUND
    ensures r.None? <==> forall a: nat, b: nat, c: nat | a < b < c < |xs| :: !TripleSums(xs, value, a, b, c)
    ensures r.Some? ==> exists a: nat, b: nat, c: nat :: TripleSums(xs, value, a, b, c)
                          && r.value == (xs[a], xs[b], xs[c])
                          && forall d: nat, e: nat, f: nat | d < e < f < |xs| && TripleBefore(d, e, f, a, b, c)
                               :: !TripleSums(xs, value, d, e, f)
  {
    if |xs| < 3 then None
    else match TripleSearch(xs, value, 0, 1, 2)
      case None => None
      case Some((a, b, c)) => Some((xs[a], xs[b], xs[c]))
  }

  /** The cases exercised by the source's tests. */
  lemma PairExamples()
    ensures FindPairSummingTo([1, 2, 3, 4], 12) == None
    ensures FindPairSummingTo([1, 2, 3, 4], 7) == Some((3, 4))
  {
  }

  lemma TripleExamples()
    ensures FindTripleSummingTo([1, 2, 3, 4], 12) == None
    ensures FindTripleSummingTo([1, 2, 3, 4], 9) == Some((2, 3, 4))
  {
  }
}
