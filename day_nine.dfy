/** Encoding error (src/day_nine.rs): every number after a 25-number preamble should be the
    sum of two of the 25 numbers before it; part one finds the first that is not, part two
    the first contiguous run of at least two numbers adding up to it. */
module DayNine {
  import opened Common

  const PREAMBLE: nat := 25

  predicate Sorted(s: seq<int>)
  {
    forall i, j | 0 <= i < j < |s| :: s[i] <= s[j]
  }

  predicate NonNegative(s: seq<int>)
  {
    forall i | 0 <= i < |s| :: s[i] >= 0
  }

  /** Two numbers at distinct positions of `s` add up to `v`. */
  predicate HasPair(s: seq<int>, v: int)
  {
    exists i, j | 0 <= i < j < |s| :: s[i] + s[j] == v
  }

  // ---------------------------------------------------------------------------------
  // `sort_unstable`, modelled by its result: the sorted permutation.

  function Insert(x: int, s: seq<int>): seq<int>
  {
    if s == [] || x <= s[0] then [x] + s else [s[0]] + Insert(x, s[1..])
  }

  function SortSeq(s: seq<int>): seq<int>
  {
    if s == [] then [] else Insert(s[0], SortSeq(s[1..]))
  }

  lemma SortedCons(h: int, r: seq<int>)
    requires Sorted(r) && forall k | 0 <= k < |r| :: h <= r[k]
    ensures Sorted([h] + r)
  {
    var t := [h] + r;
    forall i, j | 0 <= i < j < |t| ensures t[i] <= t[j] {
      assert t[j] == r[j - 1];
      if i > 0 {
        assert t[i] == r[i - 1];
      }
    }
  }

  lemma {:induction false} InsertFacts(x: int, s: seq<int>)
    requires Sorted(s)
    ensures Sorted(Insert(x, s)) && multiset(Insert(x, s)) == multiset(s) + multiset{x}
  {
    if s == [] || x <= s[0] {
      SortedCons(x, s);
    } else {
      var tail := s[1..];
      InsertFacts(x, tail);
      var r := Insert(x, tail);
      assert s == [s[0]] + tail;
      assert forall k | 0 <= k < |tail| :: s[0] <= tail[k] by {
        forall k | 0 <= k < |tail| ensures s[0] <= tail[k] {
          assert tail[k] == s[k + 1];
        }
      }
      BoundByMultiset(s[0], r, tail, x);
      SortedCons(s[0], r);
      assert Insert(x, s) == [s[0]] + r;
    }
  }

  /** A lower bound of `t` and of `x` bounds every rearrangement of `t` with `x` added. */
  lemma BoundByMultiset(h: int, r: seq<int>, t: seq<int>, x: int)
    requires multiset(r) == multiset(t) + multiset{x} && h <= x
    requires forall k | 0 <= k < |t| :: h <= t[k]
    ensures forall k | 0 <= k < |r| :: h <= r[k]
  {
    forall k | 0 <= k < |r| ensures h <= r[k] {
      assert r[k] in multiset(r);
      if r[k] != x {
        assert r[k] in multiset(t);
        var m :| 0 <= m < |t| && t[m] == r[k];
      }
    }
  }

  /** The sorted permutation is sorted and holds the same numbers. */
  lemma {:induction false} SortFacts(s: seq<int>)
    ensures Sorted(SortSeq(s)) && multiset(SortSeq(s)) == multiset(s)
  {
    if s != [] {
      SortFacts(s[1..]);
      InsertFacts(s[0], SortSeq(s[1..]));
      assert s == [s[0]] + s[1..];
    }
  }

  lemma MinOfSorted(a: seq<int>, x: int)
    requires Sorted(a) && a != [] && x in multiset(a)
    ensures a[0] <= x
  {
    var k :| 0 <= k < |a| && a[k] == x;
  }

  /** Two sequences with equal heads and equal multisets have equal multisets of tails. */
  lemma TailMultiset(a: seq<int>, b: seq<int>)
    requires a != [] && b != [] && a[0] == b[0] && multiset(a) == multiset(b)
    ensures multiset(a[1..]) == multiset(b[1..])
  {
    assert a == [a[0]] + a[1..] && b == [b[0]] + b[1..];
    assert multiset(a[1..]) == multiset(a) - multiset{a[0]};
    assert multiset(b[1..]) == multiset(b) - multiset{b[0]};
  }

  /** Two sorted sequences with equal multisets start alike. */
  lemma SortedHeads(a: seq<int>, b: seq<int>)
    requires Sorted(a) && Sorted(b) && multiset(a) == multiset(b) && a != []
    ensures b != [] && a[0] == b[0]
  {
    assert a[0] in multiset(a);
    assert b != [];
    assert b[0] in multiset(b);
    MinOfSorted(b, a[0]);
    MinOfSorted(a, b[0]);
  }

  /** A multiset has only one sorted arrangement. */
  lemma {:induction false} SortedUnique(a: seq<int>, b: seq<int>)
    requires Sorted(a) && Sorted(b) && multiset(a) == multiset(b)
    ensures a == b
  {
    if a == [] {
      assert |b| == |multiset(b)| == 0;
    } else {
      SortedHeads(a, b);
      TailMultiset(a, b);
      SortedUnique(a[1..], b[1..]);
      assert a == [a[0]] + a[1..] && b == [b[0]] + b[1..];
    }
  }

  /** The sorted permutation depends only on the multiset of numbers. */
  lemma SortOfPermutation(a: seq<int>, b: seq<int>)
    requires multiset(a) == multiset(b)
    ensures SortSeq(a) == SortSeq(b)
  {
    SortFacts(a);
    SortFacts(b);
    SortedUnique(SortSeq(a), SortSeq(b));
  }

  // ---------------------------------------------------------------------------------
  // `is_number_sum_of_any`

  /** The outer loop of `is_number_sum_of_any` over the sorted numbers from position `x`:
      it gives up once `s[x]` exceeds `v`. */
  function Outer(s: seq<int>, v: int, x: nat): bool
    requires x <= |s|
    decreases |s| - x, 1, 0
  {
    if x == |s| || s[x] > v then false else Inner(s, v, x, x + 1)
  }

  /** The inner loop from position `y`: true at the first partner adding up to `v`, and on to
      the next `x` once the sum exceeds `v`. */
  function Inner(s: seq<int>, v: int, x: nat, y: nat): bool
    requires x < y <= |s|
    decreases |s| - x, 0, |s| - y
  {
    if y == |s| then Outer(s, v, x + 1)
    else if s[x] + s[y] == v then true
    else if s[x] + s[y] > v then Outer(s, v, x + 1)
    else Inner(s, v, x, y + 1)
  }

  function PairSearch(s: seq<int>, v: int): bool
  {
    Outer(s, v, 0)
  }

  /** Whenever the search says yes, two numbers at distinct positions add up to `v`. */
  lemma {:induction false} OuterSound(s: seq<int>, v: int, x: nat) returns (i: nat, j: nat)
    requires x <= |s| && Outer(s, v, x)
    ensures x <= i < j < |s| && s[i] + s[j] == v
    decreases |s| - x, 1, 0
  {
    i, j := InnerSound(s, v, x, x + 1);
  }

  lemma {:induction false} InnerSound(s: seq<int>, v: int, x: nat, y: nat) returns (i: nat, j: nat)
    requires x < y <= |s| && Inner(s, v, x, y)
    ensures x <= i < j < |s| && s[i] + s[j] == v
    decreases |s| - x, 0, |s| - y
  {
    if y == |s| || s[x] + s[y] > v {
      i, j := OuterSound(s, v, x + 1);
    } else if s[x] + s[y] == v {
      i, j := x, y;
    } else {
      i, j := InnerSound(s, v, x, y + 1);
    }
  }

  /** On sorted numbers the search finds every pair when `v` is not negative or no number
      is negative: the early exits only skip sums that are too large. */
  lemma {:induction false} OuterComplete(s: seq<int>, v: int, x: nat, i: nat, j: nat)
    requires Sorted(s) && (v >= 0 || NonNegative(s))
    requires x <= i < j < |s| && s[i] + s[j] == v
    ensures Outer(s, v, x)
    decreases |s| - x, 1, 0
  {
    assert s[x] <= s[i] <= s[j];
    assert s[x] <= v;
    InnerComplete(s, v, x, x + 1, i, j);
  }

  lemma {:induction false} InnerComplete(s: seq<int>, v: int, x: nat, y: nat, i: nat, j: nat)
    requires Sorted(s) && (v >= 0 || NonNegative(s))
    requires x < y <= |s| && i < j < |s| && s[i] + s[j] == v
    requires (i == x && y <= j) || x < i
    ensures Inner(s, v, x, y)
    decreases |s| - x, 0, |s| - y
  {
    if y == |s| {
      OuterComplete(s, v, x + 1, i, j);
    } else if s[x] + s[y] == v {
    } else if s[x] + s[y] > v {
      assert i != x;
      OuterComplete(s, v, x + 1, i, j);
    } else {
      InnerComplete(s, v, x, y + 1, i, j);
    }
  }

  /** The search on the sorted numbers decides `HasPair`: always soundly, and completely
      when `v` is not negative or no number is negative. */
  lemma PairSearchDecides(s: seq<int>, v: int)
    requires Sorted(s)
    ensures PairSearch(s, v) ==> HasPair(s, v)
    ensures (v >= 0 || NonNegative(s)) && HasPair(s, v) ==> PairSearch(s, v)
  {
    if PairSearch(s, v) {
      var i, j := OuterSound(s, v, 0);
    }
    if (v >= 0 || NonNegative(s)) && HasPair(s, v) {
      var i, j :| 0 <= i < j < |s| && s[i] + s[j] == v;
      OuterComplete(s, v, 0, i, j);
    }
  }

  /** The early exit can skip a pair of negative numbers: -3 + -2 is -5, but -3 already
      exceeds -5. */
  lemma NegativePairMissed()
    ensures HasPair([-3, -2], -5) && !PairSearch([-3, -2], -5)
  {
    assert [-3, -2][0] + [-3, -2][1] == -5;
  }

  /** Copies the sorted permutation into `numbers`. */
  method SortInPlace(numbers: array<int>)
    modifies numbers
    ensures numbers[..] == SortSeq(old(numbers[..]))
  {
    var sorted := SortSeq(numbers[..]);
    SortFacts(numbers[..]);
    assert |sorted| == numbers.Length by {
      assert |multiset(sorted)| == |sorted| && |multiset(numbers[..])| == numbers.Length;
    }
    var i := 0;
    while i < numbers.Length
      invariant i <= numbers.Length
      invariant forall k | 0 <= k < i :: numbers[k] == sorted[k]
    {
      numbers[i] := sorted[i];
      i := i + 1;
    }
  }

  /** `is_number_sum_of_any`: sorts the numbers in place, then runs the labelled nested
      search. */
  method IsNumberSumOfAny(value: int, numbers: array<int>) returns (found: bool)
    modifies numbers
    ensures numbers[..] == SortSeq(old(numbers[..]))
    ensures found == PairSearch(numbers[..], value)
  {
    SortInPlace(numbers);
    ghost var s := numbers[..];
    var x := 0;
    while x < numbers.Length
      invariant x <= numbers.Length && numbers[..] == s
      invariant Outer(s, value, x) == PairSearch(s, value)
      decreases numbers.Length - x
    {
      if numbers[x] > value {
        return false;
      }
      var y := x + 1;
      while y < numbers.Length
        invariant x < y <= numbers.Length
        invariant Inner(s, value, x, y) == PairSearch(s, value)
        decreases numbers.Length - y
      {
        if numbers[x] + numbers[y] == value {
          return true;
        }
        if numbers[x] + numbers[y] > value {
          break;
        }
        y := y + 1;
      }
      x := x + 1;
    }
    return false;
  }

  // ---------------------------------------------------------------------------------
  // `read_into_buffers` and `solve_part_one`

  /** `read_into_buffers`: the first 25 numbers (or all, when there are fewer) go to the
      same positions of both buffers; the other positions keep their values. */
  method ReadIntoBuffers(buffer: array<int>, other: array<int>, data: seq<int>)
    requires buffer.Length == PREAMBLE && other.Length == PREAMBLE && buffer != other
    modifies buffer, other
    ensures forall i | 0 <= i < PREAMBLE ::
              buffer[i] == (if i < |data| then data[i] else old(buffer[i]))
              && other[i] == (if i < |data| then data[i] else old(other[i]))
  {
    var index := 0;
    while index < PREAMBLE && index < |data|
      invariant index <= PREAMBLE && index <= |data|
      invariant forall i | 0 <= i < PREAMBLE ::
                  buffer[i] == (if i < index then data[i] else old(buffer[i]))
                  && other[i] == (if i < index then data[i] else old(other[i]))
    {
      buffer[index] := data[index];
      other[index] := data[index];
      index := index + 1;
    }
  }

  /** The ring buffer after `k` numbers past the preamble: number `25 + m` overwrote slot
      `m % 25`. */
  function Ring(data: seq<int>, k: nat): (r: seq<int>)
    requires PREAMBLE + k <= |data|
    ensures |r| == PREAMBLE
  {
    if k == 0 then data[..PREAMBLE] else Ring(data, k - 1)[(k - 1) % PREAMBLE := data[PREAMBLE + k - 1]]
  }

  /** The ring is the window of the 25 numbers before number `25 + k`, rotated by `k`. */
  lemma {:induction false} RingIsRotatedWindow(data: seq<int>, k: nat)
    requires PREAMBLE + k <= |data|
    ensures forall i | 0 <= i < PREAMBLE :: Ring(data, k)[i] == data[k + (i - k) % PREAMBLE]
  {
    if k > 0 {
      RingIsRotatedWindow(data, k - 1);
      var a := (k - 1) % PREAMBLE;
      forall i | 0 <= i < PREAMBLE ensures Ring(data, k)[i] == data[k + (i - k) % PREAMBLE] {
        if i == a {
          RotatedSlotNew(k, i);
        } else {
          RotatedSlotOld(k, i);
        }
      }
    }
  }

  lemma RotatedSlotNew(k: nat, i: nat)
    requires k > 0 && i == (k - 1) % PREAMBLE
    ensures k + (i - k) % PREAMBLE == PREAMBLE + k - 1
  {
    var q := (k - 1) / PREAMBLE;
    assert k - 1 == q * PREAMBLE + i;
    assert i - k == (-1 - q) * PREAMBLE + (PREAMBLE - 1);
    DivModUnique(i - k, PREAMBLE, -1 - q, PREAMBLE - 1);
  }

  lemma RotatedSlotOld(k: nat, i: nat)
    requires k > 0 && i < PREAMBLE && i != (k - 1) % PREAMBLE
    ensures (k - 1) + (i - (k - 1)) % PREAMBLE == k + (i - k) % PREAMBLE
  {
    var r := (i - (k - 1)) % PREAMBLE;
    var q := (i - (k - 1)) / PREAMBLE;
    assert i - (k - 1) == q * PREAMBLE + r;
    if r == 0 {
      var q' := (k - 1) / PREAMBLE;
      assert k - 1 == q' * PREAMBLE + (k - 1) % PREAMBLE;
      assert i == (q + q') * PREAMBLE + (k - 1) % PREAMBLE;
      DivModUnique(i, PREAMBLE, q + q', (k - 1) % PREAMBLE);
      assert false;
    }
    assert i - k == q * PREAMBLE + (r - 1);
    DivModUnique(i - k, PREAMBLE, q, r - 1);
  }

  /** The ring holds the same numbers as the window of the 25 numbers before number
      `25 + k`. */
  lemma RingWindow(data: seq<int>, k: nat)
    requires PREAMBLE + k <= |data|
    ensures multiset(Ring(data, k)) == multiset(data[k..k + PREAMBLE])
  {
    RingIsRotatedWindow(data, k);
    var a := k % PREAMBLE;
    var w := data[k..k + PREAMBLE];
    var rot := w[PREAMBLE - a..] + w[..PREAMBLE - a];
    forall i | 0 <= i < PREAMBLE ensures Ring(data, k)[i] == rot[i] {
      RotationIndex(k, i);
    }
    assert Ring(data, k) == rot;
    assert w == w[..PREAMBLE - a] + w[PREAMBLE - a..];
  }

  lemma RotationIndex(k: nat, i: nat)
    requires i < PREAMBLE
    ensures var a := k % PREAMBLE;
            (i - k) % PREAMBLE == if i < a then PREAMBLE - a + i else i - a
  {
    var a := k % PREAMBLE;
    var q := k / PREAMBLE;
    assert k == q * PREAMBLE + a;
    if i < a {
      assert i - k == (-q - 1) * PREAMBLE + (PREAMBLE - a + i);
      DivModUnique(i - k, PREAMBLE, -q - 1, PREAMBLE - a + i);
    } else {
      assert i - k == (-q) * PREAMBLE + (i - a);
      DivModUnique(i - k, PREAMBLE, -q, i - a);
    }
  }

  /** Part one from number `25 + k` on, as the source computes it: the first number the
      search over the sorted ring says is no sum of two. */
  function FirstInvalidFrom(data: seq<int>, k: nat): Option<int>
    requires PREAMBLE + k <= |data|
    decreases |data| - k
  {
    if PREAMBLE + k == |data| then None
    else if !PairSearch(SortSeq(Ring(data, k)), data[PREAMBLE + k]) then Some(data[PREAMBLE + k])
    else FirstInvalidFrom(data, k + 1)
  }

  function SolvePartOneSpec(data: seq<int>): Option<int>
  {
    if |data| < PREAMBLE then None else FirstInvalidFrom(data, 0)
  }

  /** Reference: the first number after the preamble that is not the sum of two of the 25
      numbers before it. */
  function FirstWithoutPair(data: seq<int>, j: nat): Option<int>
    requires PREAMBLE <= j <= |data|
    decreases |data| - j
  {
    if j == |data| then None
    else if !HasPair(data[j - PREAMBLE..j], data[j]) then Some(data[j])
    else FirstWithoutPair(data, j + 1)
  }

  /** The pair search over a permutation of the window decides the window's pairs. */
  lemma WindowSearch(data: seq<int>, k: nat)
    requires PREAMBLE + k < |data| && NonNegative(data)
    ensures PairSearch(SortSeq(Ring(data, k)), data[PREAMBLE + k])
            == HasPair(data[k..k + PREAMBLE], data[PREAMBLE + k])
  {
    var w := data[k..k + PREAMBLE];
    var v := data[PREAMBLE + k];
    RingWindow(data, k);
    SortOfPermutation(Ring(data, k), w);
    SortFacts(w);
    var s := SortSeq(w);
    forall i | 0 <= i < |s| ensures s[i] >= 0 {
      assert s[i] in multiset(w);
    }
    PairSearchDecides(s, v);
    PairsOfPermutation(s, w, v);
  }

  /** With no negative numbers, part one returns the first number after the preamble that
      is not the sum of two of the 25 numbers before it. */
  lemma {:induction false} FirstInvalidMeaning(data: seq<int>, k: nat)
    requires PREAMBLE + k <= |data| && NonNegative(data)
    ensures FirstInvalidFrom(data, k) == FirstWithoutPair(data, PREAMBLE + k)
    decreases |data| - k
  {
    if PREAMBLE + k < |data| {
      WindowSearch(data, k);
      FirstInvalidMeaning(data, k + 1);
    }
  }

  lemma SolvePartOneMeaning(data: seq<int>)
    requires NonNegative(data) && |data| >= PREAMBLE
    ensures SolvePartOneSpec(data) == FirstWithoutPair(data, PREAMBLE)
  {
    FirstInvalidMeaning(data, 0);
  }

  /** Whether two positions add up to `v` depends only on the multiset of numbers. */
  lemma PairsOfPermutation(a: seq<int>, b: seq<int>, v: int)
    requires multiset(a) == multiset(b)
    ensures HasPair(a, v) == HasPair(b, v)
  {
    if HasPair(a, v) {
      PairMoves(a, b, v);
    }
    if HasPair(b, v) {
      PairMoves(b, a, v);
    }
  }

  lemma PairMoves(a: seq<int>, b: seq<int>, v: int)
    requires multiset(a) == multiset(b) && HasPair(a, v)
    ensures HasPair(b, v)
  {
    var i, j :| 0 <= i < j < |a| && a[i] + a[j] == v;
    var x, y := a[i], a[j];
    TwoOccurrences(a, i, j);
    var p, q := TwoPositions(b, x, y);
    if p < q {
      assert b[p] + b[q] == v;
    } else {
      assert b[q] + b[p] == v;
    }
  }

  /** Taking out the number at position p takes it out of the multiset. */
  lemma RemoveAt(b: seq<int>, p: nat)
    requires p < |b|
    ensures multiset(b) == multiset(b[..p] + b[p + 1..]) + multiset{b[p]}
  {
    assert b == b[..p] + [b[p]] + b[p + 1..];
  }

  /** The numbers at two distinct positions are in the multiset as often as they are. */
  lemma TwoOccurrences(a: seq<int>, i: nat, j: nat)
    requires i < j < |a|
    ensures a[i] in multiset(a) && a[j] in multiset(a) - multiset{a[i]}
  {
    var rest := a[..j] + a[j + 1..];
    RemoveAt(a, j);
    assert rest[i] == a[i];
    assert a[i] in multiset(rest);
    assert multiset(a) - multiset{a[i]} == multiset(rest) - multiset{a[i]} + multiset{a[j]};
  }

  /** Two numbers in a multiset, one besides the other, sit at distinct positions. */
  lemma TwoPositions(b: seq<int>, x: int, y: int) returns (p: nat, q: nat)
    requires x in multiset(b) && y in multiset(b) - multiset{x}
    ensures p < |b| && q < |b| && p != q && b[p] == x && b[q] == y
  {
    p :| 0 <= p < |b| && b[p] == x;
    var rest := b[..p] + b[p + 1..];
    RemoveAt(b, p);
    assert multiset(b) - multiset{x} == multiset(rest);
    var r :| 0 <= r < |rest| && rest[r] == y;
    q := if r < p then r else r + 1;
    assert b[q] == rest[r];
  }

  /** `solve_part_one` as the source writes it: a ring buffer of the last 25 numbers and a
      second buffer holding the same numbers, which the search sorts; the number leaving
      the ring is replaced there by the newcomer. */
  method SolvePartOne(data: seq<int>) returns (r: Option<int>)
    ensures r == SolvePartOneSpec(data)
  {
    var buffer := new int[PREAMBLE];
    var manipulated := new int[PREAMBLE];
    forall i | 0 <= i < PREAMBLE {
      buffer[i] := 0;
    }
    forall i | 0 <= i < PREAMBLE {
      manipulated[i] := 0;
    }
    ReadIntoBuffers(buffer, manipulated, data);
    if |data| < PREAMBLE {
      return None;
    }
    assert buffer[..] == data[..PREAMBLE];
    var index := 0;
    assert manipulated[..] == data[..PREAMBLE];
    while PREAMBLE + index < |data|
      invariant PREAMBLE + index <= |data|
      invariant buffer[..] == Ring(data, index)
      invariant multiset(manipulated[..]) == multiset(buffer[..])
      invariant FirstInvalidFrom(data, index) == SolvePartOneSpec(data)
      decreases |data| - index
    {
      var x := data[PREAMBLE + index];
      var isResult := Slide(buffer, manipulated, x, index % PREAMBLE);
      if isResult {
        return Some(x);
      }
      index := index + 1;
    }
    return None;
  }

  /** The closure of `find` for one number `x`: searches the second buffer (sorting it),
      writes `x` into the ring slot, and replaces the first copy of the number leaving the
      ring in the second buffer by `x`. */
  method Slide(buffer: array<int>, manipulated: array<int>, x: int, slot: nat) returns (isResult: bool)
    requires buffer != manipulated && slot < buffer.Length
    requires multiset(manipulated[..]) == multiset(buffer[..])
    modifies buffer, manipulated
    ensures isResult == !PairSearch(SortSeq(old(buffer[..])), x)
    ensures buffer[..] == old(buffer[..])[slot := x]
    ensures multiset(manipulated[..]) == multiset(buffer[..])
  {
    ghost var before := manipulated[..];
    var summed := IsNumberSumOfAny(x, manipulated);
    SortOfPermutation(before, buffer[..]);
    SortFacts(before);
    isResult := !summed;
    var replacing := buffer[slot];
    buffer[slot] := x;
    var position := FindPosition(manipulated, replacing);
    assert replacing in multiset(manipulated[..]);
    if position == manipulated.Length {
      assert false;
    }
    manipulated[position] := x;
  }

  /** `position`: the first index holding `x`, or the length when there is none. */
  method FindPosition(a: array<int>, x: int) returns (p: nat)
    ensures p <= a.Length
    ensures p < a.Length ==> a[p] == x
    ensures forall k | 0 <= k < p :: a[k] != x
  {
    p := 0;
    while p < a.Length && a[p] != x
      invariant p <= a.Length
      invariant forall k | 0 <= k < p :: a[k] != x
    {
      p := p + 1;
    }
  }

  // ---------------------------------------------------------------------------------
  // `solve_part_two`

  function Min(a: int, b: int): int { if a <= b then a else b }

  function Max(a: int, b: int): int { if a >= b then a else b }

  /** The inner loop of `solve_part_two` for start `i`, at end `j`, with the running sum,
      smallest and largest of `numbers[i..j]`. */
  function Scan(numbers: seq<int>, number: int, i: nat, j: nat, sum: int, lo: int, hi: int): Option<(int, int)>
    requires i < j <= |numbers|
    decreases |numbers| - i, |numbers| - j
  {
    if j == |numbers| then Starts(numbers, number, i + 1)
    else
      var v := numbers[j];
      var (sum', lo', hi') := (sum + v, Min(lo, v), Max(hi, v));
      if sum' == number then Some((lo', hi'))
      else if sum' > number then Starts(numbers, number, i + 1)
      else Scan(numbers, number, i, j + 1, sum', lo', hi')
  }

  /** The outer loop from start `i`. */
  function Starts(numbers: seq<int>, number: int, i: nat): Option<(int, int)>
    requires i <= |numbers|
    decreases |numbers| - i, |numbers| + 1
  {
    if i == |numbers| then None
    else Scan(numbers, number, i, i + 1, numbers[i], numbers[i], numbers[i])
  }

  function SolvePartTwoSpec(number: int, numbers: seq<int>): Option<(int, int)>
  {
    Starts(numbers, number, 0)
  }

  function SeqMin(s: seq<int>): int
    requires s != []
  {
    if |s| == 1 then s[0] else Min(SeqMin(s[..|s| - 1]), s[|s| - 1])
  }

  function SeqMax(s: seq<int>): int
    requires s != []
  {
    if |s| == 1 then s[0] else Max(SeqMax(s[..|s| - 1]), s[|s| - 1])
  }

  lemma SliceStep(numbers: seq<int>, i: nat, j: nat)
    requires i < j < |numbers|
    ensures numbers[i..j + 1][..j - i] == numbers[i..j] && numbers[i..j + 1][j - i] == numbers[j]
    ensures Sum(numbers[i..j + 1]) == Sum(numbers[i..j]) + numbers[j]
  {
    assert numbers[i..j + 1] == numbers[i..j] + [numbers[j]];
    SumAppend(numbers[i..j], numbers[j]);
  }

  lemma SumAppend(s: seq<int>, x: int)
    ensures Sum(s + [x]) == Sum(s) + x
  {
    assert (s + [x])[..|s|] == s;
  }

  /** A run that the search returns: its sum is `number` and the pair is its smallest and
      largest number. */
  predicate RunMatches(numbers: seq<int>, number: int, i: nat, j: nat, r: (int, int))
    requires i <= j < |numbers|
  {
    Sum(numbers[i..j + 1]) == number && r == (SeqMin(numbers[i..j + 1]), SeqMax(numbers[i..j + 1]))
  }

  /** Numbers `a` to `b`, both included, add up to `number`. */
  predicate MatchingRun(numbers: seq<int>, number: int, a: nat, b: nat)
  {
    a <= b < |numbers| && Sum(numbers[a..b + 1]) == number
  }

  /** A result of the inner loop for start `i` at end `j` comes from a run at or after
      them: the first end that matches for its start, and, with no negative numbers, no
      earlier start (nor the current start past `j`) has a matching run. */
  lemma {:induction false} ScanSound(numbers: seq<int>, number: int, i: nat, j: nat, sum: int, lo: int, hi: int)
    returns (a: nat, b: nat)
    requires i < j <= |numbers|
    requires sum == Sum(numbers[i..j]) && lo == SeqMin(numbers[i..j]) && hi == SeqMax(numbers[i..j])
    requires Scan(numbers, number, i, j, sum, lo, hi).Some?
    ensures a < b < |numbers| && RunMatches(numbers, number, a, b, Scan(numbers, number, i, j, sum, lo, hi).value)
    ensures i <= a && (a == i ==> j <= b)
    ensures forall b' | a < b' < b && (i < a || j <= b') :: !MatchingRun(numbers, number, a, b')
    ensures NonNegative(numbers) ==> forall a', b' | i < a' < a && a' < b' < |numbers| :: !MatchingRun(numbers, number, a', b')
    ensures NonNegative(numbers) && i < a ==> forall b' | j <= b' < |numbers| :: !MatchingRun(numbers, number, i, b')
    decreases |numbers| - i, |numbers| - j
  {
    if j == |numbers| {
      a, b := StartsSound(numbers, number, i + 1);
      RestartFirst(numbers, number, i, j, a, b);
    } else {
      var v := numbers[j];
      SliceStep(numbers, i, j);
      if sum + v == number {
        a, b := i, j;
      } else if sum + v > number {
        a, b := StartsSound(numbers, number, i + 1);
        if NonNegative(numbers) {
          forall b' | j <= b' < |numbers| ensures !MatchingRun(numbers, number, i, b') {
            SumMonotone(numbers, i, j + 1, b' + 1);
          }
        }
        RestartFirst(numbers, number, i, j, a, b);
      } else {
        a, b := ScanSound(numbers, number, i, j + 1, sum + v, Min(lo, v), Max(hi, v));
        ExtendFirst(numbers, number, i, j, a, b);
      }
    }
  }

  /** The run found after the inner loop gives up on start `i` at end `j` keeps the
      properties ScanSound states. */
  lemma RestartFirst(numbers: seq<int>, number: int, i: nat, j: nat, a: nat, b: nat)
    requires i < j <= |numbers| && i + 1 <= a
    requires forall b' | a < b' < b :: !MatchingRun(numbers, number, a, b')
    requires NonNegative(numbers) ==> forall a', b' | i + 1 <= a' < a && a' < b' < |numbers| :: !MatchingRun(numbers, number, a', b')
    requires NonNegative(numbers) ==> forall b' | j <= b' < |numbers| :: !MatchingRun(numbers, number, i, b')
    ensures i <= a && (a == i ==> j <= b)
    ensures forall b' | a < b' < b && (i < a || j <= b') :: !MatchingRun(numbers, number, a, b')
    ensures NonNegative(numbers) ==> forall a', b' | i < a' < a && a' < b' < |numbers| :: !MatchingRun(numbers, number, a', b')
    ensures NonNegative(numbers) && i < a ==> forall b' | j <= b' < |numbers| :: !MatchingRun(numbers, number, i, b')
  {
  }

  /** The run found from end `j + 1` keeps the properties ScanSound states at end `j` when
      the run ending at `j` does not match. */
  lemma ExtendFirst(numbers: seq<int>, number: int, i: nat, j: nat, a: nat, b: nat)
    requires i < j < |numbers| && !MatchingRun(numbers, number, i, j)
    requires i <= a && (a == i ==> j + 1 <= b)
    requires forall b' | a < b' < b && (i < a || j + 1 <= b') :: !MatchingRun(numbers, number, a, b')
    requires NonNegative(numbers) ==> forall a', b' | i < a' < a && a' < b' < |numbers| :: !MatchingRun(numbers, number, a', b')
    requires NonNegative(numbers) && i < a ==> forall b' | j + 1 <= b' < |numbers| :: !MatchingRun(numbers, number, i, b')
    ensures i <= a && (a == i ==> j <= b)
    ensures forall b' | a < b' < b && (i < a || j <= b') :: !MatchingRun(numbers, number, a, b')
    ensures NonNegative(numbers) ==> forall a', b' | i < a' < a && a' < b' < |numbers| :: !MatchingRun(numbers, number, a', b')
    ensures NonNegative(numbers) && i < a ==> forall b' | j <= b' < |numbers| :: !MatchingRun(numbers, number, i, b')
  {
  }

  /** A result of the outer loop from start `i`: the first matching end for its start and,
      with no negative numbers, no earlier start from `i` on has a matching run. */
  lemma {:induction false} StartsSound(numbers: seq<int>, number: int, i: nat) returns (a: nat, b: nat)
    requires i <= |numbers| && Starts(numbers, number, i).Some?
    ensures a < b < |numbers| && RunMatches(numbers, number, a, b, Starts(numbers, number, i).value)
    ensures i <= a && forall b' | a < b' < b :: !MatchingRun(numbers, number, a, b')
    ensures NonNegative(numbers) ==> forall a', b' | i <= a' < a && a' < b' < |numbers| :: !MatchingRun(numbers, number, a', b')
    decreases |numbers| - i, |numbers| + 1
  {
    assert numbers[i..i + 1] == [numbers[i]];
    a, b := ScanSound(numbers, number, i, i + 1, numbers[i], numbers[i], numbers[i]);
  }

  /** Whatever part two returns is the smallest and largest number of a run of at least two
      consecutive numbers adding up to `number`, the first such run from its start; with no
      negative numbers no earlier start has one, so it is the first run of all. */
  lemma SolvePartTwoSound(number: int, numbers: seq<int>) returns (a: nat, b: nat)
    requires SolvePartTwoSpec(number, numbers).Some?
    ensures a < b < |numbers| && RunMatches(numbers, number, a, b, SolvePartTwoSpec(number, numbers).value)
    ensures forall b' | a < b' < b :: !MatchingRun(numbers, number, a, b')
    ensures NonNegative(numbers) ==> forall a', b' | 0 <= a' < a && a' < b' < |numbers| :: !MatchingRun(numbers, number, a', b')
  {
    a, b := StartsSound(numbers, number, 0);
  }

  /** With no negative numbers, part two finds a run whenever one exists: abandoning a start
      once the sum exceeds `number` skips only longer runs from that start. */
  lemma {:induction false} ScanComplete(numbers: seq<int>, number: int, i: nat, j: nat, sum: int, lo: int, hi: int, a: nat, b: nat)
    requires NonNegative(numbers) && i < j <= |numbers| && sum == Sum(numbers[i..j])
    requires a < b < |numbers| && Sum(numbers[a..b + 1]) == number
    requires (a == i && j <= b) || i < a
    ensures Scan(numbers, number, i, j, sum, lo, hi).Some?
    decreases |numbers| - i, |numbers| - j
  {
    if j == |numbers| {
      StartsComplete(numbers, number, i + 1, a, b);
    } else {
      var v := numbers[j];
      SliceStep(numbers, i, j);
      if sum + v == number {
      } else if sum + v > number {
        if a == i {
          SumMonotone(numbers, i, j + 1, b + 1);
          assert false;
        }
        StartsComplete(numbers, number, i + 1, a, b);
      } else {
        ScanComplete(numbers, number, i, j + 1, sum + v, Min(lo, v), Max(hi, v), a, b);
      }
    }
  }

  lemma {:induction false} StartsComplete(numbers: seq<int>, number: int, i: nat, a: nat, b: nat)
    requires NonNegative(numbers) && i <= a < b < |numbers| && Sum(numbers[a..b + 1]) == number
    ensures Starts(numbers, number, i).Some?
    decreases |numbers| - i, |numbers| + 1
  {
    assert numbers[i..i + 1] == [numbers[i]];
    ScanComplete(numbers, number, i, i + 1, numbers[i], numbers[i], numbers[i], a, b);
  }

  lemma {:induction false} SumMonotone(numbers: seq<int>, i: nat, j: nat, k: nat)
    requires NonNegative(numbers) && i <= j <= k <= |numbers|
    ensures Sum(numbers[i..j]) <= Sum(numbers[i..k])
    decreases k - j
  {
    if j < k {
      SumMonotone(numbers, i, j, k - 1);
      assert numbers[i..k] == numbers[i..k - 1] + [numbers[k - 1]];
      SumAppend(numbers[i..k - 1], numbers[k - 1]);
    }
  }

  lemma SolvePartTwoComplete(number: int, numbers: seq<int>, a: nat, b: nat)
    requires NonNegative(numbers) && a < b < |numbers| && Sum(numbers[a..b + 1]) == number
    ensures SolvePartTwoSpec(number, numbers).Some?
  {
    StartsComplete(numbers, number, 0, a, b);
  }

  /** `solve_part_two` as the source writes it. */
  method SolvePartTwo(number: int, numbers: seq<int>) returns (r: Option<(int, int)>)
    ensures r == SolvePartTwoSpec(number, numbers)
  {
    var i := 0;
    while i < |numbers|
      invariant i <= |numbers|
      invariant Starts(numbers, number, i) == SolvePartTwoSpec(number, numbers)
      decreases |numbers| - i
    {
      var sum := numbers[i];
      var smallest := sum;
      var largest := sum;
      var j := i + 1;
      while j < |numbers|
        invariant i < j <= |numbers|
        invariant Scan(numbers, number, i, j, sum, smallest, largest) == SolvePartTwoSpec(number, numbers)
        decreases |numbers| - j
      {
        var value := numbers[j];
        sum := sum + value;
        if value < smallest {
          smallest := value;
        }
        if value > largest {
          largest := value;
        }
        if sum == number {
          return Some((smallest, largest));
        }
        if sum > number {
          break;
        }
        j := j + 1;
      }
      i := i + 1;
    }
    return None;
  }

  /** The source's tests. */
  lemma Examples()
    ensures PairSearch(SortSeq([1, 24]), 25) && !PairSearch(SortSeq([1, 23]), 25)
    ensures SolvePartTwoSpec(17, [1, 32, 4, 7, 6, 78]) == Some((4, 7))
  {
  }
}
