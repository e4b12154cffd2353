/** Binary boarding (src/day_five.rs): a boarding pass is a binary number written with a
    chosen "one" letter; seat ids, the highest id and the single missing id. */
module DayFive {
  import opened Common

  /** Value of the binary digits `bits` (most significant first), reading `one` as 1 and
      any other character as 0. */
  function BinaryValue(bits: string, one: char): (v: nat)
    ensures v < Pow2(|bits|)
  {
    if bits == [] then 0
    else 2 * BinaryValue(bits[..|bits| - 1], one) + (if bits[|bits| - 1] == one then 1 else 0)
  }

  function Pow2(n: nat): (p: nat)
    ensures p >= 1
  {
    if n == 0 then 1 else 2 * Pow2(n - 1)
  }

  datatype ParseError = Empty | Overflow

  datatype Result<T> = Ok(value: T) | Err(error: ParseError)

  /** `to_integer_from_binary_string`: the pass mapped to a string of `1` and `0` and read
      by `u32::from_str_radix(_, 2)`, which fails on an empty string and on overflow. */
  function ToIntegerFromBinaryString(s: string, one: char): (r: Result<nat>)
    ensures r.Ok? <==> |s| > 0 && BinaryValue(s, one) < U32_BOUND
    ensures r.Ok? ==> r.value == BinaryValue(s, one)
    ensures r.Err? ==> (r.error == Empty <==> s == [])
  {
    if s == [] then Err(Empty)
    else if BinaryValue(s, one) >= U32_BOUND then Err(Overflow)
    else Ok(BinaryValue(s, one))
  }

  function Digit(isOne: bool, one: char, zero: char): char
  {
    if isOne then one else zero
  }

  /** The `n`-character pass that encodes `v`, using `one` and `zero`. */
  function Encode(v: nat, n: nat, one: char, zero: char): (s: string)
    ensures |s| == n
    decreases n
  {
    if n == 0 then [] else Encode(v / 2, n - 1, one, zero) + [Digit(v % 2 == 1, one, zero)]
  }

  /** Decoding the encoding of a value that fits in `n` bits gives the value back. */
  lemma {:induction false} DecodeEncode(v: nat, n: nat, one: char, zero: char)
    requires v < Pow2(n) && one != zero
    ensures BinaryValue(Encode(v, n, one, zero), one) == v
    decreases n
  {
    if n > 0 {
      DecodeEncode(v / 2, n - 1, one, zero);
      var s := Encode(v, n, one, zero);
      assert s[..|s| - 1] == Encode(v / 2, n - 1, one, zero);
    }
  }

  /** The source's test: "WWbeW" with `W` as one is 11001 = 25. */
  lemma Example()
    ensures ToIntegerFromBinaryString("WWbeW", 'W') == Ok(25)
  {
    var s := "WWbeW";
    assert s[..4] == "WWbe" && s[..4][..3] == "WWb" && s[..4][..3][..2] == "WW" && s[..4][..3][..2][..1] == "W";
    assert BinaryValue("W", 'W') == 1;
    assert BinaryValue("WW", 'W') == 3;
    assert BinaryValue("WWb", 'W') == 6;
    assert BinaryValue("WWbe", 'W') == 12;
  }

  /** The seat id of a boarding pass: row from characters 0-6 (`B` is 1), column from
      characters 7-9 (`R` is 1), id 8 * row + column. Slicing requires ten characters. */
  function SeatId(line: string): (id: nat)
    requires |line| >= 10
    ensures id < 1024
    ensures id / 8 == BinaryValue(line[..7], 'B') && id % 8 == BinaryValue(line[7..10], 'R')
  {
    var row := ToIntegerFromBinaryString(line[..7], 'B');
    var column := ToIntegerFromBinaryString(line[7..10], 'R');
    assert row.Ok? && column.Ok?;
    var id := 8 * row.value + column.value;
    DivModUnique(id, 8, row.value, column.value);
    id
  }

  predicate StrictlyIncreasing(xs: seq<nat>)
  {
    forall i, j | 0 <= i < j < |xs| :: xs[i] < xs[j]
  }

  /** Neighbours at positions i, i + 1 differ by exactly two. */
  predicate GapAt(xs: seq<nat>, i: nat)
  {
    i + 1 < |xs| && xs[i + 1] == xs[i] + 2
  }

  /** The window search `windows(2).find(...)` from position `from` on: over distinct
      sorted ids, `seats[0] + 1 != seats[1] && seats[1] - 2 == seats[0]` is a gap of two
      (and the u32 subtraction cannot underflow). */
  function FirstGap(xs: seq<nat>, from: nat): (r: Option<nat>)
    requires StrictlyIncreasing(xs)
    ensures r.Some? ==> from <= r.value && GapAt(xs, r.value)
                        && forall k: nat | from <= k < r.value :: !GapAt(xs, k)
    ensures r.None? ==> forall k: nat | from <= k :: !GapAt(xs, k)
    decreases |xs| - from
  {
    if from + 1 >= |xs| then None
    else if xs[from] + 1 != xs[from + 1] && xs[from + 1] - 2 == xs[from] then Some(from)
    else FirstGap(xs, from + 1)
  }

  /** The missing seat: one more than the lower id of the first gap of two. It is not
      among the ids, and both of its neighbours are. */
  function FindMissingSeat(xs: seq<nat>): (r: Option<nat>)
    requires StrictlyIncreasing(xs)
    ensures r.None? <==> forall k: nat :: !GapAt(xs, k)
    ensures r.Some? ==> r.value == xs[FirstGap(xs, 0).value] + 1
    ensures r.Some? ==> r.value !in xs && r.value - 1 in xs && r.value + 1 in xs
  {
    match FirstGap(xs, 0)
    case None => None
    case Some(i) =>
      forall k | 0 <= k < |xs| ensures xs[k] != xs[i] + 1 {
        if k < i {
          assert xs[k] < xs[i];
        } else if k > i + 1 {
          assert xs[i + 1] < xs[k];
        }
      }
      Some(xs[i] + 1)
  }

  /** The highest id: the last element of the sorted list, or 0 for no seats. */
  function HighestSeat(xs: seq<nat>): (m: nat)
    requires StrictlyIncreasing(xs)
    ensures forall k | 0 <= k < |xs| :: xs[k] <= m
    ensures xs != [] ==> m in xs
  {
    if xs == [] then 0 else xs[|xs| - 1]
  }
}
