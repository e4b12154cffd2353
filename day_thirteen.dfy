/** Shuttle search (src/day_thirteen.rs): the bus line lists bus ids at their offsets; part
    one picks the bus with the shortest wait after the departure time, part two combines
    the offsets with the Chinese remainder construction `sum of index * F * inverse(F, bus)`,
    F being the product of the other buses. */
module DayThirteen {
  import opened Common

  /* ---------------- parsing ---------------- */

  /** The enumerated `split(",")` parts that are not "x" and parse as `usize`, each with its
      position in the line. */
  function Buses(parts: seq<string>): (r: seq<(nat, nat)>)
    ensures forall e | 0 <= e < |r| :: r[e].0 < |parts|
    ensures forall e, f | 0 <= e < f < |r| :: r[e].0 < r[f].0
  {
    if parts == [] then []
    else
      var n := |parts| - 1;
      var rest := Buses(parts[..n]);
      match ParseUnsigned(parts[n], USIZE_BOUND)
      case Some(b) => if parts[n] != "x" then rest + [(n, b)] else rest
      case None => rest
  }

  /** The parsed buses are exactly the parts that parse, listed by increasing position. */
  lemma {:induction false} BusesMembers(parts: seq<string>, i: nat, b: nat)
    ensures (i, b) in Buses(parts) <==> i < |parts| && parts[i] != "x" && ParseUnsigned(parts[i], USIZE_BOUND) == Some(b)
  {
    if parts != [] {
      var n := |parts| - 1;
      BusesMembers(parts[..n], i, b);
      assert i < n ==> parts[..n][i] == parts[i];
    }
  }

  /** The ids of the parsed buses. */
  function Ids(buses: seq<(nat, nat)>): (r: seq<int>)
    ensures |r| == |buses| && forall k | 0 <= k < |r| :: r[k] == buses[k].1
  {
    seq(|buses|, k requires 0 <= k < |buses| => buses[k].1)
  }

  /* ---------------- part one ---------------- */

  /** `bus - departure % bus`: the wait for the bus. */
  function Wait(departure: nat, bus: nat): nat
    requires bus > 0
  {
    bus - departure % bus
  }

  /** The wait is the least positive time after which the bus departs; a bus departing right
      at `departure` is waited for a whole period. */
  lemma WaitMeaning(departure: nat, bus: nat, t: nat)
    requires bus > 0
    ensures 1 <= Wait(departure, bus) <= bus
    ensures (departure + Wait(departure, bus)) % bus == 0
    ensures 1 <= t < Wait(departure, bus) ==> (departure + t) % bus != 0
  {
    var q, r := departure / bus, departure % bus;
    DivModUnique(departure + Wait(departure, bus), bus, q + 1, 0);
    if 1 <= t < Wait(departure, bus) {
      DivModUnique(departure + t, bus, q, r + t);
    }
  }

  predicate Positive(ids: seq<int>)
  {
    forall k | 0 <= k < |ids| :: ids[k] > 0
  }

  /** `min_by` over (bus, wait): the first bus with the least wait, None without buses. */
  function EarliestBus(departure: nat, ids: seq<int>): (r: Option<(nat, nat)>)
    requires Positive(ids)
    ensures r.None? <==> ids == []
    ensures r.Some? ==> forall k | 0 <= k < |ids| :: r.value.1 <= Wait(departure, ids[k])
  {
    if ids == [] then None
    else
      var last := ids[|ids| - 1];
      var prev := EarliestBus(departure, ids[..|ids| - 1]);
      if prev.None? || Wait(departure, last) < prev.value.1 then Some((last, Wait(departure, last)))
      else prev
  }

  /** The chosen bus is the first one whose wait is least. */
  lemma {:induction false} EarliestBusIsFirst(departure: nat, ids: seq<int>) returns (k: nat)
    requires Positive(ids) && ids != []
    ensures k < |ids| && EarliestBus(departure, ids) == Some((ids[k], Wait(departure, ids[k])))
    ensures forall j | 0 <= j < k :: Wait(departure, ids[j]) > Wait(departure, ids[k])
  {
    var init := ids[..|ids| - 1];
    assert forall j | 0 <= j < |init| :: init[j] == ids[j];
    if init == [] || Wait(departure, ids[|ids| - 1]) < EarliestBus(departure, init).value.1 {
      k := |ids| - 1;
    } else {
      k := EarliestBusIsFirst(departure, init);
    }
  }

  /** The part-one answer: bus id times wait, None without buses. */
  function PartOne(departure: nat, buses: seq<(nat, nat)>): (r: Option<nat>)
    requires Positive(Ids(buses))
    ensures r.None? <==> buses == []
  {
    match EarliestBus(departure, Ids(buses))
    case None => None
    case Some((bus, wait)) => Some(bus * wait)
  }

  /** The part-one answer is the id of the first bus whose wait is least, times that wait. */
  lemma PartOneMeaning(departure: nat, buses: seq<(nat, nat)>) returns (k: nat)
    requires Positive(Ids(buses)) && buses != []
    ensures k < |buses| && PartOne(departure, buses) == Some(buses[k].1 * Wait(departure, buses[k].1))
    ensures forall j | 0 <= j < |buses| :: Wait(departure, buses[k].1) <= Wait(departure, buses[j].1)
    ensures forall j | 0 <= j < k :: Wait(departure, buses[k].1) < Wait(departure, buses[j].1)
  {
    var ids := Ids(buses);
    k := EarliestBusIsFirst(departure, ids);
  }

  /* ---------------- the modular inverse ---------------- */

  /** `z * x` leaves remainder 1 modulo `y`. */
  predicate IsInverse(z: int, x: int, y: int)
    requires y > 0
  {
    (z * x) % y == 1
  }

  /** `(z..y).find(...)`, 0 when nothing is found. */
  function InverseFrom(x: nat, y: nat, z: nat): (r: nat)
    requires y > 0
    ensures r == 0 || (z <= r < y && IsInverse(r, x, y))
    ensures forall t | z <= t < (if r == 0 then y else r) :: !IsInverse(t, x, y)
    decreases y - z
  {
    if z >= y then 0 else if IsInverse(z, x, y) then z else InverseFrom(x, y, z + 1)
  }

  /** `inverse`: the least z in [1, y) with `z * x % y == 1`, or 0 when there is none. */
  function Inverse(x: nat, y: nat): (r: nat)
    requires y > 0
    ensures r == 0 || (1 <= r < y && IsInverse(r, x, y))
    ensures forall t | 1 <= t < (if r == 0 then y else r) :: !IsInverse(t, x, y)
  {
    InverseFrom(x, y, 1)
  }

  /* ---------------- greatest common divisor ---------------- */

  /** Euclid's algorithm. */
  function Gcd(a: nat, b: nat): nat
    decreases b
  {
    if b == 0 then a else Gcd(b, a % b)
  }

  /** The gcd divides both numbers. */
  lemma {:induction false} GcdDivides(a: nat, b: nat) returns (p: int, q: int)
    ensures a == p * Gcd(a, b) && b == q * Gcd(a, b)
    decreases b
  {
    if b == 0 {
      p, q := 1, 0;
    } else {
      var p', q' := GcdDivides(b, a % b);
      var g := Gcd(a, b);
      assert a == (a / b) * b + a % b;
      assert a == ((a / b) * p' + q') * g by {
        assert (a / b) * b == (a / b) * (p' * g);
      }
      p, q := (a / b) * p' + q', p';
    }
  }

  /** Bezout's identity: the gcd is an integer combination of the two numbers. */
  lemma {:induction false} Bezout(a: nat, b: nat) returns (x: int, y: int)
    ensures a * x + b * y == Gcd(a, b)
    decreases b
  {
    if b == 0 {
      x, y := 1, 0;
    } else {
      var x', y' := Bezout(b, a % b);
      var d := a / b;
      assert a == d * b + a % b;
      assert (a % b) * y' == a * y' - d * b * y' by {
        assert (a % b) * y' == (a - d * b) * y';
      }
      x, y := y', x' - d * y';
      assert b * y == b * x' - d * b * y';
    }
  }

  /** Numbers coprime to `m` have a product coprime to `m`, in Bezout's form. */
  lemma {:induction false} ProductCofactors(s: seq<int>, m: nat) returns (x: int, y: int)
    requires forall k | 0 <= k < |s| :: s[k] >= 0 && Gcd(s[k], m) == 1
    ensures Product(s) * x + m * y == 1
  {
    if s == [] {
      x, y := 1, 0;
    } else {
      var init, last := s[..|s| - 1], s[|s| - 1];
      assert forall k | 0 <= k < |init| :: init[k] == s[k];
      var x0, y0 := ProductCofactors(init, m);
      var x1, y1 := Bezout(last, m);
      x, y := CofactorStep(Product(init), last, m, x0, y0, x1, y1);
    }
  }

  /** (p x0 = 1 - m y0) and (c x1 = 1 - m y1) multiply to a combination for p c. */
  lemma CofactorStep(p: int, c: int, m: int, x0: int, y0: int, x1: int, y1: int) returns (x: int, y: int)
    requires p * x0 + m * y0 == 1 && c * x1 + m * y1 == 1
    ensures (p * c) * x + m * y == 1
  {
    x, y := x0 * x1, y0 * (c * x1) + y1;
    calc {
      (p * c) * (x0 * x1) + m * (y0 * (c * x1) + y1);
      (p * x0 + m * y0) * (c * x1) + m * y1;
      c * x1 + m * y1;
    }
  }

  /** A number coprime to `y > 1` has an inverse modulo `y`, so `inverse` finds one. */
  lemma InverseExists(f: nat, y: nat, x: int, q: int)
    requires y > 1 && f * x + y * q == 1
    ensures Inverse(f, y) != 0
  {
    var z := x % y;
    ModMulLeft(x, f, y);
    assert x * f == (-q) * y + 1;
    DivModUnique(x * f, y, -q, 1);
    assert IsInverse(z, f, y);
    assert z != 0;
  }

  /* ---------------- modular arithmetic ---------------- */

  lemma ModMulLeft(a: int, b: int, m: nat)
    requires m > 0
    ensures (a * b) % m == ((a % m) * b) % m
  {
    var q, r := a / m, a % m;
    assert a * b == (q * b) * m + r * b;
    var q2, r2 := (r * b) / m, (r * b) % m;
    assert a * b == (q * b + q2) * m + r2;
    DivModUnique(a * b, m, q * b + q2, r2);
  }

  lemma MultipleMod(q: int, m: nat, b: int)
    requires m > 0
    ensures (q * m * b) % m == 0
  {
    DivModUnique(q * m * b, m, q * b, 0);
  }

  /** All terms but the `j`-th are multiples of `m`: the sum agrees with that term modulo `m`. */
  lemma {:induction false} SumMod(s: seq<int>, m: nat, j: nat)
    requires m > 0 && j < |s|
    requires forall i | 0 <= i < |s| && i != j :: s[i] % m == 0
    ensures Sum(s) % m == s[j] % m
  {
    var n := |s| - 1;
    var init := s[..n];
    assert forall i | 0 <= i < |init| :: init[i] == s[i];
    assert Sum(s) == Sum(init) + s[n];
    if j == n {
      SumMultiple(init, m);
      ModAdd(Sum(init), s[n], m);
    } else {
      SumMod(init, m, j);
      ModAdd(s[n], Sum(init), m);
    }
  }

  lemma {:induction false} SumMultiple(s: seq<int>, m: nat)
    requires m > 0 && forall i | 0 <= i < |s| :: s[i] % m == 0
    ensures Sum(s) % m == 0
  {
    if s != [] {
      var init := s[..|s| - 1];
      assert forall i | 0 <= i < |init| :: init[i] == s[i];
      SumMultiple(init, m);
      ModAdd(s[|s| - 1], Sum(init), m);
    }
  }

  /* ---------------- products ---------------- */

  lemma {:induction false} ProductConcat(a: seq<int>, b: seq<int>)
    ensures Product(a + b) == Product(a) * Product(b)
  {
    if b == [] {
      assert a + b == a;
    } else {
      var b' := b[..|b| - 1];
      assert (a + b)[..|a + b| - 1] == a + b';
      ProductConcat(a, b');
    }
  }

  /** The buses other than the `j`-th. */
  function Others(s: seq<int>, j: nat): seq<int>
    requires j < |s|
  {
    s[..j] + s[j + 1..]
  }

  /** The product is the `j`-th factor times the product of the others. */
  lemma ProductSplit(s: seq<int>, j: nat)
    requires j < |s|
    ensures Product(s) == Product(Others(s, j)) * s[j]
  {
    var a, b, x := s[..j], s[j + 1..], s[j];
    var pa, pb := Product(a), Product(b);
    assert Product(s) == Product(a + [x]) * pb by {
      assert s == (a + [x]) + b;
      ProductConcat(a + [x], b);
    }
    assert Product(a + [x]) == pa * x by {
      assert (a + [x])[..|a|] == a;
    }
    assert Product(Others(s, j)) == pa * pb by {
      ProductConcat(a, b);
    }
    Rearrange(pa, x, pb);
  }

  lemma Rearrange(x: int, y: int, z: int)
    ensures (x * y) * z == (x * z) * y
  {
  }

  /** The `k`-th factor divides the product. */
  lemma ProductFactor(s: seq<int>, k: nat) returns (q: int)
    requires k < |s|
    ensures Product(s) == q * s[k]
  {
    ProductSplit(s, k);
    q := Product(Others(s, k));
  }

  lemma {:induction false} ProductPositive(s: seq<int>)
    requires Positive(s)
    ensures Product(s) > 0
  {
    if s != [] {
      var init := s[..|s| - 1];
      assert forall k | 0 <= k < |init| :: init[k] == s[k];
      ProductPositive(init);
      MulAtLeast(s[|s| - 1], Product(init));
    }
  }

  /* ---------------- part two ---------------- */

  /** `index * factors * inverse(factors, bus)` with `factors = product / bus`. */
  function Term(buses: seq<(nat, nat)>, k: nat): int
    requires k < |buses| && Positive(Ids(buses))
  {
    ProductPositive(Ids(buses));
    var factors := Product(Ids(buses)) / buses[k].1;
    buses[k].0 * factors * Inverse(factors, buses[k].1)
  }

  function Terms(buses: seq<(nat, nat)>): (r: seq<int>)
    requires Positive(Ids(buses))
    ensures |r| == |buses|
  {
    seq(|buses|, k requires 0 <= k < |buses| => Term(buses, k))
  }

  /** The source computes in `usize`: the product, every term and the sum stay below 2^64. */
  predicate FitsUsize(buses: seq<(nat, nat)>)
    requires Positive(Ids(buses))
  {
    Product(Ids(buses)) < USIZE_BOUND && Sum(Terms(buses)) < USIZE_BOUND
    && forall k | 0 <= k < |buses| :: buses[k].0 * Product(Ids(buses)) < USIZE_BOUND
  }

  /** The part-two answer `product - (sum of terms % product)`. */
  function PartTwo(buses: seq<(nat, nat)>): (r: int)
    requires Positive(Ids(buses)) && FitsUsize(buses)
    ensures 0 < r <= Product(Ids(buses))
  {
    ProductPositive(Ids(buses));
    var product := Product(Ids(buses));
    product - Sum(Terms(buses)) % product
  }

  predicate PairwiseCoprime(ids: seq<int>)
  {
    forall i, j | 0 <= i < |ids| && 0 <= j < |ids| && i != j :: ids[i] >= 0 && ids[j] >= 0 && Gcd(ids[i], ids[j]) == 1
  }

  /** `product / bus` is the product of the other buses. */
  lemma FactorIsOthers(ids: seq<int>, j: nat)
    requires Positive(ids) && j < |ids|
    ensures Product(ids) / ids[j] == Product(Others(ids, j))
  {
    ProductSplit(ids, j);
    ProductPositive(ids);
    var others, b := Product(Others(ids, j)), ids[j];
    NonNegativeFactor(others, b, Product(ids));
    DivModUnique(Product(ids), b, others, 0);
  }

  lemma NonNegativeFactor(x: int, b: int, p: int)
    requires p == x * b && p > 0 && b > 0
    ensures x >= 0
  {
  }

  lemma FactorVanishes(index: int, f: int, inv: int, q: int, b: nat)
    requires f == q * b && b > 0
    ensures (index * f * inv) % b == 0
  {
    assert index * f * inv == (index * q * inv) * b;
    DivModUnique(index * f * inv, b, index * q * inv, 0);
  }

  lemma InverseCancels(index: int, f: int, z: int, b: nat)
    requires b > 0 && (z * f) % b == 1
    ensures (index * f * z) % b == index % b
  {
    assert index * f * z == (z * f) * index;
    ModMulLeft(z * f, index, b);
  }

  /** Modulo the `j`-th bus, every other term vanishes (its factors contain that bus). */
  lemma OtherTermVanishes(buses: seq<(nat, nat)>, i: nat, j: nat)
    requires Positive(Ids(buses)) && i < |buses| && j < |buses| && i != j
    ensures Term(buses, i) % buses[j].1 == 0
  {
    var ids := Ids(buses);
    FactorIsOthers(ids, i);
    var others := Others(ids, i);
    var k := if j < i then j else j - 1;
    assert others[k] == ids[j];
    var q := ProductFactor(others, k);
    ProductPositive(ids);
    var factors := Product(ids) / buses[i].1;
    FactorVanishes(buses[i].0, factors, Inverse(factors, buses[i].1), q, buses[j].1);
  }

  /** The buses other than the `j`-th are coprime to it. */
  lemma OthersCoprime(ids: seq<int>, j: nat)
    requires PairwiseCoprime(ids) && j < |ids|
    ensures forall k | 0 <= k < |Others(ids, j)| :: Others(ids, j)[k] >= 0 && Gcd(Others(ids, j)[k], ids[j]) == 1
  {
    var others := Others(ids, j);
    forall k | 0 <= k < |others| ensures others[k] >= 0 && Gcd(others[k], ids[j]) == 1 {
      var i := if k < j then k else k + 1;
      assert others[k] == ids[i];
    }
  }

  /** Modulo its own bus, a term leaves the bus's index. */
  lemma OwnTerm(buses: seq<(nat, nat)>, j: nat)
    requires Positive(Ids(buses)) && PairwiseCoprime(Ids(buses)) && j < |buses| && buses[j].1 > 1
    ensures Term(buses, j) % buses[j].1 == buses[j].0 % buses[j].1
  {
    var ids := Ids(buses);
    var b := buses[j].1;
    FactorIsOthers(ids, j);
    OthersCoprime(ids, j);
    var x, y := ProductCofactors(Others(ids, j), b);
    ProductPositive(ids);
    var factors := Product(ids) / b;
    InverseExists(factors, b, x, y);
    InverseCancels(buses[j].0, factors, Inverse(factors, b), b);
  }

  /** The sum of the terms leaves each bus's index modulo that bus. */
  lemma SumOfTerms(buses: seq<(nat, nat)>, j: nat)
    requires Positive(Ids(buses)) && PairwiseCoprime(Ids(buses)) && j < |buses|
    ensures Sum(Terms(buses)) % buses[j].1 == buses[j].0 % buses[j].1
  {
    var terms := Terms(buses);
    var b := buses[j].1;
    forall i | 0 <= i < |terms| && i != j ensures terms[i] % b == 0 {
      OtherTermVanishes(buses, i, j);
    }
    SumMod(terms, b, j);
    if b > 1 {
      OwnTerm(buses, j);
    }
  }

  /** `product - s % product + index` is a multiple of `b` when `b` divides the product and
      `s` and `index` agree modulo `b`. */
  lemma Align(product: int, s: int, index: int, b: nat, f: int)
    requires b > 0 && product > 0 && product == f * b && s % b == index % b
    ensures (product - s % product + index) % b == 0
  {
    var q, u, v, c := s / product, s / b, index / b, s % b;
    assert s == q * product + s % product;
    assert s == u * b + c && index == v * b + c;
    assert q * product == (f * q) * b;
    var k := f + f * q - u + v;
    assert k * b == f * b + (f * q) * b - u * b + v * b;
    DivModUnique(product - s % product + index, b, k, 0);
  }

  /** For pairwise coprime buses, the part-two time `r` has every bus departing `index`
      minutes after it: `(r + index) % bus == 0`. */
  lemma PartTwoAligned(buses: seq<(nat, nat)>, j: nat)
    requires Positive(Ids(buses)) && FitsUsize(buses) && PairwiseCoprime(Ids(buses)) && j < |buses|
    ensures (PartTwo(buses) + buses[j].0) % buses[j].1 == 0
  {
    var ids := Ids(buses);
    ProductPositive(ids);
    SumOfTerms(buses, j);
    var f := ProductFactor(ids, j);
    Align(Product(ids), Sum(Terms(buses)), buses[j].0, buses[j].1, f);
  }
}
