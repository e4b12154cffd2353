/** Shared vocabulary of the solvers: optional values, the string operations of Rust's
    `str` that the solvers use (splitting, searching, trimming, joining), Rust-style
    integer parsing, and counting over sequences. */
module Common {

  datatype Option<T> = None | Some(value: T)

  // Integer widths of the Rust types the solvers parse into (usize is taken as 64 bits).
  const U16_BOUND: nat := 0x1_0000
  const U32_BOUND: nat := 0x1_0000_0000
  const USIZE_BOUND: nat := 0x1_0000_0000_0000_0000
  const ISIZE_MIN: int := -0x8000_0000_0000_0000
  const ISIZE_MAX: int := 0x7FFF_FFFF_FFFF_FFFF

  /* ---------------- counting ---------------- */

  /** Number of positions of `s` holding `x`. */
  function Count<T(==)>(s: seq<T>, x: T): (n: nat)
    ensures n <= |s|
    ensures n == 0 <==> x !in s
  {
    if s == [] then 0 else Count(s[..|s| - 1], x) + (if s[|s| - 1] == x then 1 else 0)
  }

  lemma {:induction false} CountAppend<T>(a: seq<T>, b: seq<T>, x: T)
    ensures Count(a + b, x) == Count(a, x) + Count(b, x)
  {
    if b == [] {
      assert a + b == a;
    } else {
      assert (a + b)[..|a + b| - 1] == a + b[..|b| - 1];
      CountAppend(a, b[..|b| - 1], x);
    }
  }

  lemma {:induction false} CountAllEqual<T>(s: seq<T>, x: T)
    requires forall k | 0 <= k < |s| :: s[k] == x
    ensures Count(s, x) == |s|
  {
    if s != [] {
      CountAllEqual(s[..|s| - 1], x);
    }
  }

  function Sum(s: seq<int>): int
  {
    if s == [] then 0 else Sum(s[..|s| - 1]) + s[|s| - 1]
  }

  function Product(s: seq<int>): int
  {
    if s == [] then 1 else Product(s[..|s| - 1]) * s[|s| - 1]
  }

  /* ---------------- division ---------------- */

  lemma MulAtLeast(d: int, b: int)
    requires d >= 1 && b > 0
    ensures d * b >= b
  {
  }

  /** Euclidean division is determined by its quotient-remainder decomposition. */
  lemma DivModUnique(x: int, b: int, q: int, r: int)
    requires b > 0 && 0 <= r < b && x == q * b + r
    ensures x % b == r && x / b == q
  {
    var q0, r0 := x / b, x % b;
    assert x == q0 * b + r0;
    assert (q - q0) * b == r0 - r;
    if q - q0 >= 1 {
      MulAtLeast(q - q0, b);
    } else if q0 - q >= 1 {
      MulAtLeast(q0 - q, b);
    }
  }

  /** Reducing a summand first does not change the remainder of a sum. */
  lemma ModAdd(x: int, y: int, b: int)
    requires b > 0
    ensures (x % b + y) % b == (x + y) % b
  {
    var q := x / b;
    assert x == q * b + x % b;
    var s := x % b + y;
    assert x + y == q * b + s;
    DivModUnique(s, b, s / b, s % b);
    DivModUnique(x + y, b, q + s / b, s % b);
  }

  /* ---------------- characters ---------------- */

  predicate IsDigit(c: char) { '0' <= c <= '9' }

  predicate AllDigits(s: string) { forall i | 0 <= i < |s| :: IsDigit(s[i]) }

  /** Rust's `char::is_whitespace`: the Unicode White_Space property. */
  predicate IsWhitespace(c: char)
  {
    ('\U{0009}' <= c <= '\U{000D}') || c == ' ' || c == '\U{0085}' || c == '\U{00A0}'
    || c == '\U{1680}' || ('\U{2000}' <= c <= '\U{200A}') || c == '\U{2028}' || c == '\U{2029}'
    || c == '\U{202F}' || c == '\U{205F}' || c == '\U{3000}'
  }

  /* ---------------- searching and splitting ---------------- */

  /** First position of `s` holding a character of `seps`. */
  function IndexOfAny(s: string, seps: set<char>): (r: Option<nat>)
    ensures r.Some? ==> r.value < |s| && s[r.value] in seps
                        && forall k | 0 <= k < r.value :: s[k] !in seps
    ensures r.None? ==> forall k | 0 <= k < |s| :: s[k] !in seps
  {
    if s == [] then None
    else if s[0] in seps then Some(0)
    else match IndexOfAny(s[1..], seps)
      case None => None
      case Some(i) => Some(i + 1)
  }

  lemma IndexOfAnyAbsent(s: string, seps: set<char>)
    requires forall k | 0 <= k < |s| :: s[k] !in seps
    ensures IndexOfAny(s, seps).None?
  {
  }

  /** Rust's `s.split(p)` where `p` matches the characters in `seps`. */
  function SplitOn(s: string, seps: set<char>): (parts: seq<string>)
    ensures |parts| >= 1
    decreases |s|
  {
    match IndexOfAny(s, seps)
    case None => [s]
    case Some(i) => [s[..i]] + SplitOn(s[i + 1..], seps)
  }

  /** The first separator after a separator-free prefix is at the end of the prefix. */
  lemma IndexAfterPrefix(prefix: string, c: char, rest: string, seps: set<char>)
    requires IndexOfAny(prefix, seps).None? && c in seps
    ensures IndexOfAny(prefix + [c] + rest, seps) == Some(|prefix|)
    ensures (prefix + [c] + rest)[..|prefix|] == prefix
    ensures (prefix + [c] + rest)[|prefix| + 1..] == rest
  {
    var s := prefix + [c] + rest;
    assert s[|prefix|] == c;
    assert forall k | 0 <= k < |prefix| :: s[k] == prefix[k];
  }

  lemma SplitOnNoSeparator(s: string, seps: set<char>)
    requires IndexOfAny(s, seps).None?
    ensures SplitOn(s, seps) == [s]
  {
  }

  lemma SplitOnAfterPrefix(prefix: string, c: char, rest: string, seps: set<char>)
    requires IndexOfAny(prefix, seps).None? && c in seps
    ensures SplitOn(prefix + [c] + rest, seps) == [prefix] + SplitOn(rest, seps)
  {
    IndexAfterPrefix(prefix, c, rest, seps);
  }

  lemma SplitOnTwo(a: string, c: char, b: string, seps: set<char>)
    requires IndexOfAny(a, seps).None? && IndexOfAny(b, seps).None? && c in seps
    ensures SplitOn(a + [c] + b, seps) == [a, b]
  {
    SplitOnAfterPrefix(a, c, b, seps);
    SplitOnNoSeparator(b, seps);
  }

  /** The first separator of a text that has one is also the first of any extension. */
  lemma IndexOfAnyExtend(a: string, b: string, seps: set<char>)
    requires IndexOfAny(a, seps).Some?
    ensures IndexOfAny(a + b, seps) == IndexOfAny(a, seps)
  {
    var i := IndexOfAny(a, seps).value;
    var s := a + b;
    assert s[i] == a[i];
    assert forall k | 0 <= k < i :: s[k] == a[k];
    var j := IndexOfAny(s, seps);
    assert j.Some? && j.value <= i;
    assert !(j.value < i);
  }

  /** Splitting at a separator splits both sides independently. */
  lemma {:induction false} SplitOnConcat(a: string, c: char, b: string, seps: set<char>)
    requires c in seps
    ensures SplitOn(a + [c] + b, seps) == SplitOn(a, seps) + SplitOn(b, seps)
    decreases |a|
  {
    match IndexOfAny(a, seps)
    case None =>
      SplitOnAfterPrefix(a, c, b, seps);
      SplitOnNoSeparator(a, seps);
    case Some(i) =>
      var s := a + [c] + b;
      IndexOfAnyExtend(a, [c] + b, seps);
      assert s == a + ([c] + b);
      assert s[..i] == a[..i];
      assert s[i + 1..] == a[i + 1..] + [c] + b;
      SplitOnConcat(a[i + 1..], c, b, seps);
  }

  /** Rust's `s.splitn(n, p)`: at most `n` parts; the last one keeps the separators. */
  function SplitN(s: string, n: nat, seps: set<char>): (parts: seq<string>)
    requires n >= 1
    ensures 1 <= |parts| <= n
    decreases n
  {
    if n == 1 then [s]
    else match IndexOfAny(s, seps)
      case None => [s]
      case Some(i) => [s[..i]] + SplitN(s[i + 1..], n - 1, seps)
  }

  lemma SplitNAfterPrefix(prefix: string, c: char, rest: string, n: nat, seps: set<char>)
    requires IndexOfAny(prefix, seps).None? && c in seps && n >= 2
    ensures SplitN(prefix + [c] + rest, n, seps) == [prefix] + SplitN(rest, n - 1, seps)
  {
    IndexAfterPrefix(prefix, c, rest, seps);
  }

  /** Joins `parts` putting `sep` between neighbours (Rust's `join`). */
  function Join(parts: seq<string>, sep: string): string
  {
    if parts == [] then ""
    else if |parts| == 1 then parts[0]
    else parts[0] + sep + Join(parts[1..], sep)
  }

  /** Splitting a join at its separator gives the parts back when no part holds it. */
  lemma {:induction false} SplitOnJoin(parts: seq<string>, c: char)
    requires parts != []
    requires forall i, k | 0 <= i < |parts| && 0 <= k < |parts[i]| :: parts[i][k] != c
    ensures SplitOn(Join(parts, [c]), {c}) == parts
  {
    IndexOfAnyAbsent(parts[0], {c});
    if |parts| == 1 {
      SplitOnNoSeparator(parts[0], {c});
    } else {
      SplitOnJoin(parts[1..], c);
      SplitOnAfterPrefix(parts[0], c, Join(parts[1..], [c]), {c});
    }
  }

  predicate StartsWith(s: string, prefix: string)
  {
    |prefix| <= |s| && s[..|prefix|] == prefix
  }

  /** `pat` occurs in `s` starting at position `k`. */
  predicate OccursAt(s: string, pat: string, k: nat)
  {
    k + |pat| <= |s| && s[k..k + |pat|] == pat
  }

  /** First position at which `pat` occurs in `s`. */
  function IndexOfStr(s: string, pat: string, from: nat := 0): (r: Option<nat>)
    requires from <= |s|
    ensures r.Some? ==> from <= r.value && OccursAt(s, pat, r.value)
                        && forall k: nat | from <= k < r.value :: !OccursAt(s, pat, k)
    ensures r.None? ==> forall k: nat | from <= k :: !OccursAt(s, pat, k)
    decreases |s| - from
  {
    if from + |pat| > |s| then None
    else if s[from..from + |pat|] == pat then Some(from)
    else IndexOfStr(s, pat, from + 1)
  }

  /** Rust's `s.splitn(2, pat)` when both parts are taken: the text before and after the
      first occurrence of `pat`, or None when `pat` does not occur. */
  function SplitOnce(s: string, pat: string): (r: Option<(string, string)>)
    requires |pat| > 0
    ensures r.Some? ==> r.value.0 + pat + r.value.1 == s
  {
    match IndexOfStr(s, pat)
    case None => None
    case Some(i) =>
      assert s == s[..i] + s[i..i + |pat|] + s[i + |pat|..];
      Some((s[..i], s[i + |pat|..]))
  }

  function TrimStart(s: string): (r: string)
    ensures |r| <= |s|
  {
    if s != [] && IsWhitespace(s[0]) then TrimStart(s[1..]) else s
  }

  function TrimEnd(s: string): (r: string)
    ensures |r| <= |s|
  {
    if s != [] && IsWhitespace(s[|s| - 1]) then TrimEnd(s[..|s| - 1]) else s
  }

  /** Rust's `trim`: leading and trailing whitespace removed. */
  function Trim(s: string): string
  {
    TrimEnd(TrimStart(s))
  }

  /* ---------------- integers ---------------- */

  function DigitValue(c: char): nat
    requires IsDigit(c)
  {
    c as int - '0' as int
  }

  /** Value of a decimal digit string, most significant digit first. */
  function DigitsValue(s: string): nat
    requires AllDigits(s)
  {
    if s == [] then 0 else DigitsValue(s[..|s| - 1]) * 10 + DigitValue(s[|s| - 1])
  }

  /** Rust's `str::parse` for an unsigned type whose values lie below `bound`: an optional
      `+`, then at least one ASCII digit and nothing else; a value too large is an error. */
  function ParseUnsigned(s: string, bound: nat): (r: Option<nat>)
    ensures r.Some? ==> r.value < bound
  {
    var digits := if |s| > 0 && s[0] == '+' then s[1..] else s;
    if |digits| > 0 && AllDigits(digits) && DigitsValue(digits) < bound
    then Some(DigitsValue(digits)) else None
  }

  /** Rust's `str::parse::<isize>`: an optional sign, then at least one ASCII digit. */
  function ParseSigned(s: string): (r: Option<int>)
    ensures r.Some? ==> ISIZE_MIN <= r.value <= ISIZE_MAX
  {
    if |s| > 0 && s[0] == '-' then
      var digits := s[1..];
      if |digits| > 0 && AllDigits(digits) && DigitsValue(digits) <= -ISIZE_MIN
      then var v: int := DigitsValue(digits); Some(-v) else None
    else
      match ParseUnsigned(s, ISIZE_MAX + 1)
      case None => None
      case Some(v) => Some(v)
  }

  function DigitChar(d: nat): (c: char)
    requires d < 10
    ensures IsDigit(c) && DigitValue(c) == d
  {
    ('0' as int + d) as char
  }

  /** Decimal rendering of `n`, without leading zeros. */
  function Decimal(n: nat): (s: string)
    ensures |s| >= 1 && AllDigits(s)
    decreases n
  {
    if n < 10 then [DigitChar(n)] else Decimal(n / 10) + [DigitChar(n % 10)]
  }

  lemma {:induction false} DecimalValue(n: nat)
    ensures DigitsValue(Decimal(n)) == n
    decreases n
  {
    if n >= 10 {
      DecimalValue(n / 10);
      var s := Decimal(n);
      assert s[..|s| - 1] == Decimal(n / 10);
    }
  }

  /** Parsing the decimal rendering of a value in range gives the value back. */
  lemma ParseDecimal(n: nat, bound: nat)
    requires n < bound
    ensures ParseUnsigned(Decimal(n), bound) == Some(n)
  {
    DecimalValue(n);
  }
}
