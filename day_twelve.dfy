/** Rain risk (src/day_twelve.rs): a ship with a heading and a position follows a list of
    navigation instructions. */
module DayTwelve {
  import opened Common

  datatype Heading = North | East | South | West

  datatype Direction = Forward | Backward

  type Position = (int, int)

  type Ship = (Heading, Position)

  /** The heading's index in `rotate`: East 0, North 1, West 2, South 3. */
  function HeadingIndex(h: Heading): (d: int)
    ensures 0 <= d < 4
  {
    match h
    case East => 0
    case North => 1
    case West => 2
    case South => 3
  }

  /** The heading of index `d mod 4` (Euclidean remainder, as `rem_euclid`). */
  function HeadingOf(d: int): (h: Heading)
    ensures HeadingIndex(h) == d % 4
  {
    match d % 4
    case 0 => East
    case 1 => North
    case 2 => West
    case _ => South
  }

  function Sign(direction: Direction): int
  {
    if direction == Forward then 1 else -1
  }

  /** Integer division rounding toward zero, as Rust's `/` on `isize`. */
  function TruncDiv(a: int, b: int): (q: int)
    requires b > 0
    ensures a >= 0 ==> 0 <= q && q * b <= a < (q + 1) * b
    ensures a < 0 ==> q <= 0 && (-q) * b <= -a < (-q + 1) * b
  {
    var n := if a >= 0 then a else -a;
    DivBounds(n, b);
    if a >= 0 then n / b else -(n / b)
  }

  lemma DivBounds(n: int, b: int)
    requires n >= 0 && b > 0
    ensures 0 <= n / b && (n / b) * b <= n < (n / b + 1) * b
  {
    var q, r := n / b, n % b;
    assert n == q * b + r;
    assert (q + 1) * b == q * b + b;
  }

  /** `rotate`: turns the heading by (sign * amount) / 90 quarter turns (left is positive),
      keeping the position. */
  function Rotate(ship: Ship, amount: int, direction: Direction): (r: Ship)
    ensures r.1 == ship.1
    ensures HeadingIndex(r.0) == (HeadingIndex(ship.0) + TruncDiv(Sign(direction) * amount, 90)) % 4
  {
    var degrees := HeadingIndex(ship.0) + TruncDiv(Sign(direction) * amount, 90);
    (HeadingOf(degrees), ship.1)
  }

  /** `translate`: moves sign * amount along the heading's axis, keeping the heading. */
  function Translate(ship: Ship, amount: int, direction: Direction): (r: Ship)
    ensures r.0 == ship.0
  {
    var t := Sign(direction) * amount;
    var (x, y) := ship.1;
    match ship.0
    case East => (ship.0, (x + t, y))
    case West => (ship.0, (x - t, y))
    case North => (ship.0, (x, y + t))
    case South => (ship.0, (x, y - t))
  }

  /** One navigation instruction; an unknown character leaves the ship as it is. */
  function Step(ship: Ship, instruction: char, number: int): Ship
  {
    var (x, y) := ship.1;
    match instruction
    case 'F' => Translate(ship, number, Forward)
    case 'B' => Translate(ship, number, Backward)
    case 'L' => Rotate(ship, number, Forward)
    case 'R' => Rotate(ship, number, Backward)
    case 'N' => (ship.0, (x, y + number))
    case 'E' => (ship.0, (x + number, y))
    case 'S' => (ship.0, (x, y - number))
    case 'W' => (ship.0, (x - number, y))
    case _ => ship
  }

  function Fold(ship: Ship, inst: seq<(char, int)>): Ship
    decreases |inst|
  {
    if inst == [] then ship else Fold(Step(ship, inst[0].0, inst[0].1), inst[1..])
  }

  /** `solve_part_one`: the final position, starting East at the origin. */
  function SolvePartOne(inst: seq<(char, int)>): Position
  {
    Fold((East, (0, 0)), inst).1
  }

  /** Truncating division is symmetric in the sign of the dividend. */
  lemma TruncDivNegate(a: int, b: int)
    requires b > 0
    ensures TruncDiv(-a, b) == -TruncDiv(a, b)
  {
    if a < 0 {
      assert -a > 0;
    } else if a == 0 {
    } else {
      assert -a < 0 && - -a == a;
    }
  }

  lemma HeadingOfIndex(h: Heading)
    ensures HeadingOf(HeadingIndex(h)) == h
  {
  }

  /** Turning left and then right by the same amount restores the heading, for every
      amount (the truncating division is symmetric in the sign). */
  lemma RotateLeftRight(ship: Ship, amount: int)
    ensures Rotate(Rotate(ship, amount, Forward), amount, Backward) == ship
  {
    var q := TruncDiv(amount, 90);
    assert TruncDiv(Sign(Backward) * amount, 90) == -q by {
      assert Sign(Backward) * amount == -amount;
      TruncDivNegate(amount, 90);
    }
    var mid := Rotate(ship, amount, Forward);
    var d := HeadingIndex(ship.0);
    assert HeadingIndex(mid.0) == (d + q) % 4;
    ModAdd(d + q, -q, 4);
    HeadingOfIndex(ship.0);
  }

  /** Going backward is going forward by the negated amount, so forward then backward by
      the same amount returns to the start. */
  lemma TranslateBackward(ship: Ship, amount: int)
    ensures Translate(ship, amount, Backward) == Translate(ship, -amount, Forward)
    ensures Translate(Translate(ship, amount, Forward), amount, Backward) == ship
  {
    assert Sign(Forward) * amount == amount;
    assert Sign(Backward) * amount == -amount;
    assert Sign(Forward) * -amount == -amount;
    var mid := Translate(ship, amount, Forward);
    assert mid.0 == ship.0;
    match ship.0
    case East => assert mid.1 == (ship.1.0 + amount, ship.1.1);
    case West => assert mid.1 == (ship.1.0 - amount, ship.1.1);
    case North => assert mid.1 == (ship.1.0, ship.1.1 + amount);
    case South => assert mid.1 == (ship.1.0, ship.1.1 - amount);
  }

  /** Four left quarter turns are the identity. */
  lemma FullTurn(ship: Ship)
    ensures Rotate(Rotate(Rotate(Rotate(ship, 90, Forward), 90, Forward), 90, Forward), 90, Forward) == ship
  {
  }

  /** The fold over two instruction lists in a row is the fold over their concatenation. */
  lemma {:induction false} FoldAppend(ship: Ship, first: seq<(char, int)>, second: seq<(char, int)>)
    ensures Fold(ship, first + second) == Fold(Fold(ship, first), second)
    decreases |first|
  {
    if first == [] {
      assert first + second == second;
    } else {
      assert (first + second)[0] == first[0];
      assert (first + second)[1..] == first[1..] + second;
      FoldAppend(Step(ship, first[0].0, first[0].1), first[1..], second);
    }
  }

  /** A compass instruction moves the ship as `F` does when the ship faces that way, and
      keeps the heading. */
  lemma CompassIsForward(ship: Ship, n: int)
    ensures Step(ship, 'N', n).0 == ship.0 && Step(ship, 'E', n).0 == ship.0
    ensures Step(ship, 'S', n).0 == ship.0 && Step(ship, 'W', n).0 == ship.0
    ensures ship.0 == North ==> Step(ship, 'N', n) == Step(ship, 'F', n)
    ensures ship.0 == East ==> Step(ship, 'E', n) == Step(ship, 'F', n)
    ensures ship.0 == South ==> Step(ship, 'S', n) == Step(ship, 'F', n)
    ensures ship.0 == West ==> Step(ship, 'W', n) == Step(ship, 'F', n)
  {
    assert Sign(Forward) * n == n;
  }

  /** The source's test. */
  lemma Example()
    ensures SolvePartOne([('F', 10), ('N', 3), ('F', 7), ('R', 90), ('F', 11)]) == (17, -8)
  {
  }
}
