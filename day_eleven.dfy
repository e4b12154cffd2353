/** Seating system (src/day_eleven.rs): a grid of seats stored row by row in one flat
    sequence of width `w`; a round decides every seat from its eight neighbours (the
    adjacent cells, or in part two the first seat seen in each direction) and then writes
    all the changes. */
module DayEleven {
  import opened Common

  datatype Seat = TAKEN | EMPTY | FLOOR

  /** `safe_get`: the seat at `index`, or None when the index is negative or past the end. */
  function SafeGet(seats: seq<Seat>, index: int): (r: Option<Seat>)
    ensures r.Some? <==> 0 <= index < |seats|
    ensures r.Some? ==> r.value == seats[index]
  {
    if index < 0 || index >= |seats| then None else Some(seats[index])
  }

  /** `on_left`: the index is in the first column. Indices are never negative here, where
      Rust's truncating `%` agrees with Dafny's. */
  predicate OnLeft(i: nat, w: nat)
    requires w > 0
  {
    i % w == 0
  }

  /** `on_right`: the index is in the last column. */
  predicate OnRight(i: nat, w: nat)
    requires w > 0
  {
    (i + 1) % w == 0
  }

  /** The eight directions in the order of the neighbour arrays. */
  datatype Dir = TopLeft | Top | TopRight | Left | Right | BottomLeft | Bottom | BottomRight

  const DIRS: seq<Dir> := [TopLeft, Top, TopRight, Left, Right, BottomLeft, Bottom, BottomRight]

  /** The row step of a direction. */
  function Dr(d: Dir): (r: int)
    ensures -1 <= r <= 1
  {
    match d
    case TopLeft => -1 case Top => -1 case TopRight => -1
    case Left => 0 case Right => 0
    case BottomLeft => 1 case Bottom => 1 case BottomRight => 1
  }

  /** The column step of a direction. */
  function Dc(d: Dir): (c: int)
    ensures -1 <= c <= 1
  {
    match d
    case TopLeft => -1 case Left => -1 case BottomLeft => -1
    case Top => 0 case Bottom => 0
    case TopRight => 1 case Right => 1 case BottomRight => 1
  }

  /** The direction closures of `get_non_floor_adjacent_seats` (and the index arithmetic of
      `get_adjacent_seats`): a move to the left is refused in the first column, a move to
      the right in the last one. */
  function Move(d: Dir, i: nat, w: nat): Option<int>
    requires w > 0
  {
    match d
    case TopLeft => if OnLeft(i, w) then None else Some(i - w - 1)
    case Top => Some(i - w)
    case TopRight => if OnRight(i, w) then None else Some(i - w + 1)
    case Left => if OnLeft(i, w) then None else Some(i - 1)
    case Right => if OnRight(i, w) then None else Some(i + 1)
    case BottomLeft => if OnLeft(i, w) then None else Some(i + w - 1)
    case Bottom => Some(i + w)
    case BottomRight => if OnRight(i, w) then None else Some(i + w + 1)
  }

  function Row(i: int, w: nat): int requires w > 0 { i / w }

  function Col(i: int, w: nat): int requires w > 0 { i % w }

  function Cell(r: int, c: int, w: nat): int { r * w + c }

  /** Row `r`, column `c` is a cell of a grid of `n` seats in rows of `w`. */
  predicate InGrid(r: int, c: int, w: nat, n: nat)
  {
    0 <= c < w && 0 <= r && Cell(r, c, w) < n
  }

  lemma OnRightIsLastColumn(i: nat, w: nat)
    requires w > 0
    ensures OnRight(i, w) <==> i % w == w - 1
  {
    var r, c := i / w, i % w;
    if c == w - 1 {
      assert i + 1 == (r + 1) * w + 0;
      DivModUnique(i + 1, w, r + 1, 0);
    } else {
      assert i + 1 == r * w + (c + 1);
      DivModUnique(i + 1, w, r, c + 1);
    }
  }

  /** A move goes one row by `Dr` and one column by `Dc`; it is refused exactly when it
      would cross the left or right edge. */
  lemma MoveGeometry(d: Dir, i: nat, w: nat)
    requires w > 0
    ensures Move(d, i, w).None? <==> (Dc(d) == -1 && Col(i, w) == 0) || (Dc(d) == 1 && Col(i, w) == w - 1)
    ensures Move(d, i, w).Some? ==>
              Move(d, i, w).value == Cell(Row(i, w) + Dr(d), Col(i, w) + Dc(d), w) && 0 <= Col(i, w) + Dc(d) < w
  {
    OnRightIsLastColumn(i, w);
    var r, c := i / w, i % w;
    assert i == r * w + c;
    assert Cell(r + Dr(d), c + Dc(d), w) == i + Dr(d) * w + Dc(d);
  }

  /** A permitted move changes the index by `Dr * w + Dc`, which is never 0. */
  lemma MoveDelta(d: Dir, i: nat, w: nat)
    requires w > 0 && Move(d, i, w).Some?
    ensures Move(d, i, w).value == i + Delta(d, w) && Delta(d, w) != 0
  {
    MoveGeometry(d, i, w);
    if w == 1 {
      assert Col(i, w) == 0;
    }
  }

  function Delta(d: Dir, w: nat): int
  {
    Dr(d) * w + Dc(d)
  }

  /** `get_adjacent_seats`: the neighbour positions TL, T, TR, L, R, BL, B, BR, None where
      the move is refused or the index falls outside the seats. */
  function GetAdjacentSeats(index: nat, w: nat, n: nat): (r: seq<Option<nat>>)
    requires w > 0
    ensures |r| == 8
  {
    seq(8, k requires 0 <= k < 8 => Adjacent(DIRS[k], index, w, n))
  }

  function Adjacent(d: Dir, index: nat, w: nat, n: nat): Option<nat>
    requires w > 0
  {
    match Move(d, index, w)
    case None => None
    case Some(j) => if 0 <= j < n then Some(j) else None
  }

  /** Every adjacent slot holds the cell one step away in its direction, and is None
      exactly when that cell is not in the grid. */
  lemma AdjacentGeometry(d: Dir, index: nat, w: nat, n: nat)
    requires w > 0
    ensures var r, c := Row(index, w) + Dr(d), Col(index, w) + Dc(d);
            (Adjacent(d, index, w, n).None? <==> !InGrid(r, c, w, n))
            && (Adjacent(d, index, w, n).Some? ==> Adjacent(d, index, w, n).value == Cell(r, c, w))
  {
    MoveGeometry(d, index, w);
    var r, c := Row(index, w) + Dr(d), Col(index, w) + Dc(d);
    if Move(d, index, w).Some? && r < 0 {
      CellBelowZero(r, c, w);
    }
  }

  lemma CellBelowZero(r: int, c: int, w: nat)
    requires r < 0 && 0 <= c < w
    ensures Cell(r, c, w) < 0
  {
    assert r * w <= -(w as int);
  }

  /** The index ray of `find_non_floor_seat` from `i`: the first seat that is not floor,
      None once a move is refused or it leaves the seats. */
  function FindSeat(seats: seq<Seat>, w: nat, d: Dir, i: nat): Option<nat>
    requires w > 0 && i < |seats|
    decreases if Delta(d, w) < 0 then i else |seats| - i
  {
    match Move(d, i, w)
    case None => None
    case Some(j) =>
      if j < 0 || j >= |seats| then None
      else if seats[j] != FLOOR then Some(j)
      else
        MoveDelta(d, i, w);
        FindSeat(seats, w, d, j)
  }

  /** `k` steps in a direction with a step of -1, 0 or 1. */
  function Scale(k: int, x: int): int
  {
    if x == 1 then k else if x == -1 then -k else 0
  }

  /** The cell `m` steps from row `r`, column `c` in direction `d` is in the grid and floor. */
  predicate FloorAt(seats: seq<Seat>, w: nat, d: Dir, r: int, c: int, m: int)
  {
    var r', c' := r + Scale(m, Dr(d)), c + Scale(m, Dc(d));
    InGrid(r', c', w, |seats|) && seats[Cell(r', c', w)] == FLOOR
  }

  /** Moving the origin one step along the ray: the `m`-th cell from the next cell is the
      `m + 1`-th from the first. */
  lemma FloorAtShift(seats: seq<Seat>, w: nat, d: Dir, r: int, c: int, m: int)
    ensures FloorAt(seats, w, d, r + Dr(d), c + Dc(d), m) == FloorAt(seats, w, d, r, c, m + 1)
  {
    ScaleStep(m + 1, Dr(d));
    ScaleStep(m + 1, Dc(d));
  }

  /** The search goes on from `i`: the next cell is a floor cell of the seats. */
  predicate Continues(seats: seq<Seat>, w: nat, d: Dir, i: nat)
    requires w > 0
  {
    Move(d, i, w).Some? && 0 <= Move(d, i, w).value < |seats| && seats[Move(d, i, w).value] == FLOOR
  }

  /** The cells 1 .. k - 1 of the ray from row r, column c are floor cells of the grid. */
  predicate ClearBefore(seats: seq<Seat>, w: nat, d: Dir, r: int, c: int, k: nat)
  {
    forall m | 1 <= m < k :: FloorAt(seats, w, d, r, c, m)
  }

  /** `res` is the answer at cell k of the ray from row r, column c: None when that cell is
      off the grid, else its position, which holds a seat. */
  predicate AnswerAt(seats: seq<Seat>, w: nat, d: Dir, r: int, c: int, k: nat, res: Option<nat>)
  {
    var r', c' := r + Scale(k, Dr(d)), c + Scale(k, Dc(d));
    (res.None? <==> !InGrid(r', c', w, |seats|))
    && (res.Some? ==> res.value == Cell(r', c', w) && seats[Cell(r', c', w)] != FLOOR)
  }

  /** Moving the origin of a ray one step forward. */
  lemma RayShift(seats: seq<Seat>, w: nat, d: Dir, r: int, c: int, k: nat, res: Option<nat>)
    requires FloorAt(seats, w, d, r, c, 1)
    requires ClearBefore(seats, w, d, r + Dr(d), c + Dc(d), k)
    requires AnswerAt(seats, w, d, r + Dr(d), c + Dc(d), k, res)
    ensures ClearBefore(seats, w, d, r, c, k + 1)
    ensures AnswerAt(seats, w, d, r, c, k + 1, res)
  {
    forall m | 1 <= m < k + 1 ensures FloorAt(seats, w, d, r, c, m) {
      if m > 1 {
        FloorAtShift(seats, w, d, r, c, m - 1);
      }
    }
    ScaleStep(k + 1, Dr(d));
    ScaleStep(k + 1, Dc(d));
  }

  /** One step along a ray that goes on: the next cell is one row and column further, is
      floor, and the search from it gives the same answer. */
  lemma RayStep(seats: seq<Seat>, w: nat, d: Dir, i: nat) returns (j: nat)
    requires w > 0 && i < |seats| && Continues(seats, w, d, i)
    ensures j == Move(d, i, w).value && j < |seats|
    ensures Row(j, w) == Row(i, w) + Dr(d) && Col(j, w) == Col(i, w) + Dc(d)
    ensures FloorAt(seats, w, d, Row(i, w), Col(i, w), 1)
    ensures FindSeat(seats, w, d, i) == FindSeat(seats, w, d, j)
  {
    var r, c := Row(i, w) + Dr(d), Col(i, w) + Dc(d);
    assert Move(d, i, w).value == Cell(r, c, w) && 0 <= c < w by {
      MoveGeometry(d, i, w);
    }
    j := Move(d, i, w).value;
    assert Row(j, w) == r && Col(j, w) == c by {
      DivModUnique(j, w, r, c);
    }
    assert r >= 0 by {
      if r < 0 {
        CellBelowZero(r, c, w);
      }
    }
    assert Scale(1, Dr(d)) == Dr(d) && Scale(1, Dc(d)) == Dc(d);
  }

  /** A ray that stops at its first cell: None when that cell is off the grid, else the
      seat there, which is not floor. */
  lemma RayStop(seats: seq<Seat>, w: nat, d: Dir, i: nat)
    requires w > 0 && i < |seats| && !Continues(seats, w, d, i)
    ensures AnswerAt(seats, w, d, Row(i, w), Col(i, w), 1, FindSeat(seats, w, d, i))
  {
    AdjacentGeometry(d, i, w, |seats|);
    MoveGeometry(d, i, w);
    assert Scale(1, Dr(d)) == Dr(d) && Scale(1, Dc(d)) == Dc(d);
  }

  /** The ray seen geometrically: from the seat at row r, column c, the cells
      (r + m * Dr, c + m * Dc) for m = 1, 2, ...; the search answers at the first `k` whose
      cell is off the grid (None) or is not floor (that seat). */
  lemma {:induction false} RayFirst(seats: seq<Seat>, w: nat, d: Dir, i: nat) returns (k: nat)
    requires w > 0 && i < |seats|
    ensures k >= 1
    ensures ClearBefore(seats, w, d, Row(i, w), Col(i, w), k)
    ensures AnswerAt(seats, w, d, Row(i, w), Col(i, w), k, FindSeat(seats, w, d, i))
    decreases if Delta(d, w) < 0 then i else |seats| - i
  {
    if !Continues(seats, w, d, i) {
      RayStop(seats, w, d, i);
      k := 1;
    } else {
      var j := RayStep(seats, w, d, i);
      MoveDelta(d, i, w);
      var k' := RayFirst(seats, w, d, j);
      RayShift(seats, w, d, Row(i, w), Col(i, w), k', FindSeat(seats, w, d, i));
      k := k' + 1;
    }
  }

  lemma ScaleStep(m: int, x: int)
    requires -1 <= x <= 1
    ensures Scale(m, x) == x + Scale(m - 1, x)
  {
  }

  /** `find_non_floor_seat` as the source writes it. */
  method FindNonFloorSeat(start: nat, seats: seq<Seat>, w: nat, d: Dir) returns (r: Option<nat>)
    requires w > 0 && start < |seats|
    ensures r == FindSeat(seats, w, d, start)
  {
    var index: nat := start;
    while true
      invariant index < |seats| && FindSeat(seats, w, d, index) == FindSeat(seats, w, d, start)
      decreases if Delta(d, w) < 0 then index else |seats| - index
    {
      var location := Move(d, index, w);
      if location.None? {
        return None;
      }
      var seat := SafeGet(seats, location.value);
      if seat.None? || seat.value != FLOOR {
        return if seat.None? then None else Some(location.value);
      }
      MoveDelta(d, index, w);
      index := location.value;
    }
  }

  /** `get_non_floor_adjacent_seats`: the first seat seen in each of the eight directions. */
  function NonFloorAdjacentSeats(index: nat, w: nat, seats: seq<Seat>): (r: seq<Option<nat>>)
    requires w > 0 && index < |seats|
    ensures |r| == 8
  {
    seq(8, k requires 0 <= k < 8 => FindSeat(seats, w, DIRS[k], index))
  }

  method GetNonFloorAdjacentSeats(index: nat, w: nat, seats: seq<Seat>) returns (r: seq<Option<nat>>)
    requires w > 0 && index < |seats|
    ensures r == NonFloorAdjacentSeats(index, w, seats)
  {
    r := [];
    var k := 0;
    while k < 8
      invariant k <= 8 && |r| == k
      invariant forall m | 0 <= m < k :: r[m] == FindSeat(seats, w, DIRS[m], index)
    {
      var slot := FindNonFloorSeat(index, seats, w, DIRS[k]);
      r := r + [slot];
      k := k + 1;
    }
  }

  /** The seats at the neighbour positions. */
  function Lookup(seats: seq<Seat>, slots: seq<Option<nat>>): (r: seq<Option<Seat>>)
    ensures |r| == |slots|
  {
    seq(|slots|, k requires 0 <= k < |slots| =>
      match slots[k] case None => None case Some(p) => SafeGet(seats, p))
  }

  /** `number_taken`: the neighbours that are taken seats. */
  function NumberTaken(slots: seq<Option<Seat>>): (n: nat)
    ensures n <= |slots|
  {
    if slots == [] then 0
    else NumberTaken(slots[..|slots| - 1]) + if slots[|slots| - 1] == Some(TAKEN) then 1 else 0
  }

  /** `is_any_taken`: some neighbour is a taken seat. */
  predicate IsAnyTaken(slots: seq<Option<Seat>>)
  {
    exists k | 0 <= k < |slots| :: slots[k] == Some(TAKEN)
  }

  /** Some neighbour is taken exactly when the number taken is positive. */
  lemma {:induction false} AnyTakenIffCount(slots: seq<Option<Seat>>)
    ensures IsAnyTaken(slots) <==> NumberTaken(slots) > 0
  {
    if slots != [] {
      var init := slots[..|slots| - 1];
      AnyTakenIffCount(init);
      assert forall k | 0 <= k < |init| :: init[k] == slots[k];
      if IsAnyTaken(slots) && slots[|slots| - 1] != Some(TAKEN) {
        var k :| 0 <= k < |slots| && slots[k] == Some(TAKEN);
        assert init[k] == Some(TAKEN);
      }
    }
  }

  /** Which neighbourhood a round uses: the adjacent cells (part one) or the first seat
      seen in each direction (part two). */
  datatype Neighbourhood = Adjacent8 | Visible

  function Neighbours(kind: Neighbourhood, seats: seq<Seat>, w: nat, i: nat): seq<Option<Seat>>
    requires w > 0 && i < |seats|
  {
    match kind
    case Adjacent8 => Lookup(seats, GetAdjacentSeats(i, w, |seats|))
    case Visible => Lookup(seats, NonFloorAdjacentSeats(i, w, seats))
  }

  /** The seat after a round: an empty seat with no taken neighbour is taken, a taken seat
      with more than `threshold` taken neighbours is emptied. */
  function NewSeat(kind: Neighbourhood, threshold: nat, seats: seq<Seat>, w: nat, i: nat): Seat
    requires w > 0 && i < |seats|
  {
    var around := Neighbours(kind, seats, w, i);
    if seats[i] == EMPTY && !IsAnyTaken(around) then TAKEN
    else if seats[i] == TAKEN && NumberTaken(around) > threshold then EMPTY
    else seats[i]
  }

  /** The grid after a round: every seat decided on the grid before it. */
  function Revised(kind: Neighbourhood, threshold: nat, seats: seq<Seat>, w: nat): (r: seq<Seat>)
    requires w > 0
    ensures |r| == |seats|
  {
    seq(|seats|, i requires 0 <= i < |seats| => NewSeat(kind, threshold, seats, w, i))
  }

  /** A round never touches floor, fills an empty seat exactly when no neighbour is taken
      and empties a taken seat exactly when more than `threshold` neighbours are taken. */
  lemma RevisedCells(kind: Neighbourhood, threshold: nat, seats: seq<Seat>, w: nat, i: nat)
    requires w > 0 && i < |seats|
    ensures seats[i] == FLOOR ==> Revised(kind, threshold, seats, w)[i] == FLOOR
    ensures seats[i] == EMPTY ==>
              (Revised(kind, threshold, seats, w)[i] == TAKEN <==> NumberTaken(Neighbours(kind, seats, w, i)) == 0)
    ensures seats[i] == TAKEN ==>
              (Revised(kind, threshold, seats, w)[i] == EMPTY <==> NumberTaken(Neighbours(kind, seats, w, i)) > threshold)
    ensures Revised(kind, threshold, seats, w)[i] != FLOOR <==> seats[i] != FLOOR
  {
    AnyTakenIffCount(Neighbours(kind, seats, w, i));
  }

  /** The changes recorded for the first `n` seats of a round taking `before` to `after`:
      the positions whose seat differs, in increasing order, each with its new seat. */
  function Changes(before: seq<Seat>, after: seq<Seat>, n: nat): (r: seq<(nat, Seat)>)
    requires n <= |before| == |after|
    ensures forall e | 0 <= e < |r| :: r[e].0 < n && r[e].1 == after[r[e].0] != before[r[e].0]
  {
    if n == 0 then []
    else
      var rest := Changes(before, after, n - 1);
      if after[n - 1] != before[n - 1] then rest + [(n - 1, after[n - 1])] else rest
  }

  predicate Recorded(changes: seq<(nat, Seat)>, k: nat, p: nat)
    requires k <= |changes|
  {
    exists e | 0 <= e < k :: changes[e].0 == p
  }

  /** A position is recorded exactly when its seat changes. */
  lemma {:induction false} ChangesRecorded(before: seq<Seat>, after: seq<Seat>, n: nat, p: nat)
    requires n <= |before| == |after|
    ensures var r := Changes(before, after, n);
            Recorded(r, |r|, p) <==> p < n && after[p] != before[p]
  {
    if n > 0 {
      ChangesRecorded(before, after, n - 1, p);
      var rest := Changes(before, after, n - 1);
      var r := Changes(before, after, n);
      assert forall e | 0 <= e < |rest| :: r[e] == rest[e];
      if p == n - 1 && after[p] != before[p] {
        assert r[|r| - 1].0 == p;
      }
    }
  }

  lemma ChangesStep(kind: Neighbourhood, threshold: nat, seats: seq<Seat>, w: nat, index: nat, around: seq<Option<Seat>>)
    requires w > 0 && index < |seats| && around == Neighbours(kind, seats, w, index)
    ensures var after := Revised(kind, threshold, seats, w);
            Changes(seats, after, index + 1) ==
              if seats[index] == EMPTY && !IsAnyTaken(around) then Changes(seats, after, index) + [(index, TAKEN)]
              else if seats[index] == TAKEN && NumberTaken(around) > threshold then Changes(seats, after, index) + [(index, EMPTY)]
              else Changes(seats, after, index)
  {
    assert Revised(kind, threshold, seats, w)[index] == NewSeat(kind, threshold, seats, w, index);
  }

  /** The first loop of `revise_seats`: every seat is decided on the unchanged grid and
      the differing ones are recorded. */
  method CollectChanges(kind: Neighbourhood, threshold: nat, w: nat, seats: seq<Seat>) returns (changes: seq<(nat, Seat)>)
    requires w > 0
    ensures changes == Changes(seats, Revised(kind, threshold, seats, w), |seats|)
  {
    changes := [];
    var index: nat := 0;
    while index < |seats|
      invariant index <= |seats|
      invariant changes == Changes(seats, Revised(kind, threshold, seats, w), index)
    {
      changes := DecideSeat(kind, threshold, w, seats, index, changes);
      index := index + 1;
    }
  }

  /** The body of that loop for one seat. */
  method DecideSeat(kind: Neighbourhood, threshold: nat, w: nat, seats: seq<Seat>, index: nat, changes: seq<(nat, Seat)>)
    returns (changes': seq<(nat, Seat)>)
    requires w > 0 && index < |seats| && changes == Changes(seats, Revised(kind, threshold, seats, w), index)
    ensures changes' == Changes(seats, Revised(kind, threshold, seats, w), index + 1)
  {
    var around: seq<Option<Seat>>;
    if kind == Adjacent8 {
      around := Lookup(seats, GetAdjacentSeats(index, w, |seats|));
    } else {
      var slots := GetNonFloorAdjacentSeats(index, w, seats);
      around := Lookup(seats, slots);
    }
    ChangesStep(kind, threshold, seats, w, index, around);
    changes' := changes;
    if seats[index] == EMPTY && !IsAnyTaken(around) {
      changes' := changes + [(index, TAKEN)];
    } else if seats[index] == TAKEN && NumberTaken(around) > threshold {
      changes' := changes + [(index, EMPTY)];
    }
  }

  /** The second loop of `revise_seats`: writes every recorded change. */
  method ApplyChanges(seats: array<Seat>, changes: seq<(nat, Seat)>)
    requires forall e | 0 <= e < |changes| :: changes[e].0 < seats.Length
    modifies seats
    ensures forall p | 0 <= p < seats.Length ::
              seats[p] == if Recorded(changes, |changes|, p) then LastChange(changes, p) else old(seats[p])
  {
    var k := 0;
    while k < |changes|
      invariant k <= |changes|
      invariant forall p | 0 <= p < seats.Length ::
                  seats[p] == if Recorded(changes, k, p) then LastChange(changes[..k], p) else old(seats[p])
    {
      var (position, change) := changes[k];
      seats[position] := change;
      forall p | 0 <= p < seats.Length
        ensures Recorded(changes, k + 1, p) == (Recorded(changes, k, p) || p == position)
      {
        if Recorded(changes, k + 1, p) && !Recorded(changes, k, p) {
          var e :| 0 <= e < k + 1 && changes[e].0 == p;
          assert e == k;
        }
        if p == position {
          assert changes[k].0 == p;
        }
      }
      assert changes[..k + 1] == changes[..k] + [changes[k]];
      k := k + 1;
    }
    assert changes[..k] == changes;
  }

  /** The seat written last for position `p`. */
  function LastChange(changes: seq<(nat, Seat)>, p: nat): Seat
  {
    if changes == [] then EMPTY
    else if changes[|changes| - 1].0 == p then changes[|changes| - 1].1
    else LastChange(changes[..|changes| - 1], p)
  }

  /** `revise_seats` (part one: adjacent cells, more than 3) and `revise_seats_part_2`
      (part two: visible seats, more than 4): the changes are collected on the grid before
      the round and written afterwards; the result says whether any seat changed. */
  method ReviseWith(kind: Neighbourhood, threshold: nat, w: nat, seats: array<Seat>) returns (changed: bool)
    requires w > 0
    modifies seats
    ensures seats[..] == Revised(kind, threshold, old(seats[..]), w)
    ensures changed <==> seats[..] != old(seats[..])
  {
    ghost var before := seats[..];
    var changes := CollectChanges(kind, threshold, w, seats[..]);
    changed := changes != [];
    ApplyChanges(seats, changes);
    ghost var after := Revised(kind, threshold, before, w);
    forall p | 0 <= p < seats.Length ensures seats[p] == after[p] {
      ChangesRecorded(before, after, |before|, p);
      if Recorded(changes, |changes|, p) {
        var e :| 0 <= e < |changes| && changes[e].0 == p;
        LastChangeOf(changes, e);
      }
    }
    assert seats[..] == after;
    if changed {
      var e := changes[0];
      assert seats[e.0] != before[e.0];
    } else {
      forall p | 0 <= p < |before| ensures after[p] == before[p] {
        ChangesRecorded(before, after, |before|, p);
      }
    }
  }

  /** Any recorded entry for `p` agrees with the last one when all entries for `p` agree. */
  lemma {:induction false} LastChangeOf(changes: seq<(nat, Seat)>, e: nat)
    requires e < |changes|
    requires forall f | 0 <= f < |changes| && changes[f].0 == changes[e].0 :: changes[f].1 == changes[e].1
    ensures LastChange(changes, changes[e].0) == changes[e].1
  {
    var last := |changes| - 1;
    if changes[last].0 != changes[e].0 {
      var init := changes[..last];
      assert init[e] == changes[e];
      assert forall f | 0 <= f < |init| :: init[f] == changes[f];
      LastChangeOf(init, e);
    }
  }

  method ReviseSeats(w: nat, seats: array<Seat>) returns (changed: bool)
    requires w > 0
    modifies seats
    ensures seats[..] == Revised(Adjacent8, 3, old(seats[..]), w)
    ensures changed <==> seats[..] != old(seats[..])
  {
    changed := ReviseWith(Adjacent8, 3, w, seats);
  }

  method ReviseSeatsPartTwo(w: nat, seats: array<Seat>) returns (changed: bool)
    requires w > 0
    modifies seats
    ensures seats[..] == Revised(Visible, 4, old(seats[..]), w)
    ensures changed <==> seats[..] != old(seats[..])
  {
    changed := ReviseWith(Visible, 4, w, seats);
  }

  /** The source's tests on a 4 x 4 grid. */
  lemma AdjacentExamples()
    ensures GetAdjacentSeats(9, 4, 16) == [Some(4), Some(5), Some(6), Some(8), Some(10), Some(12), Some(13), Some(14)]
    ensures GetAdjacentSeats(4, 4, 16) == [None, Some(0), Some(1), None, Some(5), None, Some(8), Some(9)]
    ensures GetAdjacentSeats(7, 4, 16) == [Some(2), Some(3), None, Some(6), None, Some(10), Some(11), None]
  {
  }

  lemma VisibleExample(seats: seq<Seat>)
    requires seats == [TAKEN, EMPTY, TAKEN, EMPTY, TAKEN, FLOOR, TAKEN, FLOOR,
                       TAKEN, EMPTY, TAKEN, EMPTY, EMPTY, EMPTY, FLOOR, EMPTY]
    ensures NonFloorAdjacentSeats(9, 4, seats)
            == [Some(4), Some(1), Some(6), Some(8), Some(10), Some(12), Some(13), None]
  {
    assert FindSeat(seats, 4, Top, 5) == Some(1);
    assert FindSeat(seats, 4, BottomRight, 14) == None;
    var r := NonFloorAdjacentSeats(9, 4, seats);
    assert r[0] == Some(4) && r[1] == Some(1) && r[2] == Some(6) && r[3] == Some(8);
    assert r[4] == Some(10) && r[5] == Some(12) && r[6] == Some(13) && r[7] == None;
  }
}
