/** Toboggan trajectory (src/day_three.rs): one line of the map per step, moving three
    columns right (wrapping at the board width) and counting the lines whose character
    under the toboggan is not `.`. */
module DayThree {
  import opened Common

  datatype Position = Position(horizontal: nat, count: nat)

  /** Whether `line` holds a non-`.` character at column `h`. */
  predicate TreeAt(line: string, h: nat)
  {
    h < |line| && line[h] != '.'
  }

  /** `calculate_collisions`: the fold over the lines, starting at column 0 with no
      collisions. */
  function CalculateCollisions(boardSize: nat, lines: seq<string>): (p: Position)
    requires boardSize > 0
    ensures p.horizontal < boardSize
    ensures p.count <= |lines|
  {
    if lines == [] then Position(0, 0)
    else
      var prev := CalculateCollisions(boardSize, lines[..|lines| - 1]);
      Position((prev.horizontal + 3) % boardSize,
               prev.count + if TreeAt(lines[|lines| - 1], prev.horizontal) then 1 else 0)
  }

  /** Column of the toboggan on line `i`. */
  function Column(boardSize: nat, i: nat): nat
    requires boardSize > 0
  {
    (3 * i) % boardSize
  }

  /** Number of lines `i` among the first `n` with a tree at column 3i mod width. */
  function TreesOnPath(boardSize: nat, lines: seq<string>, n: nat): nat
    requires boardSize > 0 && n <= |lines|
  {
    if n == 0 then 0
    else TreesOnPath(boardSize, lines, n - 1) + if TreeAt(lines[n - 1], Column(boardSize, n - 1)) then 1 else 0
  }

  /** After n lines the toboggan is in column 3n mod width, and the count is exactly the
      number of lines with a tree under the toboggan. */
  lemma {:induction false} CollisionsCountTrees(boardSize: nat, lines: seq<string>)
    requires boardSize > 0
    ensures CalculateCollisions(boardSize, lines).horizontal == Column(boardSize, |lines|)
    ensures CalculateCollisions(boardSize, lines).count == TreesOnPath(boardSize, lines, |lines|)
  {
    if lines != [] {
      var init := lines[..|lines| - 1];
      CollisionsCountTrees(boardSize, init);
      TreesOnPathPrefix(boardSize, init, lines, |init|);
      ModAdd(3 * |init|, 3, boardSize);
    }
  }

  lemma {:induction false} TreesOnPathPrefix(b: nat, short: seq<string>, long: seq<string>, n: nat)
    requires b > 0 && n <= |short| <= |long| && short == long[..|short|]
    ensures TreesOnPath(b, short, n) == TreesOnPath(b, long, n)
  {
    if n > 0 {
      TreesOnPathPrefix(b, short, long, n - 1);
    }
  }

  /** The example map of the source's test, of width 11. */
  const Sample: seq<string> := [
    "..##.......", "#...#...#..", ".#....#..#.", "..#.#...#.#", ".#...##..#.", "..#.##.....",
    ".#.#.#....#", ".#........#", "#.##...#...", "#...##....#", ".#..#...#.#"]

  lemma SampleTreesFirstHalf()
    ensures TreesOnPath(11, Sample, 6) == 3
  {
    assert TreesOnPath(11, Sample, 1) == 0;
    assert TreesOnPath(11, Sample, 2) == 0;
    assert TreesOnPath(11, Sample, 3) == 1;
    assert TreesOnPath(11, Sample, 4) == 1;
    assert TreesOnPath(11, Sample, 5) == 2;
  }

  lemma SampleTrees()
    ensures TreesOnPath(11, Sample, 11) == 7
  {
    SampleTreesFirstHalf();
    assert TreesOnPath(11, Sample, 7) == 3;
    assert TreesOnPath(11, Sample, 8) == 4;
    assert TreesOnPath(11, Sample, 9) == 5;
    assert TreesOnPath(11, Sample, 10) == 6;
    assert TreesOnPath(11, Sample, 11) == 7;
  }

  /** The source's test: seven collisions on the example map. */
  lemma SampleCollisions()
    ensures CalculateCollisions(11, Sample).count == 7
  {
    CollisionsCountTrees(11, Sample);
    SampleTrees();
  }
}
