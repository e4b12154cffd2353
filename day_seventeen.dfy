/** Conway cubes (src/day_seventeen.rs): a sparse three-dimensional board of active cells and
    one step of the rule, decided on the board before the step and then applied. Coordinates
    are `isize` triples. */
module DaySeventeen {

  datatype Block = Active | Inactive

  type Coord = (int, int, int)

  /* ---------------- neighbours ---------------- */

  /** The offsets `neighbours` lists, in its order: the layer above, the same layer without the
      cell itself, then the layer below. */
  const OFFSETS: seq<Coord> := [
    (-1, 1, 1), (0, 1, 1), (1, 1, 1), (-1, 0, 1), (0, 0, 1), (1, 0, 1),
    (-1, -1, 1), (0, -1, 1), (1, -1, 1),
    (-1, 1, 0), (0, 1, 0), (1, 1, 0), (-1, 0, 0), (1, 0, 0),
    (-1, -1, 0), (0, -1, 0), (1, -1, 0),
    (-1, 1, -1), (0, 1, -1), (1, 1, -1), (-1, 0, -1), (0, 0, -1), (1, 0, -1),
    (-1, -1, -1), (0, -1, -1), (1, -1, -1)
  ]

  function Shift(c: Coord, o: Coord): Coord
  {
    (c.0 + o.0, c.1 + o.1, c.2 + o.2)
  }

  /** Each axis in -1..1. */
  predicate InCube(o: Coord)
  {
    -1 <= o.0 <= 1 && -1 <= o.1 <= 1 && -1 <= o.2 <= 1
  }

  /** The position, 0..26, of an offset of the cube in the source's order (13 is the cell
      itself). */
  function Code(o: Coord): int
  {
    (1 - o.2) * 9 + (1 - o.1) * 3 + (o.0 + 1)
  }

  lemma OffsetCode(k: nat)
    requires k < 26
    ensures InCube(OFFSETS[k]) && Code(OFFSETS[k]) == if k < 13 then k else k + 1
  {
  }

  /** Within the cube, the position determines the offset. */
  lemma CodeInjective(o: Coord, p: Coord)
    requires InCube(o) && InCube(p) && Code(o) == Code(p)
    ensures o == p
  {
  }

  /** The coordinates of `neighbours`, in order. */
  function NeighbourCoords(c: Coord): (r: seq<Coord>)
    ensures |r| == 26
  {
    seq(26, k requires 0 <= k < 26 => Shift(c, OFFSETS[k]))
  }

  /** The 26 neighbours are distinct. */
  lemma NeighboursDistinct(c: Coord, i: nat, j: nat)
    requires i < j < 26
    ensures NeighbourCoords(c)[i] != NeighbourCoords(c)[j]
  {
    OffsetCode(i);
    OffsetCode(j);
  }

  /** A neighbour differs from the cell and by at most 1 on each axis. */
  lemma NeighbourClose(c: Coord, k: nat)
    requires k < 26
    ensures var d := NeighbourCoords(c)[k];
            d != c && -1 <= d.0 - c.0 <= 1 && -1 <= d.1 - c.1 <= 1 && -1 <= d.2 - c.2 <= 1
  {
    OffsetCode(k);
  }

  /** Every such cell is a neighbour: the list misses none of the cube. */
  lemma NeighbourCovers(c: Coord, d: Coord) returns (k: nat)
    requires d != c && -1 <= d.0 - c.0 <= 1 && -1 <= d.1 - c.1 <= 1 && -1 <= d.2 - c.2 <= 1
    ensures k < 26 && NeighbourCoords(c)[k] == d
  {
    var o := (d.0 - c.0, d.1 - c.1, d.2 - c.2);
    var code := Code(o);
    k := if code < 13 then code else code - 1;
    OffsetCode(k);
    CodeInjective(OFFSETS[k], o);
  }

  /** `d` is a neighbour of `c` exactly when it differs from `c` and by at most 1 on each
      axis. */
  lemma NeighbourMeaning(c: Coord, d: Coord)
    ensures d in NeighbourCoords(c) <==>
            d != c && -1 <= d.0 - c.0 <= 1 && -1 <= d.1 - c.1 <= 1 && -1 <= d.2 - c.2 <= 1
  {
    var ns := NeighbourCoords(c);
    if d in ns {
      var k :| 0 <= k < 26 && ns[k] == d;
      NeighbourClose(c, k);
    }
    if d != c && -1 <= d.0 - c.0 <= 1 && -1 <= d.1 - c.1 <= 1 && -1 <= d.2 - c.2 <= 1 {
      var k := NeighbourCovers(c, d);
    }
  }

  /** Being neighbours is symmetric. */
  lemma NeighbourSymmetric(c: Coord, d: Coord)
    requires d in NeighbourCoords(c)
    ensures c in NeighbourCoords(d)
  {
    NeighbourMeaning(c, d);
    NeighbourMeaning(d, c);
  }

  /* ---------------- the board's state ---------------- */

  /** `get_block` on the map: Inactive for an absent coordinate. */
  function BlockAt(blocks: map<Coord, Block>, c: Coord): Block
  {
    if c in blocks then blocks[c] else Inactive
  }

  /** The map holds only Active values. */
  predicate OnlyActive(blocks: map<Coord, Block>)
  {
    forall c | c in blocks :: blocks[c] == Active
  }

  /** The neighbours of `c` with their blocks, in order. */
  function NeighboursIn(blocks: map<Coord, Block>, c: Coord): (r: seq<(Coord, Block)>)
    ensures |r| == 26
  {
    seq(26, k requires 0 <= k < 26 => (NeighbourCoords(c)[k], BlockAt(blocks, NeighbourCoords(c)[k])))
  }

  /** The number of Active entries. */
  function CountActive(ns: seq<(Coord, Block)>): (n: nat)
    ensures n <= |ns|
  {
    if ns == [] then 0 else (if ns[0].1 == Active then 1 else 0) + CountActive(ns[1..])
  }

  /** The active neighbours of `c`. */
  function ActiveNeighbours(blocks: map<Coord, Block>, c: Coord): nat
  {
    CountActive(NeighboursIn(blocks, c))
  }

  /** When the count is positive some entry is Active. */
  lemma {:induction false} CountActivePositive(ns: seq<(Coord, Block)>) returns (k: nat)
    requires CountActive(ns) > 0
    ensures k < |ns| && ns[k].1 == Active
  {
    if ns[0].1 == Active {
      k := 0;
    } else {
      var j := CountActivePositive(ns[1..]);
      k := j + 1;
    }
  }

  /** A cell with an active neighbour count above zero has an active neighbour. */
  lemma ActiveNeighbourExists(blocks: map<Coord, Block>, c: Coord) returns (a: Coord)
    requires OnlyActive(blocks) && ActiveNeighbours(blocks, c) > 0
    ensures a in blocks && a in NeighbourCoords(c)
  {
    var k := CountActivePositive(NeighboursIn(blocks, c));
    a := NeighbourCoords(c)[k];
  }

  /** The rule: an active cell stays active with 2 or 3 active neighbours, an inactive one
      becomes active with exactly 3. */
  predicate NextActive(blocks: map<Coord, Block>, c: Coord)
  {
    if c in blocks then 2 <= ActiveNeighbours(blocks, c) <= 3 else ActiveNeighbours(blocks, c) == 3
  }

  /** `Board`: the map of active cells. */
  class Board {
    var blocks: map<Coord, Block>

    /** `Board::new`: no active cell. */
    constructor ()
      ensures blocks == map[] && OnlyActive(blocks)
    {
      blocks := map[];
    }

    /** `get_block`: Inactive for absent keys; on a board holding only Active values, Active
        exactly for the keys. */
    function GetBlock(c: Coord): (b: Block)
      reads this
      ensures c !in blocks ==> b == Inactive
      ensures OnlyActive(blocks) ==> (b == Active <==> c in blocks)
    {
      BlockAt(blocks, c)
    }

    /** `neighbours`: the 26 neighbouring coordinates with their blocks. */
    function Neighbours(c: Coord): (r: seq<(Coord, Block)>)
      reads this
      ensures |r| == 26
      ensures forall k | 0 <= k < 26 :: r[k].0 == NeighbourCoords(c)[k] && r[k].1 == GetBlock(r[k].0)
    {
      NeighboursIn(blocks, c)
    }

    /** `get_active_blocks`: the keys (their order plays no part). */
    function ActiveBlocks(): (r: set<Coord>)
      reads this
      ensures OnlyActive(blocks) ==> forall c | c in r :: GetBlock(c) == Active
    {
      blocks.Keys
    }

    /** `set_active`: the block becomes active, nothing else changes. */
    method SetActive(c: Coord)
      modifies this
      ensures blocks == old(blocks)[c := Active]
      ensures OnlyActive(old(blocks)) ==> OnlyActive(blocks)
    {
      blocks := blocks[c := Active];
    }

    /** `set_inactive`: the block is removed, nothing else changes. */
    method SetInactive(c: Coord)
      modifies this
      ensures blocks == old(blocks) - {c}
      ensures OnlyActive(old(blocks)) ==> OnlyActive(blocks)
    {
      blocks := blocks - {c};
    }
  }

  /* ---------------- the change list ---------------- */

  /** The changes the closure of `iterate_board` pushes for cells among `ns`: each inactive one
      with exactly three active neighbours becomes active. */
  function Births(blocks: map<Coord, Block>, ns: seq<(Coord, Block)>): seq<(Coord, Block)>
  {
    if ns == [] then []
    else
      (if ns[0].1 == Inactive && ActiveNeighbours(blocks, ns[0].0) == 3 then [(ns[0].0, Active)] else [])
      + Births(blocks, ns[1..])
  }

  /** The changes the closure pushes for the active cell `a`. */
  function BlockChanges(blocks: map<Coord, Block>, a: Coord): seq<(Coord, Block)>
  {
    var n := ActiveNeighbours(blocks, a);
    (if n < 2 || n > 3 then [(a, Inactive)] else []) + Births(blocks, NeighboursIn(blocks, a))
  }

  /** Every change is decided on `blocks` by the rule: a removal for an active cell that dies,
      an activation for an inactive cell with three active neighbours. */
  predicate Sound(blocks: map<Coord, Block>, changes: seq<(Coord, Block)>)
  {
    forall k | 0 <= k < |changes| ::
      if changes[k].1 == Active then changes[k].0 !in blocks && ActiveNeighbours(blocks, changes[k].0) == 3
      else changes[k].0 in blocks && !NextActive(blocks, changes[k].0)
  }

  lemma {:induction false} BirthsSound(blocks: map<Coord, Block>, ns: seq<(Coord, Block)>)
    requires OnlyActive(blocks)
    requires forall k | 0 <= k < |ns| :: ns[k].1 == BlockAt(blocks, ns[k].0)
    ensures Sound(blocks, Births(blocks, ns))
  {
    if ns != [] {
      BirthsSound(blocks, ns[1..]);
      var head := if ns[0].1 == Inactive && ActiveNeighbours(blocks, ns[0].0) == 3 then [(ns[0].0, Active)] else [];
      assert Sound(blocks, head);
      SoundConcat(blocks, head, Births(blocks, ns[1..]));
    }
  }

  /** Every inactive cell among `ns` with three active neighbours has its activation. */
  lemma {:induction false} BirthsComplete(blocks: map<Coord, Block>, ns: seq<(Coord, Block)>, k: nat)
    requires k < |ns| && ns[k].1 == Inactive && ActiveNeighbours(blocks, ns[k].0) == 3
    ensures (ns[k].0, Active) in Births(blocks, ns)
  {
    if k > 0 {
      BirthsComplete(blocks, ns[1..], k - 1);
    }
  }

  /** The changes pushed for one active cell follow the rule, and include the removal of the
      cell when it dies and the activation of every neighbour that comes alive. */
  lemma BlockChangesMeaning(blocks: map<Coord, Block>, a: Coord)
    requires OnlyActive(blocks) && a in blocks
    ensures Sound(blocks, BlockChanges(blocks, a))
    ensures !NextActive(blocks, a) ==> (a, Inactive) in BlockChanges(blocks, a)
    ensures forall d | d in NeighbourCoords(a) && d !in blocks && ActiveNeighbours(blocks, d) == 3 ::
              (d, Active) in BlockChanges(blocks, a)
  {
    var ns := NeighboursIn(blocks, a);
    BirthsSound(blocks, ns);
    var n := ActiveNeighbours(blocks, a);
    var head := if n < 2 || n > 3 then [(a, Inactive)] else [];
    assert Sound(blocks, head);
    SoundConcat(blocks, head, Births(blocks, ns));
    forall d | d in NeighbourCoords(a) && d !in blocks && ActiveNeighbours(blocks, d) == 3
      ensures (d, Active) in BlockChanges(blocks, a)
    {
      var k :| 0 <= k < 26 && NeighbourCoords(a)[k] == d;
      BirthsComplete(blocks, ns, k);
    }
  }

  lemma SoundConcat(blocks: map<Coord, Block>, a: seq<(Coord, Block)>, b: seq<(Coord, Block)>)
    requires Sound(blocks, a) && Sound(blocks, b)
    ensures Sound(blocks, a + b)
  {
    forall k | 0 <= k < |a + b|
      ensures (a + b)[k] == if k < |a| then a[k] else b[k - |a|]
    {
    }
  }

  /** Applying the changes in order: Active inserts, Inactive removes. */
  function Apply(blocks: map<Coord, Block>, changes: seq<(Coord, Block)>): map<Coord, Block>
    decreases |changes|
  {
    if changes == [] then blocks
    else
      var before := Apply(blocks, changes[..|changes| - 1]);
      var last := changes[|changes| - 1];
      if last.1 == Active then before[last.0 := Active] else before - {last.0}
  }

  /** Sound changes never disagree about a cell, so applying them activates exactly the cells
      with an activation and removes exactly the cells with a removal. */
  lemma {:induction false} ApplyMembers(blocks: map<Coord, Block>, changes: seq<(Coord, Block)>, c: Coord)
    requires Sound(blocks, changes)
    ensures c in Apply(blocks, changes) <==>
            (c, Active) in changes || (c in blocks && (c, Inactive) !in changes)
    ensures OnlyActive(blocks) ==> OnlyActive(Apply(blocks, changes))
    decreases |changes|
  {
    if changes != [] {
      var prefix := changes[..|changes| - 1];
      var last := changes[|changes| - 1];
      assert Sound(blocks, prefix) by {
        forall k | 0 <= k < |prefix|
          ensures prefix[k] == changes[k]
        {
        }
      }
      ApplyMembers(blocks, prefix, c);
      assert changes == prefix + [last];
      assert forall e :: e in changes <==> e in prefix || e == last;
      if (c, Active) in changes {
        var k :| 0 <= k < |changes| && changes[k] == (c, Active);
        assert c !in blocks;
      }
      if (c, Inactive) in changes {
        var k :| 0 <= k < |changes| && changes[k] == (c, Inactive);
        assert c in blocks;
      }
    }
  }

  /* ---------------- iterate_board ---------------- */

  /** `board.neighbours(c).iter().filter(Active).count()`. */
  method CountActiveNeighbours(board: Board, c: Coord) returns (active: nat)
    ensures active == ActiveNeighbours(board.blocks, c)
  {
    var neighbours := board.Neighbours(c);
    active := 0;
    var k := 0;
    while k < 26
      invariant k <= 26
      invariant active + CountActive(neighbours[k..]) == CountActive(neighbours)
    {
      assert neighbours[k..][1..] == neighbours[k + 1..];
      if neighbours[k].1 == Active {
        active := active + 1;
      }
      k := k + 1;
    }
    assert neighbours[26..] == [];
  }

  /** One step through the neighbours: the change for the `k`-th one, then the rest. */
  lemma BirthsUnfold(blocks: map<Coord, Block>, ns: seq<(Coord, Block)>, k: nat, found: seq<(Coord, Block)>)
    requires k < |ns|
    ensures var step := if ns[k].1 == Inactive && ActiveNeighbours(blocks, ns[k].0) == 3 then [(ns[k].0, Active)] else [];
            found + Births(blocks, ns[k..]) == (found + step) + Births(blocks, ns[k + 1..])
  {
    assert ns[k..][0] == ns[k] && ns[k..][1..] == ns[k + 1..];
  }

  /** The per-block closure: the changes for the active cell `a` of the board. */
  method ChangesAround(board: Board, a: Coord) returns (found: seq<(Coord, Block)>)
    ensures found == BlockChanges(board.blocks, a)
  {
    var active := CountActiveNeighbours(board, a);
    found := if active < 2 || active > 3 then [(a, Inactive)] else [];
    var neighbours := board.Neighbours(a);
    var k := 0;
    while k < 26
      invariant k <= 26
      invariant found + Births(board.blocks, neighbours[k..]) == BlockChanges(board.blocks, a)
    {
      var n := neighbours[k];
      var born := false;
      if n.1 == Inactive {
        var around := CountActiveNeighbours(board, n.0);
        born := around == 3;
      }
      BirthsUnfold(board.blocks, neighbours, k, found);
      found := found + if born then [(n.0, Active)] else [];
      k := k + 1;
    }
    assert neighbours[26..] == [];
  }

  /** All changes were decided from `blocks` for the active cells in `done`. */
  predicate Complete(blocks: map<Coord, Block>, done: set<Coord>, changes: seq<(Coord, Block)>)
  {
    forall a | a in done ::
      (!NextActive(blocks, a) ==> (a, Inactive) in changes) &&
      forall d | d in NeighbourCoords(a) && d !in blocks && ActiveNeighbours(blocks, d) == 3 ::
        (d, Active) in changes
  }

  /** Adding the changes of one more active cell keeps the list sound and complete for the
      cells handled so far and that one. */
  lemma CollectStep(blocks: map<Coord, Block>, done: set<Coord>, changes: seq<(Coord, Block)>, a: Coord)
    requires OnlyActive(blocks) && a in blocks
    requires Sound(blocks, changes) && Complete(blocks, done, changes)
    ensures Sound(blocks, changes + BlockChanges(blocks, a))
    ensures Complete(blocks, done + {a}, changes + BlockChanges(blocks, a))
  {
    var found := BlockChanges(blocks, a);
    BlockChangesMeaning(blocks, a);
    SoundConcat(blocks, changes, found);
    assert forall e | e in changes :: e in changes + found;
    assert forall e | e in found :: e in changes + found;
  }

  /** The collection half of `iterate_board`: the change list of every active cell, decided on
      the board as it is. */
  method CollectChanges(board: Board) returns (changes: seq<(Coord, Block)>)
    requires OnlyActive(board.blocks)
    ensures Sound(board.blocks, changes) && Complete(board.blocks, board.blocks.Keys, changes)
  {
    changes := [];
    var todo := board.ActiveBlocks();
    ghost var done: set<Coord> := {};
    while todo != {}
      invariant todo + done == board.blocks.Keys && todo !! done
      invariant Sound(board.blocks, changes) && Complete(board.blocks, done, changes)
      decreases |todo|
    {
      var a :| a in todo;
      var found := ChangesAround(board, a);
      CollectStep(board.blocks, done, changes, a);
      changes := changes + found;
      todo := todo - {a};
      done := done + {a};
    }
  }

  /** The application half of `iterate_board`: each change in order. */
  method ApplyChanges(board: Board, changes: seq<(Coord, Block)>)
    modifies board
    ensures board.blocks == Apply(old(board.blocks), changes)
  {
    ghost var blocks := board.blocks;
    var i := 0;
    while i < |changes|
      invariant i <= |changes|
      invariant board.blocks == Apply(blocks, changes[..i])
    {
      assert changes[..i + 1][..i] == changes[..i];
      if changes[i].1 == Active {
        board.SetActive(changes[i].0);
      } else {
        board.SetInactive(changes[i].0);
      }
      i := i + 1;
    }
    assert changes[..i] == changes;
  }

  /** Sound changes collected for every active cell carry out the rule: a cell is active
      afterwards exactly when the rule keeps it or brings it alive. */
  lemma ChangesFollowRule(blocks: map<Coord, Block>, changes: seq<(Coord, Block)>, c: Coord)
    requires OnlyActive(blocks)
    requires Sound(blocks, changes) && Complete(blocks, blocks.Keys, changes)
    ensures c in Apply(blocks, changes) <==> NextActive(blocks, c)
  {
    ApplyMembers(blocks, changes, c);
    if c !in blocks && ActiveNeighbours(blocks, c) == 3 {
      var a := ActiveNeighbourExists(blocks, c);
      NeighbourSymmetric(c, a);
    }
    if (c, Active) in changes {
      var k :| 0 <= k < |changes| && changes[k] == (c, Active);
    }
    if (c, Inactive) in changes {
      var k :| 0 <= k < |changes| && changes[k] == (c, Inactive);
    }
  }

  /** `iterate_board`: the changes are collected on the board as it was, then applied, so
      afterwards the active cells are exactly those the rule keeps or brings alive. */
  method IterateBoard(board: Board)
    requires OnlyActive(board.blocks)
    modifies board
    ensures OnlyActive(board.blocks)
    ensures forall c :: c in board.blocks <==> NextActive(old(board.blocks), c)
  {
    ghost var blocks := board.blocks;
    var changes := CollectChanges(board);
    ApplyChanges(board, changes);
    ApplyMembers(blocks, changes, (0, 0, 0));
    forall c
      ensures c in board.blocks <==> NextActive(blocks, c)
    {
      ChangesFollowRule(blocks, changes, c);
    }
  }
}
