/** Jurassic jigsaw (src/day_twenty.rs): 10 by 10 tiles of `#` and `.` packed into `u16` row
    masks, the four borders of a tile read clockwise and anti-clockwise, flipped row sets,
    the symmetric recording of matching borders between tiles, and the product of the ids of
    the tiles with two unmatched sides. */
module DayTwenty {
  import opened Common

  /* ---------------- bits ---------------- */

  /** Bit `k` of `x`. */
  predicate Bit(x: bv16, k: bv16)
    requires k < 16
  {
    (x >> k) & 1 == 1
  }

  /** `u16::reverse_bits`. */
  function ReverseBits(x: bv16): (r: bv16)
    ensures forall k: bv16 | k < 16 :: Bit(r, k) == Bit(x, 15 - k)
  {
    var pairs := ((x >> 1) & 0x5555) | ((x & 0x5555) << 1);
    var nibbles := ((pairs >> 2) & 0x3333) | ((pairs & 0x3333) << 2);
    var bytes := ((nibbles >> 4) & 0x0F0F) | ((nibbles & 0x0F0F) << 4);
    (bytes >> 8) | (bytes << 8)
  }

  /** `flip_side`: the low ten bits in reverse order; the high bits are dropped. */
  function FlipSide(x: bv16): (r: bv16)
    ensures r < 1024
    ensures forall k: bv16 | k < 10 :: Bit(r, k) == Bit(x, 9 - k)
  {
    ReverseBits(x) >> 6
  }

  /** Flipping a ten-bit side twice gives it back. */
  lemma FlipInvolution(x: bv16)
    requires x < 1024
    ensures FlipSide(FlipSide(x)) == x
  {
  }

  /** The value of position `n` in a mask built by doubling from 1: 2^n, or 0 once the bit
      has been shifted out. */
  function Digit(n: nat): bv16
  {
    if n == 0 then 1 else Digit(n - 1) << 1
  }

  lemma DigitSucc(n: nat)
    ensures Digit(n + 1) == Digit(n) << 1
  {
  }

  lemma {:induction false} DigitBit(n: nat, k: bv16)
    requires k < 16
    ensures Bit(Digit(n), k) <==> k as int == n
  {
    if n > 0 && k > 0 {
      DigitBit(n - 1, k - 1);
      assert (k - 1) as int == k as int - 1;
    }
  }

  /** Below position 16 a digit is a single bit; the ones below 15 leave the top bit clear. */
  lemma {:induction false} DigitPower(n: nat)
    requires n < 16
    ensures Digit(n) != 0 && Digit(n) & (Digit(n) - 1) == 0
    ensures n < 15 ==> Digit(n) < 0x8000
  {
    DigitBit(n, 15);
    if n > 0 {
      DigitPower(n - 1);
      DigitBit(n - 1, 15);
    }
  }

  lemma {:induction false} DigitZero(n: nat)
    requires n >= 16
    ensures Digit(n) == 0
  {
    if n > 16 {
      DigitZero(n - 1);
    } else {
      assert Digit(16) == 0;
    }
  }

  /** The mask with bit k set for each position k below `n` where `bs[k]` holds; positions
      from 16 on fall off. */
  function Pack(bs: seq<bool>, n: nat): bv16
    requires n <= |bs|
  {
    if n == 0 then 0
    else if bs[n - 1] then Pack(bs, n - 1) | Digit(n - 1)
    else Pack(bs, n - 1)
  }

  lemma {:induction false} PackBelow(bs: seq<bool>, n: nat)
    requires n <= |bs| && n < 16
    ensures Pack(bs, n) < Digit(n)
  {
    if n > 0 {
      PackBelow(bs, n - 1);
      DigitPower(n - 1);
    }
  }

  /** Below a single bit, adding the bit is setting it. */
  lemma AddAbove(x: bv16, d: bv16)
    requires d & (d - 1) == 0 && x < d
    ensures x + d == x | d
  {
  }

  /** The mask of one more position is the sum the source's loops form. */
  lemma PackAdd(bs: seq<bool>, n: nat)
    requires n < |bs|
    ensures Pack(bs, n + 1) == Pack(bs, n) + if bs[n] then Digit(n) else 0
  {
    assert Pack(bs, n + 1) == if bs[n] then Pack(bs, n) | Digit(n) else Pack(bs, n);
    if n < 16 {
      PackBelow(bs, n);
      DigitPower(n);
      AddAbove(Pack(bs, n), Digit(n));
    } else {
      DigitZero(n);
    }
  }

  /** Bit k of the mask is set exactly when k is below `n` and `bs[k]` holds. */
  lemma {:induction false} PackBit(bs: seq<bool>, n: nat, k: bv16)
    requires n <= |bs| && k < 16
    ensures Bit(Pack(bs, n), k) <==> (k as int < n && bs[k])
  {
    if n > 0 {
      PackBit(bs, n - 1, k);
      DigitBit(n - 1, k);
    }
  }

  lemma PackTen(bs: seq<bool>)
    requires |bs| == 10
    ensures Pack(bs, 10) < 1024
  {
    PackBelow(bs, 10);
    assert Digit(10) == 1024;
  }

  /** One round of a loop that adds `digit` to `mask` when `b` holds and doubles `digit`. */
  lemma PackNext(bs: seq<bool>, i: nat, b: bool, mask: bv16, digit: bv16)
    requires i < |bs| && b == bs[i] && mask == Pack(bs, i) && digit == Digit(i)
    ensures mask + (if b then digit else 0) == Pack(bs, i + 1)
    ensures (if b then mask + digit else mask) == Pack(bs, i + 1)
    ensures digit << 1 == Digit(i + 1)
  {
    PackAdd(bs, i);
    DigitSucc(i);
  }

  /** `mask += if hash { digit } else { 0 }`, one position of a packing loop. */
  method AddDigit(mask: bv16, hash: bool, digit: bv16, ghost bs: seq<bool>, ghost i: nat)
    returns (r: bv16)
    requires i < |bs| && hash == bs[i] && mask == Pack(bs, i) && digit == Digit(i)
    ensures r == Pack(bs, i + 1)
  {
    PackNext(bs, i, hash, mask, digit);
    r := mask + if hash then digit else 0;
  }

  /* ---------------- tile rows and borders ---------------- */

  /** The `#` positions of a line. */
  function Hashes(line: string): (bs: seq<bool>)
    ensures |bs| == |line|
  {
    seq(|line|, k requires 0 <= k < |line| => line[k] == '#')
  }

  /** The row mask of a line: bit k for a `#` at position k. */
  function RowOf(line: string): bv16
  {
    Pack(Hashes(line), |line|)
  }

  lemma RowBits(line: string, k: bv16)
    requires k < 16
    ensures Bit(RowOf(line), k) <==> (k as int < |line| && line[k] == '#')
  {
    PackBit(Hashes(line), |line|, k);
  }

  /** Whether each row, top to bottom, has its bit 9 set. */
  function RightColumn(rows: seq<bv16>): (bs: seq<bool>)
    requires |rows| == 10
    ensures |bs| == 10
  {
    seq(10, i requires 0 <= i < 10 => rows[i] & 512 == 512)
  }

  /** Whether each row, bottom to top, has its bit 0 set. */
  function LeftColumn(rows: seq<bv16>): (bs: seq<bool>)
    requires |rows| == 10
    ensures |bs| == 10
  {
    seq(10, i requires 0 <= i < 10 => rows[9 - i] & 1 == 1)
  }

  function RightEdge(rows: seq<bv16>): bv16
    requires |rows| == 10
  {
    Pack(RightColumn(rows), 10)
  }

  function LeftEdge(rows: seq<bv16>): bv16
    requires |rows| == 10
  {
    Pack(LeftColumn(rows), 10)
  }

  /** Bit i of the right edge is bit 9 of row i; bit i of the left edge is bit 0 of row 9 - i. */
  lemma EdgeBits(rows: seq<bv16>, k: bv16)
    requires |rows| == 10 && k < 16
    ensures Bit(RightEdge(rows), k) <==> (k < 10 && Bit(rows[k], 9))
    ensures Bit(LeftEdge(rows), k) <==> (k < 10 && Bit(rows[9 - k], 0))
  {
    PackBit(RightColumn(rows), 10, k);
    PackBit(LeftColumn(rows), 10, k);
    if k < 10 {
      assert RightColumn(rows)[k] == (rows[k] & 512 == 512);
      assert LeftColumn(rows)[k] == (rows[9 - k] & 1 == 1);
    }
  }

  lemma EdgesBelow(rows: seq<bv16>)
    requires |rows| == 10
    ensures RightEdge(rows) < 1024 && LeftEdge(rows) < 1024
  {
    PackTen(RightColumn(rows));
    PackTen(LeftColumn(rows));
  }

  /** The borders read clockwise: top, right, bottom reversed, left. */
  function Clockwise(rows: seq<bv16>): (r: seq<bv16>)
    requires |rows| == 10
    ensures |r| == 4
  {
    [rows[0], RightEdge(rows), FlipSide(rows[9]), LeftEdge(rows)]
  }

  /** The borders read anti-clockwise. */
  function AntiClockwise(rows: seq<bv16>): (r: seq<bv16>)
    requires |rows| == 10
    ensures |r| == 4
  {
    [FlipSide(rows[0]), FlipSide(RightEdge(rows)), rows[9], FlipSide(LeftEdge(rows))]
  }

  /** With a ten-bit bottom row, every anti-clockwise border is its clockwise one flipped. */
  lemma AntiClockwiseFlipped(rows: seq<bv16>)
    requires |rows| == 10 && rows[9] < 1024
    ensures forall s | 0 <= s < 4 :: AntiClockwise(rows)[s] == FlipSide(Clockwise(rows)[s])
  {
    FlipInvolution(rows[9]);
  }

  /** The loop of `Block::new` that reads the left edge bottom to top and the right edge top
      to bottom, one bit per row. */
  method ReadEdges(rows: seq<bv16>) returns (left: bv16, right: bv16)
    requires |rows| == 10
    ensures left == LeftEdge(rows) && right == RightEdge(rows)
  {
    left, right := 0, 0;
    var multiplier: bv16 := 1;
    ghost var leftColumn, rightColumn := LeftColumn(rows), RightColumn(rows);
    for i := 0 to 10
      invariant multiplier == Digit(i)
      invariant left == Pack(leftColumn, i)
      invariant right == Pack(rightColumn, i)
    {
      left := AddDigit(left, rows[10 - i - 1] & 1 == 1, multiplier, leftColumn, i);
      right := AddDigit(right, rows[i] & 512 == 512, multiplier, rightColumn, i);
      DigitSucc(i);
      multiplier := multiplier << 1;
    }
  }

  /* ---------------- flips ---------------- */

  datatype Flip = FlipX | FlipY | FlipXY | Identity

  /** The rows `transformed` returns. */
  function Transform(rows: seq<bv16>, flip: Flip): (r: seq<bv16>)
    requires |rows| == 10
    ensures |r| == 10
  {
    match flip
    case Identity => rows
    case FlipX => seq(10, y requires 0 <= y < 10 => FlipSide(rows[y]))
    case FlipY => seq(10, y requires 0 <= y < 10 => rows[9 - y] & 1023)
    case FlipXY => seq(10, y requires 0 <= y < 10 => FlipSide(rows[9 - y]))
  }

  predicate TenBitRows(rows: seq<bv16>)
  {
    forall y | 0 <= y < |rows| :: rows[y] < 1024
  }

  /** On ten-bit rows every flip undoes itself. */
  lemma TransformInvolution(rows: seq<bv16>, flip: Flip)
    requires |rows| == 10 && TenBitRows(rows)
    ensures Transform(Transform(rows, flip), flip) == rows
  {
    var once := Transform(rows, flip);
    var twice := Transform(once, flip);
    forall y | 0 <= y < 10
      ensures twice[y] == rows[y]
    {
      FlipInvolution(rows[y]);
    }
  }

  /** Flipping both ways is flipping each row, then the order of the rows. */
  lemma TransformCompose(rows: seq<bv16>)
    requires |rows| == 10
    ensures Transform(Transform(rows, FlipX), FlipY) == Transform(rows, FlipXY)
  {
  }

  /** The bits of a mask below a single bit `mask`, and the bit itself, make the bits below
      the next one. */
  lemma LowMaskStep(x: bv16, mask: bv16)
    requires mask != 0 && mask & (mask - 1) == 0 && mask < 0x8000
    ensures (x & (mask - 1)) + (x & mask) == x & ((mask << 1) - 1)
  {
  }

  /** The bits of `x` below position `b`. */
  function LowPart(x: bv16, b: nat): bv16
  {
    x & (Digit(b) - 1)
  }

  lemma LowPartTen(x: bv16)
    ensures LowPart(x, 10) == x & 1023
  {
    assert Digit(10) == 1024;
  }

  lemma LowPartNext(x: bv16, b: nat, sum: bv16, mask: bv16)
    requires b < 10 && mask == Digit(b) && sum == LowPart(x, b)
    ensures sum + (x & mask) == LowPart(x, b + 1)
  {
    DigitPower(b);
    LowMaskStep(x, mask);
    DigitSucc(b);
  }

  /** `sum += x & mask`, one round of a loop that sums the bits of `x` one at a time. */
  method AddMasked(sum: bv16, x: bv16, mask: bv16, ghost b: nat) returns (r: bv16)
    requires b < 10 && mask == Digit(b) && sum == LowPart(x, b)
    ensures r == LowPart(x, b + 1)
  {
    LowPartNext(x, b, sum, mask);
    r := sum + (x & mask);
  }

  /** The inner loop of FlipXY: the sum of the bits of `x` below 1024, taken one at a time. */
  method LowBits(x: bv16) returns (r: bv16)
    ensures r == x & 1023
  {
    r := 0;
    var mask: bv16 := 1;
    for b := 0 to 10
      invariant mask == Digit(b)
      invariant r == LowPart(x, b)
    {
      r := AddMasked(r, x, mask, b);
      DigitSucc(b);
      mask := mask << 1;
    }
    LowPartTen(x);
  }

  /* ---------------- tiles ---------------- */

  /** A recorded match: the other tile's id and whether the border matched flipped. */
  type Match = (nat, bool)

  const NO_MATCHES: seq<Option<Match>> := [None, None, None, None]

  class Block {
    const id: nat
    const rows: seq<bv16>
    const borderClockwise: seq<bv16>
    const borderAntiClockwise: seq<bv16>
    var matchingIds: seq<Option<Match>>

    /** The fixed lengths of the tile's arrays. */
    predicate Shaped()
    {
      |rows| == 10 && |borderClockwise| == 4 && |borderAntiClockwise| == 4
    }

    ghost predicate Valid()
      reads this
    {
      Shaped() && |matchingIds| == 4
    }

    /** `Block::new`: the borders of the rows, and no side matched. */
    constructor (id: nat, rows: seq<bv16>)
      requires id < U16_BOUND && |rows| == 10
      ensures Valid() && this.id == id && this.rows == rows
      ensures borderClockwise == Clockwise(rows) && borderAntiClockwise == AntiClockwise(rows)
      ensures matchingIds == NO_MATCHES
    {
      var left, right := ReadEdges(rows);
      this.id := id;
      this.rows := rows;
      borderClockwise := [rows[0], right, FlipSide(rows[9]), left];
      borderAntiClockwise := [FlipSide(rows[0]), FlipSide(right), rows[9], FlipSide(left)];
      matchingIds := NO_MATCHES;
    }

    /** `missing_sides`: how many sides have no match. */
    function MissingSides(): (r: nat)
      reads this
      requires Valid()
      ensures r <= 4
      ensures r == 0 <==> None !in matchingIds
    {
      Count(matchingIds, None)
    }

    /** `transformed`: the rows after a flip; the tile is left as it is. */
    method Transformed(flip: Flip) returns (result: seq<bv16>)
      requires Shaped()
      ensures result == Transform(rows, flip)
    {
      var out := new bv16[10](_ => 0);
      match flip {
        case Identity =>
          for i := 0 to 10
            invariant forall y | 0 <= y < i :: out[y] == rows[y]
          {
            out[i] := rows[i];
          }
        case FlipX =>
          for i := 0 to 10
            invariant forall y | 0 <= y < i :: out[y] == FlipSide(rows[y])
          {
            out[i] := FlipSide(rows[i]);
          }
        case FlipY =>
          FlipYRows(out);
        case FlipXY =>
          FlipXYRows(out);
      }
      result := out[..];
    }

    /** `add_matching_sides`: records the first pair of sides, in the order the loops try
        them, at which a side of this tile read either way equals a side of `block` read
        clockwise, on both tiles and with the same flag; no other slot changes. */
    method AddMatchingSides(block: Block)
      requires Valid() && block.Valid() && block != this
      modifies this, block
      ensures Valid() && block.Valid()
      ensures (matchingIds, block.matchingIds)
              == MatchSides(this, block, old(matchingIds), old(block.matchingIds))
    {
      var sides, flippedSides, otherSides := borderClockwise, borderAntiClockwise, block.borderClockwise;
      for s := 0 to 4
        invariant NoMatchBefore(sides, flippedSides, otherSides, s, 0)
        invariant matchingIds == old(matchingIds) && block.matchingIds == old(block.matchingIds)
      {
        for t := 0 to 4
          invariant NoMatchBefore(sides, flippedSides, otherSides, s, t)
          invariant matchingIds == old(matchingIds) && block.matchingIds == old(block.matchingIds)
        {
          if sides[s] == otherSides[t] || flippedSides[s] == otherSides[t] {
            FirstMatchAt(sides, flippedSides, otherSides, s, t);
            matchingIds := matchingIds[s := Some((block.id, flippedSides[s] == otherSides[t]))];
            block.matchingIds := block.matchingIds[t := Some((id, flippedSides[s] == otherSides[t]))];
            return;
          }
        }
      }
    }

    /** The FlipY loops: bit by bit, every row takes that bit of its mirror row. */
    method FlipYRows(out: array<bv16>)
      requires Shaped() && out.Length == 10 && forall y | 0 <= y < 10 :: out[y] == 0
      modifies out
      ensures forall y | 0 <= y < 10 :: out[y] == rows[9 - y] & 1023
    {
      var mask: bv16 := 1;
      for b := 0 to 10
        invariant mask == Digit(b)
        invariant forall y | 0 <= y < 10 :: out[y] == LowPart(rows[9 - y], b)
      {
        for y := 0 to 10
          invariant forall z | 0 <= z < y :: out[z] == LowPart(rows[9 - z], b + 1)
          invariant forall z | y <= z < 10 :: out[z] == LowPart(rows[9 - z], b)
        {
          out[y] := AddMasked(out[y], rows[10 - y - 1], mask, b);
        }
        DigitSucc(b);
        mask := mask << 1;
      }
      forall y | 0 <= y < 10
        ensures out[y] == rows[9 - y] & 1023
      {
        LowPartTen(rows[9 - y]);
      }
    }

    /** The FlipXY loops: row by row, the mirror row flipped, taken bit by bit. */
    method FlipXYRows(out: array<bv16>)
      requires Shaped() && out.Length == 10
      modifies out
      ensures forall y | 0 <= y < 10 :: out[y] == FlipSide(rows[9 - y])
    {
      for y := 0 to 10
        invariant forall z | 0 <= z < y :: out[z] == FlipSide(rows[9 - z])
      {
        var reversed := FlipSide(rows[10 - y - 1]);
        out[y] := LowBits(reversed);
      }
    }
  }

  /* ---------------- matching sides ---------------- */

  /** Side `s` of a tile, read clockwise or anti-clockwise, equals side `t` of another tile
      read clockwise. */
  predicate SidesMatch(cw: seq<bv16>, anti: seq<bv16>, other: seq<bv16>, s: nat, t: nat)
    requires |cw| == 4 && |anti| == 4 && |other| == 4 && s < 4 && t < 4
  {
    cw[s] == other[t] || anti[s] == other[t]
  }

  /** The order in which `add_matching_sides` tries pairs of sides: by own side, then by the
      other tile's side. */
  predicate Before(s': nat, t': nat, s: nat, t: nat)
  {
    s' < s || (s' == s && t' < t)
  }

  predicate NoMatchBefore(cw: seq<bv16>, anti: seq<bv16>, other: seq<bv16>, s: nat, t: nat)
    requires |cw| == 4 && |anti| == 4 && |other| == 4
  {
    forall s', t' | s' < 4 && t' < 4 && Before(s', t', s, t) :: !SidesMatch(cw, anti, other, s', t')
  }

  /** The first matching pair at or after (s, t). */
  function FirstMatchFrom(cw: seq<bv16>, anti: seq<bv16>, other: seq<bv16>, s: nat, t: nat)
    : (r: Option<(nat, nat)>)
    requires |cw| == 4 && |anti| == 4 && |other| == 4 && s <= 4 && t <= 4
    requires NoMatchBefore(cw, anti, other, s, t)
    ensures r.Some? ==> r.value.0 < 4 && r.value.1 < 4
                        && SidesMatch(cw, anti, other, r.value.0, r.value.1)
                        && NoMatchBefore(cw, anti, other, r.value.0, r.value.1)
    ensures r.None? ==> NoMatchBefore(cw, anti, other, 4, 0)
    decreases 4 - s, 4 - t
  {
    if s == 4 then None
    else if t == 4 then FirstMatchFrom(cw, anti, other, s + 1, 0)
    else if SidesMatch(cw, anti, other, s, t) then Some((s, t))
    else FirstMatchFrom(cw, anti, other, s, t + 1)
  }

  /** The first pair of sides that match, if any. */
  function FirstMatch(cw: seq<bv16>, anti: seq<bv16>, other: seq<bv16>): (r: Option<(nat, nat)>)
    requires |cw| == 4 && |anti| == 4 && |other| == 4
    ensures r.Some? ==> r.value.0 < 4 && r.value.1 < 4
                        && SidesMatch(cw, anti, other, r.value.0, r.value.1)
                        && NoMatchBefore(cw, anti, other, r.value.0, r.value.1)
    ensures r.None? <==> forall s, t | s < 4 && t < 4 :: !SidesMatch(cw, anti, other, s, t)
  {
    FirstMatchFrom(cw, anti, other, 0, 0)
  }

  /** A matching pair with no match before it is the first match. */
  lemma FirstMatchAt(cw: seq<bv16>, anti: seq<bv16>, other: seq<bv16>, s: nat, t: nat)
    requires |cw| == 4 && |anti| == 4 && |other| == 4 && s < 4 && t < 4
    requires SidesMatch(cw, anti, other, s, t) && NoMatchBefore(cw, anti, other, s, t)
    ensures FirstMatch(cw, anti, other) == Some((s, t))
  {
    var r := FirstMatch(cw, anti, other);
    assert r.Some?;
    var (s0, t0) := r.value;
    assert !Before(s, t, s0, t0) && !Before(s0, t0, s, t);
  }

  /** The slots of two tiles after `a.add_matching_sides(b)`. */
  function MatchSides(a: Block, b: Block, mine: seq<Option<Match>>, theirs: seq<Option<Match>>)
    : (seq<Option<Match>>, seq<Option<Match>>)
    requires a.Shaped() && b.Shaped() && |mine| == 4 && |theirs| == 4
  {
    match FirstMatch(a.borderClockwise, a.borderAntiClockwise, b.borderClockwise)
    case None => (mine, theirs)
    case Some((s, t)) =>
      var flipped := a.borderAntiClockwise[s] == b.borderClockwise[t];
      (mine[s := Some((b.id, flipped))], theirs[t := Some((a.id, flipped))])
  }

  /** When (s, t) is the first matching pair, the call records it on both tiles with the
      same flag, the flag saying whether the side matched read anti-clockwise, and touches
      no other slot. */
  lemma MatchSidesRecords(a: Block, b: Block, mine: seq<Option<Match>>, theirs: seq<Option<Match>>,
                          s: nat, t: nat)
    requires a.Shaped() && b.Shaped() && |mine| == 4 && |theirs| == 4 && s < 4 && t < 4
    requires SidesMatch(a.borderClockwise, a.borderAntiClockwise, b.borderClockwise, s, t)
    requires NoMatchBefore(a.borderClockwise, a.borderAntiClockwise, b.borderClockwise, s, t)
    ensures var flipped := a.borderAntiClockwise[s] == b.borderClockwise[t];
            MatchSides(a, b, mine, theirs)
            == (mine[s := Some((b.id, flipped))], theirs[t := Some((a.id, flipped))])
  {
    FirstMatchAt(a.borderClockwise, a.borderAntiClockwise, b.borderClockwise, s, t);
  }

  /** When no pair of sides matches, nothing is recorded. */
  lemma MatchSidesNone(a: Block, b: Block, mine: seq<Option<Match>>, theirs: seq<Option<Match>>)
    requires a.Shaped() && b.Shaped() && |mine| == 4 && |theirs| == 4
    requires forall s, t | s < 4 && t < 4 ::
               !SidesMatch(a.borderClockwise, a.borderAntiClockwise, b.borderClockwise, s, t)
    ensures MatchSides(a, b, mine, theirs) == (mine, theirs)
  {
  }

  /* ---------------- populating the matches ---------------- */

  type Slots = seq<Option<Match>>

  /** The pairs (a, b), b from a + 1 up to n, that the inner loop of `populate_matches`
      visits for tile a. */
  function Row(a: nat, n: nat): (r: seq<(nat, nat)>)
    ensures |r| == if a + 1 < n then n - a - 1 else 0
    ensures forall j | 0 <= j < |r| :: r[j] == (a, a + 1 + j)
  {
    if a + 1 < n then seq(n - a - 1, j requires 0 <= j < n - a - 1 => (a, a + 1 + j)) else []
  }

  /** The pairs visited for tiles 0 to a - 1. */
  function PairsUpTo(a: nat, n: nat): seq<(nat, nat)>
  {
    if a == 0 then [] else PairsUpTo(a - 1, n) + Row(a - 1, n)
  }

  /** The pairs `populate_matches` visits, in order. */
  function Pairs(n: nat): seq<(nat, nat)>
  {
    if n == 0 then [] else PairsUpTo(n - 1, n)
  }

  lemma {:induction false} PairsUpToBounds(a: nat, n: nat)
    ensures forall p | p in PairsUpTo(a, n) :: p.0 < a && p.0 < p.1 < n
  {
    if a > 0 {
      PairsUpToBounds(a - 1, n);
      var front, row := PairsUpTo(a - 1, n), Row(a - 1, n);
      var all := front + row;
      forall p: (nat, nat) | p in all
        ensures p.0 < a && p.0 < p.1 < n
      {
        var i :| 0 <= i < |all| && all[i] == p;
        if i >= |front| {
          assert p == row[i - |front|];
        } else {
          assert p == front[i] && front[i] in front;
        }
      }
      assert all == PairsUpTo(a, n);
    }
  }

  /** The pair (x, y) with x < a and x < y < n is one of the pairs visited for tiles below a. */
  lemma {:induction false} PairInPairsUpTo(a: nat, n: nat, x: nat, y: nat)
    requires x < a && x < y < n
    ensures (x, y) in PairsUpTo(a, n)
  {
    var front, row := PairsUpTo(a - 1, n), Row(a - 1, n);
    assert PairsUpTo(a, n) == front + row;
    if x == a - 1 {
      assert (front + row)[|front| + y - a] == row[y - a] == (x, y);
    } else {
      PairInPairsUpTo(a - 1, n, x, y);
      var i :| 0 <= i < |front| && front[i] == (x, y);
      assert (front + row)[i] == (x, y);
    }
  }

  /** Consecutive pairs are in increasing order, so each pair is visited once. */
  lemma {:induction false} PairsUpToSorted(a: nat, n: nat)
    ensures forall i, j | 0 <= i < j < |PairsUpTo(a, n)| ::
              Before(PairsUpTo(a, n)[i].0, PairsUpTo(a, n)[i].1, PairsUpTo(a, n)[j].0, PairsUpTo(a, n)[j].1)
  {
    if a > 0 {
      PairsUpToSorted(a - 1, n);
      PairsUpToBounds(a - 1, n);
      var front, row := PairsUpTo(a - 1, n), Row(a - 1, n);
      var all := front + row;
      forall i, j | 0 <= i < j < |all|
        ensures Before(all[i].0, all[i].1, all[j].0, all[j].1)
      {
        if j >= |front| {
          assert all[j] == row[j - |front|];
          if i >= |front| {
            assert all[i] == row[i - |front|];
          } else {
            assert all[i] == front[i] && front[i] in front;
          }
        } else {
          assert all[i] == front[i] && all[j] == front[j];
        }
      }
    }
  }

  /** `populate_matches` visits only pairs a < b of tiles. */
  lemma PairsBounded(n: nat)
    ensures forall p | p in Pairs(n) :: p.0 < p.1 < n
  {
    if n > 0 {
      PairsUpToBounds(n - 1, n);
    }
  }

  /** Every pair a < b of tiles is visited. */
  lemma PairsComplete(n: nat)
    ensures forall x: nat, y: nat | x < y < n :: (x, y) in Pairs(n)
  {
    forall x: nat, y: nat | x < y < n
      ensures (x, y) in Pairs(n)
    {
      PairInPairsUpTo(n - 1, n, x, y);
    }
  }

  /** The pairs are visited in increasing order, so none twice. */
  lemma PairsSorted(n: nat)
    ensures forall i, j | 0 <= i < j < |Pairs(n)| ::
              Before(Pairs(n)[i].0, Pairs(n)[i].1, Pairs(n)[j].0, Pairs(n)[j].1)
  {
    if n > 0 {
      PairsUpToSorted(n - 1, n);
    }
  }

  predicate AllShaped(bs: seq<Block>)
  {
    forall k | 0 <= k < |bs| :: bs[k].Shaped()
  }

  predicate SlotsFit(bs: seq<Block>, ms: seq<Slots>)
  {
    |ms| == |bs| && forall k | 0 <= k < |ms| :: |ms[k]| == 4
  }

  /** The slots after `bs[p.0].add_matching_sides(bs[p.1])`. */
  function Step(bs: seq<Block>, ms: seq<Slots>, p: (nat, nat)): (r: seq<Slots>)
    requires AllShaped(bs) && SlotsFit(bs, ms)
    ensures SlotsFit(bs, r)
  {
    if p.0 < p.1 < |bs| then
      var (mine, theirs) := MatchSides(bs[p.0], bs[p.1], ms[p.0], ms[p.1]);
      ms[p.0 := mine][p.1 := theirs]
    else ms
  }

  /** The slots after the calls for `pairs`, in order. */
  function Fold(bs: seq<Block>, ms: seq<Slots>, pairs: seq<(nat, nat)>): (r: seq<Slots>)
    requires AllShaped(bs) && SlotsFit(bs, ms)
    ensures SlotsFit(bs, r)
  {
    if pairs == [] then ms
    else Step(bs, Fold(bs, ms, pairs[..|pairs| - 1]), pairs[|pairs| - 1])
  }

  lemma FoldAppend(bs: seq<Block>, ms: seq<Slots>, pairs: seq<(nat, nat)>, p: (nat, nat))
    requires AllShaped(bs) && SlotsFit(bs, ms)
    ensures Fold(bs, ms, pairs + [p]) == Step(bs, Fold(bs, ms, pairs), p)
  {
    assert (pairs + [p])[..|pairs|] == pairs;
  }

  lemma PrefixStep<T>(front: seq<T>, row: seq<T>, m: nat)
    requires m < |row|
    ensures front + row[..m + 1] == (front + row[..m]) + [row[m]]
  {
    assert row[..m + 1] == row[..m] + [row[m]];
  }

  /** The slots of all tiles. */
  function SlotsOf(bs: seq<Block>): (ms: seq<Slots>)
    reads bs
    ensures |ms| == |bs| && forall k | 0 <= k < |bs| :: ms[k] == bs[k].matchingIds
  {
    if bs == [] then []
    else
      var n := |bs| - 1;
      assert forall k | 0 <= k < n :: bs[..n][k] == bs[k];
      SlotsOf(bs[..n]) + [bs[n].matchingIds]
  }

  /** Every tile is valid. */
  ghost predicate AllValid(bs: seq<Block>)
    reads bs
  {
    AllShaped(bs) && SlotsFit(bs, SlotsOf(bs))
  }

  predicate Distinct(bs: seq<Block>)
  {
    forall i, j | 0 <= i < j < |bs| :: bs[i] != bs[j]
  }

  /** One call `signatures[i].add_matching_sides(signatures[j])`, seen on the slots of all tiles. */
  method MatchPair(signatures: seq<Block>, i: nat, j: nat)
    requires AllValid(signatures) && Distinct(signatures) && i < j < |signatures|
    modifies signatures[i], signatures[j]
    ensures AllValid(signatures)
    ensures SlotsOf(signatures) == Step(signatures, old(SlotsOf(signatures)), (i, j))
  {
    ghost var before := SlotsOf(signatures);
    signatures[i].AddMatchingSides(signatures[j]);
    ghost var after := before[i := signatures[i].matchingIds][j := signatures[j].matchingIds];
    assert Step(signatures, before, (i, j)) == after;
    forall k | 0 <= k < |signatures|
      ensures signatures[k].matchingIds == after[k]
    {
      if k != i && k != j {
        assert signatures[k] != signatures[i] && signatures[k] != signatures[j];
      }
    }
  }

  /** The inner loop of `populate_matches`: tile a meets every later tile, in order. */
  method MatchWithLater(signatures: seq<Block>, a: nat, ghost initial: seq<Slots>, ghost front: seq<(nat, nat)>)
    requires AllValid(signatures) && Distinct(signatures) && a < |signatures|
    requires SlotsFit(signatures, initial)
    requires SlotsOf(signatures) == Fold(signatures, initial, front)
    modifies signatures
    ensures AllValid(signatures)
    ensures SlotsOf(signatures) == Fold(signatures, initial, front + Row(a, |signatures|))
  {
    var n := |signatures|;
    ghost var row := Row(a, n);
    assert front + row[..0] == front;
    for j := a + 1 to n
      invariant AllValid(signatures)
      invariant SlotsOf(signatures) == Fold(signatures, initial, front + row[..j - a - 1])
    {
      MatchPair(signatures, a, j);
      PrefixStep(front, row, j - a - 1);
      FoldAppend(signatures, initial, front + row[..j - a - 1], (a, j));
    }
    assert row[..n - a - 1] == row;
  }

  /** `populate_matches`: every tile meets every later one, in order. */
  method PopulateMatches(signatures: seq<Block>)
    requires AllValid(signatures) && Distinct(signatures)
    modifies signatures
    ensures AllValid(signatures)
    ensures SlotsOf(signatures) == Fold(signatures, old(SlotsOf(signatures)), Pairs(|signatures|))
  {
    ghost var initial := SlotsOf(signatures);
    var n := |signatures|;
    var i := 1;
    while i < n
      invariant 1 <= i && (i == 1 || i <= n)
      invariant AllValid(signatures) && SlotsFit(signatures, initial)
      invariant SlotsOf(signatures) == Fold(signatures, initial, PairsUpTo(i - 1, n))
    {
      MatchWithLater(signatures, i - 1, initial, PairsUpTo(i - 1, n));
      assert PairsUpTo(i, n) == PairsUpTo(i - 1, n) + Row(i - 1, n);
      i := i + 1;
    }
    assert Pairs(n) == PairsUpTo(i - 1, n);
  }

  /* ---------------- corners ---------------- */

  /** The indexes of the tiles with exactly two unmatched sides, in increasing order. */
  function Corners(ms: seq<Slots>): (r: seq<nat>)
    ensures forall i | 0 <= i < |r| :: r[i] < |ms| && Count(ms[r[i]], None) == 2
    ensures forall i, j | 0 <= i < j < |r| :: r[i] < r[j]
    ensures forall k | 0 <= k < |ms| && Count(ms[k], None) == 2 :: k in r
  {
    if ms == [] then []
    else
      var n := |ms| - 1;
      var front := Corners(ms[..n]);
      assert forall k | 0 <= k < n :: ms[..n][k] == ms[k];
      front + (if Count(ms[n], None) == 2 then [n] else [])
  }

  /** The ids of the tiles with exactly two unmatched sides. */
  function CornerIds(bs: seq<Block>, ms: seq<Slots>): (r: seq<nat>)
    requires |ms| == |bs|
    ensures |r| <= |bs|
    ensures forall x | x in r :: exists k | 0 <= k < |bs| :: bs[k].id == x && Count(ms[k], None) == 2
    ensures forall k | 0 <= k < |bs| && Count(ms[k], None) == 2 :: bs[k].id in r
  {
    if bs == [] then []
    else
      var n := |bs| - 1;
      var front := CornerIds(bs[..n], ms[..n]);
      assert forall k | 0 <= k < n :: bs[..n][k] == bs[k] && ms[..n][k] == ms[k];
      front + (if Count(ms[n], None) == 2 then [bs[n].id] else [])
  }

  /** The corner ids come one entry per corner tile, in the order of the tiles. */
  lemma {:induction false} CornerIdsInOrder(bs: seq<Block>, ms: seq<Slots>)
    requires |ms| == |bs|
    ensures |CornerIds(bs, ms)| == |Corners(ms)|
    ensures forall i | 0 <= i < |Corners(ms)| :: CornerIds(bs, ms)[i] == bs[Corners(ms)[i]].id
  {
    if bs != [] {
      var n := |bs| - 1;
      var c := Count(ms[n], None) == 2;
      CornerIdsInOrder(bs[..n], ms[..n]);
      var front, cs := CornerIds(bs[..n], ms[..n]), Corners(ms[..n]);
      assert CornerIds(bs, ms) == front + (if c then [bs[n].id] else []);
      assert Corners(ms) == cs + (if c then [n] else []);
      forall i | 0 <= i < |Corners(ms)|
        ensures CornerIds(bs, ms)[i] == bs[Corners(ms)[i]].id
      {
        if i < |cs| {
          assert cs[i] < n && bs[..n][cs[i]] == bs[cs[i]];
        }
      }
    }
  }

  /** The answer of part one: the product of the corner ids. */
  function CornerProduct(bs: seq<Block>, ms: seq<Slots>): int
    requires |ms| == |bs|
  {
    Product(CornerIds(bs, ms))
  }

  /** Part one of `run_day_twenty` on tiles already read: populate, then multiply the ids of
      the tiles with two unmatched sides. */
  method SolvePartOne(signatures: seq<Block>) returns (product: int)
    requires AllValid(signatures) && Distinct(signatures)
    modifies signatures
    ensures product == CornerProduct(signatures, Fold(signatures, old(SlotsOf(signatures)), Pairs(|signatures|)))
  {
    PopulateMatches(signatures);
    product := CornerProduct(signatures, SlotsOf(signatures));
  }

  /* ---------------- reading a tile ---------------- */

  /** The id of a header line: five characters skipped, then the text up to the first ':',
      parsed as a u16. */
  function HeaderId(header: string): (r: Option<nat>)
    ensures r.Some? ==> r.value < U16_BOUND
  {
    var afterTile := if |header| <= 5 then "" else header[5..];
    var digits := match IndexOfAny(afterTile, {':'})
                  case Some(i) => afterTile[..i]
                  case None => afterTile;
    ParseUnsigned(digits, U16_BOUND)
  }

  /** A header of the puzzle's form gives its id back. */
  lemma HeaderOfTile(n: nat, rest: string)
    requires n < U16_BOUND
    ensures HeaderId("Tile " + Decimal(n) + ":" + rest) == Some(n)
  {
    var d := Decimal(n);
    var header := "Tile " + d + ":" + rest;
    assert header[5..] == d + [':'] + rest;
    IndexOfAnyAbsent(d, {':'});
    IndexAfterPrefix(d, ':', rest, {':'});
    ParseDecimal(n, U16_BOUND);
  }

  /** How many lines from the start are not blank. */
  function BlockLength(lines: seq<string>): (m: nat)
    ensures m <= |lines|
  {
    if lines == [] || Trim(lines[0]) == [] then 0 else 1 + BlockLength(lines[1..])
  }

  /** The lines counted are not blank, and the one after them, if any, is. */
  lemma {:induction false} BlockLengthStops(lines: seq<string>)
    ensures forall k | 0 <= k < BlockLength(lines) :: Trim(lines[k]) != []
    ensures BlockLength(lines) < |lines| ==> Trim(lines[BlockLength(lines)]) == []
  {
    if lines != [] && Trim(lines[0]) != [] {
      BlockLengthStops(lines[1..]);
      assert forall k | 1 <= k < BlockLength(lines) :: lines[k] == lines[1..][k - 1];
    }
  }

  /** The rows of a tile from its lines; missing lines leave a row at 0. */
  function TileRows(blockLines: seq<string>): (rows: seq<bv16>)
    requires |blockLines| <= 10
    ensures |rows| == 10
  {
    seq(10, i requires 0 <= i < 10 => if i < |blockLines| then RowOf(blockLines[i]) else 0)
  }

  /** Bit k of row i is set exactly when character k of line i is `#`. */
  lemma TileRowBits(blockLines: seq<string>, i: nat, k: bv16)
    requires |blockLines| <= 10 && i < 10 && k < 16
    ensures Bit(TileRows(blockLines)[i], k)
            <==> (i < |blockLines| && k as int < |blockLines[i]| && blockLines[i][k] == '#')
  {
    if i < |blockLines| {
      RowBits(blockLines[i], k);
    }
  }

  lemma TileRowsStep(blockLines: seq<string>, i: nat)
    requires i < |blockLines| && i < 10
    ensures TileRows(blockLines[..i + 1]) == TileRows(blockLines[..i])[i := RowOf(blockLines[i])]
  {
    assert blockLines[..i + 1][i] == blockLines[i];
    assert forall y | 0 <= y < i :: blockLines[..i + 1][y] == blockLines[..i][y];
  }

  /** The character loop of `read_image_signature`. */
  method ReadRow(line: string) returns (row: bv16)
    ensures row == RowOf(line)
  {
    row := 0;
    var digit: bv16 := 1;
    ghost var hashes := Hashes(line);
    for k := 0 to |line|
      invariant digit == Digit(k)
      invariant row == Pack(hashes, k)
    {
      row := AddDigit(row, line[k] == '#', digit, hashes, k);
      DigitSucc(k);
      digit := digit << 1;
    }
  }

  /** The block loop of `read_image_signature`: the rows of the lines up to the first blank
      one, and how many lines that is. */
  method ReadBlockRows(blockLines: seq<string>) returns (rows: seq<bv16>, m: nat)
    requires BlockLength(blockLines) <= 10
    ensures m == BlockLength(blockLines)
    ensures rows == TileRows(blockLines[..m])
  {
    m := BlockLength(blockLines);
    var buffer := new bv16[10](_ => 0);
    assert buffer[..] == TileRows(blockLines[..0]);
    for i := 0 to m
      invariant buffer[..] == TileRows(blockLines[..i])
    {
      ghost var before := buffer[..];
      var row := ReadRow(blockLines[i]);
      buffer[i] := row;
      assert buffer[..] == before[i := row];
      TileRowsStep(blockLines, i);
    }
    rows := buffer[..];
  }

  /** The lines one `read_image_signature` call takes from a non-empty input holding a tile:
      the header, the rows, and the blank line after them when there is one. */
  function Consumed(lines: seq<string>): (c: nat)
    requires lines != []
    ensures 1 <= c <= |lines|
  {
    var m := BlockLength(lines[1..]);
    1 + m + (if 1 + m < |lines| then 1 else 0)
  }

  /** The fixed parts of a block as `Block::new` makes it from a tile's id and the rows read
      from its lines. */
  predicate MadeFrom(b: Block, id: nat, blockLines: seq<string>)
  {
    && |blockLines| <= 10 && b.Shaped() && b.id == id && b.rows == TileRows(blockLines)
    && b.borderClockwise == Clockwise(b.rows) && b.borderAntiClockwise == AntiClockwise(b.rows)
  }

  /** The changing part of a block as `Block::new` makes it: no side matched yet. */
  ghost predicate Unmatched(b: Block)
    reads b
  {
    b.Valid() && b.matchingIds == NO_MATCHES
  }

  /** A block as `Block::new` makes it from a tile's id and the rows read from its lines. */
  ghost predicate NewBlockOf(b: Block, id: nat, blockLines: seq<string>)
    reads b
  {
    MadeFrom(b, id, blockLines) && Unmatched(b)
  }

  /** `read_image_signature` on the lines still to be read: the tile and how many lines it
      took, the blank line after the tile included. */
  method ReadImageSignature(lines: seq<string>) returns (block: Option<Block>, consumed: nat)
    requires |lines| > 0 && HeaderId(lines[0]).Some? ==> BlockLength(lines[1..]) <= 10
    ensures consumed <= |lines|
    ensures block.None? <==> (lines == [] || HeaderId(lines[0]).None?)
    ensures block.None? ==> consumed == if lines == [] then 0 else 1
    ensures block.Some? ==>
              && fresh(block.value)
              && NewBlockOf(block.value, HeaderId(lines[0]).value, lines[1..1 + BlockLength(lines[1..])])
              && consumed == Consumed(lines)
  {
    if lines == [] {
      return None, 0;
    }
    var id := HeaderId(lines[0]);
    if id.None? {
      return None, 1;
    }
    var rows, m := ReadBlockRows(lines[1..]);
    consumed := 1 + m + (if 1 + m < |lines| then 1 else 0);
    assert lines[1..][..m] == lines[1..1 + m];
    var tile := new Block(id.value, rows);
    block := Some(tile);
  }

  /* ---------------- reading all tiles ---------------- */

  /** The id each line gives when read as a header, line by line. */
  function HeaderIds(lines: seq<string>): (r: seq<Option<nat>>)
    ensures |r| == |lines|
  {
    if lines == [] then [] else [HeaderId(lines[0])] + HeaderIds(lines[1..])
  }

  lemma {:induction false} HeaderIdsAt(lines: seq<string>, p: nat)
    requires p < |lines|
    ensures HeaderIds(lines)[p] == HeaderId(lines[p])
    decreases p
  {
    if p > 0 {
      HeaderIdsAt(lines[1..], p - 1);
      assert lines[1..][p - 1] == lines[p];
    }
  }

  /** The number of non-blank lines at the start of each suffix of the lines. */
  function BlockLengths(lines: seq<string>): (r: seq<nat>)
    ensures |r| == |lines| + 1
    ensures forall q | 0 <= q <= |lines| :: r[q] <= |lines| - q
  {
    if lines == [] then [0]
    else
      var r := [BlockLength(lines)] + BlockLengths(lines[1..]);
      assert forall q | 1 <= q <= |lines| :: r[q] == BlockLengths(lines[1..])[q - 1];
      r
  }

  lemma {:induction false} BlockLengthsAt(lines: seq<string>, q: nat)
    requires q <= |lines|
    ensures BlockLengths(lines)[q] == BlockLength(lines[q..])
    decreases q
  {
    if q > 0 {
      BlockLengthsAt(lines[1..], q - 1);
      assert lines[1..][q - 1..] == lines[q..];
    }
  }

  /** The row lines of the tile whose header is line `p`. */
  function TileLines(lines: seq<string>, p: nat): (r: seq<string>)
    requires p < |lines|
  {
    lines[p + 1..p + 1 + BlockLengths(lines)[p + 1]]
  }

  /** The line after the tile whose header is line `p`: where the next call starts. The blank
      line after the rows is taken too when there is one. */
  function NextStart(lines: seq<string>, p: nat): (q: nat)
    requires p < |lines|
    ensures p < q <= |lines|
  {
    var m := BlockLengths(lines)[p + 1];
    BlockLengthsAt(lines, p + 1);
    p + 1 + m + (if p + 1 + m < |lines| then 1 else 0)
  }

  /** Reading stops at line `p`: the input is used up or the line there is no header. */
  predicate Stops(lines: seq<string>, p: nat)
  {
    p >= |lines| || HeaderIds(lines)[p].None?
  }

  /** Every tile the loop of `read_image_signatures` reaches from line `p` on has at most
      ten rows, the size of the buffer `rows`. */
  predicate TilesFit(lines: seq<string>, p: nat)
    decreases |lines| - p
  {
    Stops(lines, p) || (BlockLengths(lines)[p + 1] <= 10 && TilesFit(lines, NextStart(lines, p)))
  }

  /** The fixed parts of `b` are those of the tile whose header is line `p`. */
  predicate MadeAt(b: Block, lines: seq<string>, p: nat)
  {
    p < |lines| && HeaderIds(lines)[p].Some? && MadeFrom(b, HeaderIds(lines)[p].value, TileLines(lines, p))
  }

  /** What `read_image_signature` sees from line `p` on is what the tables say about line `p`. */
  lemma SuffixAt(lines: seq<string>, p: nat)
    requires p < |lines|
    ensures lines[p..] != [] && HeaderId(lines[p..][0]) == HeaderIds(lines)[p]
    ensures BlockLength(lines[p..][1..]) == BlockLengths(lines)[p + 1]
    ensures lines[p..][1..1 + BlockLengths(lines)[p + 1]] == TileLines(lines, p)
    ensures p + Consumed(lines[p..]) == NextStart(lines, p)
  {
    SuffixHeader(lines, p);
    SuffixLength(lines, p);
    SuffixRows(lines, p);
    SuffixConsumed(lines, p);
  }

  /** The header seen from line `p` on is line `p`. */
  lemma SuffixHeader(lines: seq<string>, p: nat)
    requires p < |lines|
    ensures lines[p..] != [] && HeaderId(lines[p..][0]) == HeaderIds(lines)[p]
  {
    var line := lines[p..][0];
    assert line == lines[p];
    HeaderIdsAt(lines, p);
  }

  /** The rows seen from line `p` on start at line `p + 1`. */
  lemma SuffixLength(lines: seq<string>, p: nat)
    requires p < |lines|
    ensures BlockLength(lines[p..][1..]) == BlockLengths(lines)[p + 1]
  {
    assert lines[p..][1..] == lines[p + 1..];
    BlockLengthsAt(lines, p + 1);
  }

  /** The row lines seen from line `p` on are those of the tile at line `p`. */
  lemma SuffixRows(lines: seq<string>, p: nat)
    requires p < |lines|
    ensures lines[p..][1..1 + BlockLengths(lines)[p + 1]] == TileLines(lines, p)
  {
    SliceAfter(lines, p, BlockLengths(lines)[p + 1]);
  }

  lemma SliceAfter(lines: seq<string>, p: nat, m: nat)
    requires p + 1 + m <= |lines|
    ensures lines[p..][1..1 + m] == lines[p + 1..p + 1 + m]
  {
  }

  /** The lines taken from line `p` on end where the next tile starts. */
  lemma SuffixConsumed(lines: seq<string>, p: nat)
    requires p < |lines|
    ensures p + Consumed(lines[p..]) == NextStart(lines, p)
  {
    SuffixLength(lines, p);
  }

  /** `read_image_signature` on the iterator standing at line `p`: the block read, and the
      line the iterator stands at afterwards. */
  method ReadNext(lines: seq<string>, p: nat) returns (block: Option<Block>, next: nat)
    requires p <= |lines| && TilesFit(lines, p)
    ensures block.None? <==> Stops(lines, p)
    ensures block.Some? ==>
              && fresh(block.value) && MadeAt(block.value, lines, p) && Unmatched(block.value)
              && next == NextStart(lines, p) && TilesFit(lines, next)
  {
    if p < |lines| {
      SuffixAt(lines, p);
    }
    var consumed;
    block, consumed := ReadImageSignature(lines[p..]);
    next := p + consumed;
  }

  /** `blocks` were read one after the other from the start of the input: block `k` is
      `made` from the tile whose header is line `starts[k]`, and the tile after it starts where
      the call reading it stopped. The last entry of `starts` is where reading stands now. */
  predicate ReadFrom(lines: seq<string>, made: (Block, nat) -> bool, blocks: seq<Block>, starts: seq<nat>)
    decreases |blocks|
  {
    && |starts| == |blocks| + 1
    && if blocks == [] then starts == [0] else
         var n := |blocks| - 1;
         && ReadFrom(lines, made, blocks[..n], starts[..n + 1])
         && starts[n] < |lines| && made(blocks[n], starts[n]) && starts[n + 1] == NextStart(lines, starts[n])
  }

  /** Reading one more block at the line where reading stands. */
  lemma ReadFromPush(lines: seq<string>, made: (Block, nat) -> bool, blocks: seq<Block>, starts: seq<nat>, b: Block, q: nat)
    requires ReadFrom(lines, made, blocks, starts) && starts[|blocks|] < |lines| && made(b, starts[|blocks|])
    requires q == NextStart(lines, starts[|blocks|])
    ensures ReadFrom(lines, made, blocks + [b], starts + [q])
  {
    assert (blocks + [b])[..|blocks|] == blocks;
    assert (starts + [q])[..|blocks| + 1] == starts;
  }

  /** The blocks read so far, one by one. */
  lemma {:induction false} ReadFromEach(lines: seq<string>, made: (Block, nat) -> bool, blocks: seq<Block>, starts: seq<nat>)
    requires ReadFrom(lines, made, blocks, starts)
    ensures |starts| == |blocks| + 1 && starts[0] == 0
    ensures forall k | 0 <= k < |blocks| ::
              starts[k] < |lines| && made(blocks[k], starts[k]) && starts[k + 1] == NextStart(lines, starts[k])
    decreases |blocks|
  {
    if blocks != [] {
      var n := |blocks| - 1;
      ReadFromEach(lines, made, blocks[..n], starts[..n + 1]);
      assert forall k | 0 <= k < n :: blocks[..n][k] == blocks[k];
      assert forall k | 0 <= k <= n :: starts[..n + 1][k] == starts[k];
    }
  }

  /** Blocks fresh from `Block::new` have the shapes that matching needs. */
  lemma NewBlocksValid(bs: seq<Block>)
    requires forall k | 0 <= k < |bs| :: bs[k].Valid()
    ensures AllValid(bs)
  {
  }

  /** A block not yet among distinct blocks keeps them distinct when pushed. */
  lemma DistinctPush(bs: seq<Block>, b: Block)
    requires Distinct(bs) && b !in bs
    ensures Distinct(bs + [b])
  {
  }

  /** `read_image_signatures`: tiles are read one after the other until
      `read_image_signature` gives none. Block `k` is a new, unmatched block made from the
      tile whose header is line `starts[k]`; the tile after it starts where reading block `k`
      stopped, and the last entry of `starts` is the line where reading stopped for good. */
  method ReadImageSignatures(lines: seq<string>) returns (signatures: seq<Block>, ghost starts: seq<nat>)
    requires TilesFit(lines, 0)
    ensures |starts| == |signatures| + 1 && starts[0] == 0 && Stops(lines, starts[|signatures|])
    ensures forall k | 0 <= k < |signatures| ::
              && fresh(signatures[k]) && MadeAt(signatures[k], lines, starts[k]) && Unmatched(signatures[k])
              && starts[k + 1] == NextStart(lines, starts[k])
    ensures Distinct(signatures) && AllValid(signatures)
  {
    ghost var made := (b: Block, q: nat) => MadeAt(b, lines, q);
    signatures, starts := [], [0];
    var p := 0;
    while true
      invariant p <= |lines| && TilesFit(lines, p)
      invariant ReadFrom(lines, made, signatures, starts) && starts[|signatures|] == p
      invariant forall k | 0 <= k < |signatures| :: fresh(signatures[k]) && Unmatched(signatures[k])
      invariant Distinct(signatures)
      decreases |lines| - p
    {
      var block, next := ReadNext(lines, p);
      if block.None? {
        break;
      }
      ReadFromPush(lines, made, signatures, starts, block.value, next);
      DistinctPush(signatures, block.value);
      signatures, starts := signatures + [block.value], starts + [next];
      p := next;
    }
    ReadFromEach(lines, made, signatures, starts);
    NewBlocksValid(signatures);
  }
}
