/** Docking data (src/day_fourteen.rs): groups of memory writes under a 36-character mask.
    Part one forces the mask's 1 and 0 bits in every value; part two forces its 1 bits in
    every address and writes the value to every combination of its floating X bits. Bits
    are modelled on natural numbers. */
module DayFourteen {
  import opened Common

  datatype Instructions = Instructions(mask: string, assignments: seq<(nat, nat)>)

  /* ---------------- bits of natural numbers ---------------- */

  function Pow2(k: nat): (r: nat)
    ensures r >= 1
  {
    if k == 0 then 1 else 2 * Pow2(k - 1)
  }

  /** Bit `k` of `x` is set. */
  predicate Bit(x: nat, k: nat)
  {
    if k == 0 then x % 2 == 1 else Bit(x / 2, k - 1)
  }

  /** `a | b`. */
  function Or(a: nat, b: nat): nat
    decreases a + b
  {
    if a == 0 && b == 0 then 0 else 2 * Or(a / 2, b / 2) + (if a % 2 == 1 || b % 2 == 1 then 1 else 0)
  }

  /** `a & b`. */
  function And(a: nat, b: nat): nat
    decreases a + b
  {
    if a == 0 && b == 0 then 0 else 2 * And(a / 2, b / 2) + (if a % 2 == 1 && b % 2 == 1 then 1 else 0)
  }

  /** `a & !b`, which on `usize` values equals `a` with the bits of `b` cleared. */
  function AndNot(a: nat, b: nat): nat
    decreases a + b
  {
    if a == 0 && b == 0 then 0 else 2 * AndNot(a / 2, b / 2) + (if a % 2 == 1 && b % 2 == 0 then 1 else 0)
  }

  lemma {:induction false} ZeroBits(k: nat)
    ensures !Bit(0, k)
  {
    if k > 0 {
      ZeroBits(k - 1);
    }
  }

  /** Bit 0 of `2 * x + r` is `r`, the higher ones are those of `x`. */
  lemma BitOfDouble(x: nat, r: nat, k: nat)
    requires r < 2
    ensures Bit(2 * x + r, k) == if k == 0 then r == 1 else Bit(x, k - 1)
  {
    if k > 0 {
      assert (2 * x + r) / 2 == x;
    }
  }

  lemma {:induction false} OrBit(a: nat, b: nat, k: nat)
    ensures Bit(Or(a, b), k) == (Bit(a, k) || Bit(b, k))
    decreases a + b
  {
    if a == 0 && b == 0 {
      ZeroBits(k);
    } else {
      BitOfDouble(Or(a / 2, b / 2), if a % 2 == 1 || b % 2 == 1 then 1 else 0, k);
      if k > 0 {
        OrBit(a / 2, b / 2, k - 1);
      }
    }
  }

  lemma {:induction false} AndBit(a: nat, b: nat, k: nat)
    ensures Bit(And(a, b), k) == (Bit(a, k) && Bit(b, k))
    decreases a + b
  {
    if a == 0 && b == 0 {
      ZeroBits(k);
    } else {
      BitOfDouble(And(a / 2, b / 2), if a % 2 == 1 && b % 2 == 1 then 1 else 0, k);
      if k > 0 {
        AndBit(a / 2, b / 2, k - 1);
      }
    }
  }

  lemma {:induction false} AndNotBit(a: nat, b: nat, k: nat)
    ensures Bit(AndNot(a, b), k) == (Bit(a, k) && !Bit(b, k))
    decreases a + b
  {
    if a == 0 && b == 0 {
      ZeroBits(k);
    } else {
      BitOfDouble(AndNot(a / 2, b / 2), if a % 2 == 1 && b % 2 == 0 then 1 else 0, k);
      if k > 0 {
        AndNotBit(a / 2, b / 2, k - 1);
      }
    }
  }

  lemma {:induction false} Pow2Bit(p: nat, q: nat)
    ensures Bit(Pow2(p), q) == (p == q)
  {
    if p == 0 {
      BitOfDouble(0, 1, q);
      if q > 0 {
        ZeroBits(q - 1);
      }
    } else {
      BitOfDouble(Pow2(p - 1), 0, q);
      if q > 0 {
        Pow2Bit(p - 1, q - 1);
      }
    }
  }

  /** Adding `2^p` to a number without bit `p` sets exactly that bit. */
  lemma {:induction false} AddPow2Bit(a: nat, p: nat, q: nat)
    requires !Bit(a, p)
    ensures Bit(a + Pow2(p), q) == (Bit(a, q) || q == p)
  {
    if p == 0 {
      assert a % 2 == 0;
      BitOfDouble(a / 2, 1, q);
      BitOfDouble(a / 2, 0, q);
    } else {
      var r := a % 2;
      assert a + Pow2(p) == 2 * (a / 2 + Pow2(p - 1)) + r;
      BitOfDouble(a / 2 + Pow2(p - 1), r, q);
      BitOfDouble(a / 2, r, q);
      BitOfDouble(a / 2, r, p);
      if q > 0 {
        AddPow2Bit(a / 2, p - 1, q - 1);
      }
    }
  }

  /* ---------------- from_str_radix(.., 2) ---------------- */

  /** The value of a binary digit string, most significant digit first. */
  function BitsValue(bits: seq<bool>): nat
  {
    if bits == [] then 0 else 2 * BitsValue(bits[..|bits| - 1]) + if bits[|bits| - 1] then 1 else 0
  }

  /** Bit `k` of the value is the `k`-th digit from the right. */
  lemma {:induction false} BitsValueBit(bits: seq<bool>, k: nat)
    ensures Bit(BitsValue(bits), k) == (k < |bits| && bits[|bits| - 1 - k])
  {
    if bits == [] {
      ZeroBits(k);
    } else {
      var init := bits[..|bits| - 1];
      BitOfDouble(BitsValue(init), if bits[|bits| - 1] then 1 else 0, k);
      if k > 0 {
        BitsValueBit(init, k - 1);
        if k - 1 < |init| {
          assert init[|init| - 1 - (k - 1)] == bits[|bits| - 1 - k];
        }
      }
    }
  }

  /** `usize::from_str_radix(.., 2)`: Err for an empty string or a value past `usize`. */
  function FromBinary(bits: seq<bool>): (r: Option<nat>)
    ensures r.None? <==> bits == [] || BitsValue(bits) >= USIZE_BOUND
    ensures r.Some? ==> r.value == BitsValue(bits) && r.value < USIZE_BOUND
  {
    if bits == [] || BitsValue(bits) >= USIZE_BOUND then None else Some(BitsValue(bits))
  }

  /** The mask with '1' read as 1 and everything else as 0. */
  function OnesBits(mask: string): (r: seq<bool>)
    ensures |r| == |mask| && forall i | 0 <= i < |mask| :: r[i] == (mask[i] == '1')
  {
    seq(|mask|, i requires 0 <= i < |mask| => mask[i] == '1')
  }

  /** The mask with '0' read as 0 and everything else as 1. */
  function ZerosBits(mask: string): (r: seq<bool>)
    ensures |r| == |mask| && forall i | 0 <= i < |mask| :: r[i] == (mask[i] != '0')
  {
    seq(|mask|, i requires 0 <= i < |mask| => mask[i] != '0')
  }

  /** `get_ones_mask`. */
  function GetOnesMask(mask: string): Option<nat>
  {
    FromBinary(OnesBits(mask))
  }

  /** The zeros mask of `execute_task_one`. */
  function GetZerosMask(mask: string): Option<nat>
  {
    FromBinary(ZerosBits(mask))
  }

  /** The ones mask sets bit k exactly when the k-th character from the right is '1'; it is
      None only for an empty mask or one whose value does not fit `usize`. */
  lemma OnesMaskBits(mask: string, k: nat)
    ensures GetOnesMask(mask).None? <==> mask == [] || BitsValue(OnesBits(mask)) >= USIZE_BOUND
    ensures GetOnesMask(mask).Some? ==>
              (Bit(GetOnesMask(mask).value, k) <==> k < |mask| && mask[|mask| - 1 - k] == '1')
  {
    BitsValueBit(OnesBits(mask), k);
  }

  /* ---------------- part one ---------------- */

  /** `(value | ones) & zeros`. */
  function Masked(value: nat, ones: nat, zeros: nat): nat
  {
    And(Or(value, ones), zeros)
  }

  /** Part one forces every '1' of the mask, clears every '0' and every bit beyond the
      mask, and keeps the value's bit under an 'X'. */
  lemma MaskedBits(mask: string, value: nat, k: nat)
    requires GetOnesMask(mask).Some? && GetZerosMask(mask).Some?
    ensures Bit(Masked(value, GetOnesMask(mask).value, GetZerosMask(mask).value), k) ==
              if k < |mask| then
                var c := mask[|mask| - 1 - k];
                c == '1' || (c != '0' && Bit(value, k))
              else false
  {
    var ones, zeros := GetOnesMask(mask).value, GetZerosMask(mask).value;
    AndBit(Or(value, ones), zeros, k);
    OrBit(value, ones, k);
    BitsValueBit(OnesBits(mask), k);
    BitsValueBit(ZerosBits(mask), k);
  }

  /** The memory after applying writes (address, value) in order to `memory`. */
  function Store(memory: map<nat, nat>, writes: seq<(nat, nat)>): map<nat, nat>
  {
    if writes == [] then memory
    else Store(memory, writes[..|writes| - 1])[writes[|writes| - 1].0 := writes[|writes| - 1].1]
  }

  /** An address holds the value of its last write, or its old value when it was not
      written; nothing else enters the memory. */
  lemma {:induction false} StoreLastWrite(memory: map<nat, nat>, writes: seq<(nat, nat)>, a: nat) returns (i: int)
    ensures a in Store(memory, writes) <==> a in memory || exists j | 0 <= j < |writes| :: writes[j].0 == a
    ensures i < |writes|
    ensures i < 0 <==> forall j | 0 <= j < |writes| :: writes[j].0 != a
    ensures 0 <= i ==> writes[i].0 == a && Store(memory, writes)[a] == writes[i].1
                       && forall j | i < j < |writes| :: writes[j].0 != a
    ensures i < 0 && a in memory ==> Store(memory, writes)[a] == memory[a]
  {
    if writes == [] {
      i := -1;
    } else {
      var init := writes[..|writes| - 1];
      assert forall j | 0 <= j < |init| :: init[j] == writes[j];
      if writes[|writes| - 1].0 == a {
        i := |writes| - 1;
      } else {
        i := StoreLastWrite(memory, init, a);
      }
    }
  }

  lemma StoreAppend(memory: map<nat, nat>, writes: seq<(nat, nat)>, w: (nat, nat))
    ensures Store(memory, writes + [w]) == Store(memory, writes)[w.0 := w.1]
  {
    assert (writes + [w])[..|writes|] == writes;
  }

  lemma {:induction false} StoreConcat(memory: map<nat, nat>, a: seq<(nat, nat)>, b: seq<(nat, nat)>)
    ensures Store(memory, a + b) == Store(Store(memory, a), b)
  {
    if b == [] {
      assert a + b == a;
    } else {
      var b' := b[..|b| - 1];
      assert (a + b)[..|a + b| - 1] == a + b';
      StoreConcat(memory, a, b');
    }
  }

  /** The writes of one instruction in part one: nothing when either mask fails to parse. */
  function InstructionWritesOne(ins: Instructions): seq<(nat, nat)>
  {
    match (GetOnesMask(ins.mask), GetZerosMask(ins.mask))
    case (Some(ones), Some(zeros)) =>
      seq(|ins.assignments|, k requires 0 <= k < |ins.assignments| =>
        (ins.assignments[k].0, Masked(ins.assignments[k].1, ones, zeros)))
    case _ => []
  }

  function WritesOne(instructions: seq<Instructions>): seq<(nat, nat)>
  {
    if instructions == [] then []
    else WritesOne(instructions[..|instructions| - 1]) + InstructionWritesOne(instructions[|instructions| - 1])
  }

  lemma WritesOneStep(instructions: seq<Instructions>, i: nat)
    requires i < |instructions|
    ensures WritesOne(instructions[..i + 1]) == WritesOne(instructions[..i]) + InstructionWritesOne(instructions[i])
  {
    assert instructions[..i + 1][..i] == instructions[..i];
  }

  /** The inner loop of `execute_task_one` for one instruction. */
  method WriteInstructionOne(memory: map<nat, nat>, instruction: Instructions) returns (memory': map<nat, nat>)
    ensures memory' == Store(memory, InstructionWritesOne(instruction))
  {
    memory' := memory;
    ghost var mine := InstructionWritesOne(instruction);
    ghost var valid := GetOnesMask(instruction.mask).Some? && GetZerosMask(instruction.mask).Some?;
    assert valid ==> |mine| == |instruction.assignments|;
    var j := 0;
    while j < |instruction.assignments|
      invariant j <= |instruction.assignments|
      invariant memory' == Store(memory, if valid then mine[..j] else [])
    {
      var (address, value) := instruction.assignments[j];
      var ones := GetOnesMask(instruction.mask);
      var zeros := GetZerosMask(instruction.mask);
      if ones.Some? && zeros.Some? {
        var w := (address, Masked(value, ones.value, zeros.value));
        assert mine[..j + 1] == mine[..j] + [w];
        StoreAppend(memory, mine[..j], w);
        memory' := memory'[address := w.1];
      }
      j := j + 1;
    }
    assert valid ==> mine[..j] == mine;
    assert !valid ==> mine == [];
  }

  /** `execute_task_one`: every assignment writes its masked value at its (unmasked) address;
      later writes overwrite earlier ones. */
  method ExecuteTaskOne(instructions: seq<Instructions>) returns (memory: map<nat, nat>)
    ensures memory == Store(map[], WritesOne(instructions))
  {
    memory := map[];
    var i := 0;
    while i < |instructions|
      invariant i <= |instructions|
      invariant memory == Store(map[], WritesOne(instructions[..i]))
    {
      memory := WriteInstructionOne(memory, instructions[i]);
      WritesOneStep(instructions, i);
      StoreConcat(map[], WritesOne(instructions[..i]), InstructionWritesOne(instructions[i]));
      i := i + 1;
    }
    assert instructions[..i] == instructions;
  }

  /* ---------------- part two ---------------- */

  /** Two numbers with the same bits are equal. */
  lemma {:induction false} SameBits(x: nat, y: nat)
    requires forall q: nat :: Bit(x, q) == Bit(y, q)
    ensures x == y
    decreases x + y
  {
    if x != 0 || y != 0 {
      assert Bit(x, 0) == Bit(y, 0);
      forall q: nat
        ensures Bit(x / 2, q) == Bit(y / 2, q)
      {
        assert Bit(x, q + 1) == Bit(y, q + 1);
      }
      SameBits(x / 2, y / 2);
    }
  }

  /** The positions, counted from the right and from `k` on, of the mask's 'X' characters:
      `chars().rev().enumerate().filter(|c| c.1 == 'X')`. */
  function XPositionsFrom(mask: string, k: nat): (r: seq<nat>)
    requires k <= |mask|
    ensures forall i | 0 <= i < |r| :: k <= r[i] < |mask|
    ensures forall i, j | 0 <= i < j < |r| :: r[i] < r[j]
    decreases |mask| - k
  {
    if k == |mask| then []
    else (if mask[|mask| - 1 - k] == 'X' then [k] else []) + XPositionsFrom(mask, k + 1)
  }

  function XPositions(mask: string): seq<nat>
  {
    XPositionsFrom(mask, 0)
  }

  /** Exactly the positions of the 'X' characters occur. */
  lemma {:induction false} XPositionsFromMembers(mask: string, k: nat, p: nat)
    requires k <= |mask|
    ensures p in XPositionsFrom(mask, k) <==> k <= p < |mask| && mask[|mask| - 1 - p] == 'X'
    decreases |mask| - k
  {
    if k < |mask| {
      XPositionsFromMembers(mask, k + 1, p);
    }
  }

  lemma XPositionsMembers(mask: string, p: nat)
    ensures p in XPositions(mask) <==> p < |mask| && mask[|mask| - 1 - p] == 'X'
  {
    XPositionsFromMembers(mask, 0, p);
  }

  /** `.map(|c| 1 << c.0)`. */
  function Pows(ps: seq<nat>): (r: seq<nat>)
    ensures |r| == |ps| && forall i | 0 <= i < |ps| :: r[i] == Pow2(ps[i])
  {
    seq(|ps|, i requires 0 <= i < |ps| => Pow2(ps[i]))
  }

  /** Every pair with `elem` added to its first component. */
  function Bumped(buff: seq<(nat, nat)>, elem: nat): (r: seq<(nat, nat)>)
    ensures |r| == |buff| && forall i | 0 <= i < |buff| :: r[i] == (buff[i].0 + elem, buff[i].1)
  {
    seq(|buff|, i requires 0 <= i < |buff| => (buff[i].0 + elem, buff[i].1))
  }

  /** Every pair with `elem` added to its second component. */
  function Split(buff: seq<(nat, nat)>, elem: nat): (r: seq<(nat, nat)>)
    ensures |r| == |buff| && forall i | 0 <= i < |buff| :: r[i] == (buff[i].0, buff[i].1 + elem)
  {
    seq(|buff|, i requires 0 <= i < |buff| => (buff[i].0, buff[i].1 + elem))
  }

  /** The x_masks fold over the powers `elems`: from `[(0, 0)]`, every element doubles the
      list, the old pairs gaining it in their set component and the appended copies in their
      clear component. */
  function XMasksSpec(elems: seq<nat>): seq<(nat, nat)>
  {
    if elems == [] then [(0, 0)]
    else
      var buff := XMasksSpec(elems[..|elems| - 1]);
      Bumped(buff, elems[|elems| - 1]) + Split(buff, elems[|elems| - 1])
  }

  /** One step of the fold: bump every mask in place and collect the split copies. */
  method FoldStep(buff: seq<(nat, nat)>, elem: nat) returns (buff': seq<(nat, nat)>)
    ensures buff' == Bumped(buff, elem) + Split(buff, elem)
  {
    buff' := buff;
    var toAppend: seq<(nat, nat)> := [];
    var i := 0;
    while i < |buff'|
      invariant |buff'| == |buff| && i <= |buff|
      invariant forall m | 0 <= m < i :: buff'[m] == (buff[m].0 + elem, buff[m].1)
      invariant forall m | i <= m < |buff| :: buff'[m] == buff[m]
      invariant toAppend == Split(buff, elem)[..i]
    {
      var split := buff'[i];
      buff' := buff'[i := (buff'[i].0 + elem, buff'[i].1)];
      split := (split.0, split.1 + elem);
      toAppend := toAppend + [split];
      i := i + 1;
    }
    assert buff' == Bumped(buff, elem);
    buff' := buff' + toAppend;
  }

  /** The x_masks of a mask, each `1 << k` being a shift of a `usize`. */
  method XMasks(mask: string) returns (masks: seq<(nat, nat)>)
    requires forall k | k in XPositions(mask) :: k < 64
    ensures masks == XMasksSpec(Pows(XPositions(mask)))
  {
    var elems := Pows(XPositions(mask));
    masks := [(0, 0)];
    var i := 0;
    while i < |elems|
      invariant i <= |elems|
      invariant masks == XMasksSpec(elems[..i])
    {
      masks := FoldStep(masks, elems[i]);
      assert elems[..i + 1][..i] == elems[..i];
      i := i + 1;
    }
    assert elems[..i] == elems;
  }

  lemma {:induction false} XMasksCount(elems: seq<nat>)
    ensures |XMasksSpec(elems)| == Pow2(|elems|)
  {
    if elems != [] {
      XMasksCount(elems[..|elems| - 1]);
    }
  }

  /** No position occurs twice. */
  predicate Distinct(ps: seq<nat>)
  {
    ps == [] || (ps[|ps| - 1] !in ps[..|ps| - 1] && Distinct(ps[..|ps| - 1]))
  }

  /** Increasing positions, such as those of the 'X' characters, are distinct. */
  lemma {:induction false} IncreasingDistinct(ps: seq<nat>)
    requires forall i, j | 0 <= i < j < |ps| :: ps[i] < ps[j]
    ensures Distinct(ps)
  {
    if ps != [] {
      var init := ps[..|ps| - 1];
      assert forall i, j | 0 <= i < j < |init| :: init[i] < init[j];
      IncreasingDistinct(init);
    }
  }

  /** Pair `i` of the fold over `ps` is pair `k` of the fold over all but the last position,
      with the last power added to its set component when `bumped` and to its clear component
      otherwise. */
  lemma XMasksEntry(ps: seq<nat>, i: nat) returns (k: nat, bumped: bool)
    requires ps != [] && i < |XMasksSpec(Pows(ps))|
    ensures var buff, e := XMasksSpec(Pows(ps[..|ps| - 1])), Pow2(ps[|ps| - 1]);
            |XMasksSpec(Pows(ps))| == 2 * |buff| && k < |buff| &&
            i == (if bumped then k else |buff| + k) &&
            XMasksSpec(Pows(ps))[i] ==
              (buff[k].0 + (if bumped then e else 0), buff[k].1 + (if bumped then 0 else e))
  {
    assert Pows(ps)[..|ps| - 1] == Pows(ps[..|ps| - 1]);
    var buff := XMasksSpec(Pows(ps[..|ps| - 1]));
    bumped := i < |buff|;
    k := if bumped then i else i - |buff|;
  }

  /** Adding `2^p`, or nothing, to a number without bit `p`. */
  lemma Extend(a: nat, p: nat, c: bool, q: nat)
    requires !Bit(a, p)
    ensures Bit(a + (if c then Pow2(p) else 0), q) == if q == p then c else Bit(a, q)
  {
    if c {
      AddPow2Bit(a, p, q);
    }
  }

  /** Bit `q` of the set component of pair `i` of the fold over `ps`, from pair `k` of the
      fold over all but the last position. */
  lemma {:induction false} EntrySetBit(ps: seq<nat>, i: nat, q: nat) returns (k: nat, bumped: bool)
    requires Distinct(ps) && ps != [] && i < |XMasksSpec(Pows(ps))|
    ensures var buff, last := XMasksSpec(Pows(ps[..|ps| - 1])), ps[|ps| - 1];
            k < |buff| && i == (if bumped then k else |buff| + k) &&
            Bit(XMasksSpec(Pows(ps))[i].0, q) == (if q == last then bumped else Bit(buff[k].0, q))
    decreases |ps|, 0
  {
    var init, last := ps[..|ps| - 1], ps[|ps| - 1];
    k, bumped := XMasksEntry(ps, i);
    var n := XMasksSpec(Pows(init))[k];
    assert !Bit(n.0, last) by { XMasksBits(init, k, last); }
    Extend(n.0, last, bumped, q);
  }

  /** Bit `q` of the clear component of pair `i`, likewise. */
  lemma {:induction false} EntryClearBit(ps: seq<nat>, i: nat, q: nat) returns (k: nat, bumped: bool)
    requires Distinct(ps) && ps != [] && i < |XMasksSpec(Pows(ps))|
    ensures var buff, last := XMasksSpec(Pows(ps[..|ps| - 1])), ps[|ps| - 1];
            k < |buff| && i == (if bumped then k else |buff| + k) &&
            Bit(XMasksSpec(Pows(ps))[i].1, q) == (if q == last then !bumped else Bit(buff[k].1, q))
    decreases |ps|, 0
  {
    var init, last := ps[..|ps| - 1], ps[|ps| - 1];
    k, bumped := XMasksEntry(ps, i);
    var n := XMasksSpec(Pows(init))[k];
    assert !Bit(n.1, last) by { XMasksBits(init, k, last); }
    Extend(n.1, last, !bumped, q);
  }

  /** Every pair of the fold over distinct positions puts each position in exactly one
      component and sets no other bit. */
  lemma {:induction false} XMasksBits(ps: seq<nat>, i: nat, q: nat)
    requires Distinct(ps)
    requires i < |XMasksSpec(Pows(ps))|
    ensures var m := XMasksSpec(Pows(ps))[i];
            !(Bit(m.0, q) && Bit(m.1, q)) && ((Bit(m.0, q) || Bit(m.1, q)) <==> q in ps)
    decreases |ps|, 1
  {
    if ps == [] {
      ZeroBits(q);
    } else {
      var init, last := ps[..|ps| - 1], ps[|ps| - 1];
      assert q in ps <==> q in init || q == last;
      var k, c := EntrySetBit(ps, i, q);
      var k', c' := EntryClearBit(ps, i, q);
      XMasksBits(init, k, q);
    }
  }

  /** Every choice of bits at the positions is the set component of some pair. */
  lemma {:induction false} XMasksCover(ps: seq<nat>, choice: seq<bool>) returns (i: nat)
    requires Distinct(ps) && |choice| == |ps|
    ensures i < |XMasksSpec(Pows(ps))|
    ensures forall k | 0 <= k < |ps| :: Bit(XMasksSpec(Pows(ps))[i].0, ps[k]) == choice[k]
  {
    if ps == [] {
      i := 0;
    } else {
      var init, last, c := ps[..|ps| - 1], ps[|ps| - 1], choice[|choice| - 1];
      var j := XMasksCover(init, choice[..|choice| - 1]);
      XMasksCount(Pows(ps));
      XMasksCount(Pows(init));
      i := if c then j else |XMasksSpec(Pows(init))| + j;
      forall k | 0 <= k < |ps|
        ensures Bit(XMasksSpec(Pows(ps))[i].0, ps[k]) == choice[k]
      {
        var j', c' := EntrySetBit(ps, i, ps[k]);
        if k < |init| {
          assert ps[k] == init[k] && ps[k] != last;
        }
      }
    }
  }

  /** Two different pairs differ in the set component at some position. */
  lemma {:induction false} XMasksDistinct(ps: seq<nat>, i: nat, j: nat) returns (q: nat)
    requires Distinct(ps)
    requires i < j < |XMasksSpec(Pows(ps))|
    ensures q in ps && Bit(XMasksSpec(Pows(ps))[i].0, q) != Bit(XMasksSpec(Pows(ps))[j].0, q)
  {
    var init, last := ps[..|ps| - 1], ps[|ps| - 1];
    var ki, ci := XMasksEntry(ps, i);
    var kj, cj := XMasksEntry(ps, j);
    if ci == cj {
      q := XMasksDistinct(init, ki, kj);
      assert q != last;
      assert q in ps by { assert init <= ps; }
    } else {
      q := last;
    }
    var ki', ci' := EntrySetBit(ps, i, q);
    var kj', cj' := EntrySetBit(ps, j, q);
  }

  /** `(address | set) & !clear` for one x_mask pair. */
  function Floated(address: nat, m: (nat, nat)): nat
  {
    AndNot(Or(address, m.0), m.1)
  }

  /** The mask character `k` places from the right is `c`. */
  predicate CharAt(mask: string, k: nat, c: char)
  {
    k < |mask| && mask[|mask| - 1 - k] == c
  }

  /** `x` is one of the addresses part two writes for `address` under `mask`: bits under a
      '1' are set, bits under an 'X' are free, the others are those of `address`. */
  ghost predicate FloatsTo(mask: string, address: nat, x: nat)
  {
    forall q: nat :: CharAt(mask, q, 'X') || Bit(x, q) == (Bit(address, q) || CharAt(mask, q, '1'))
  }

  /** Bit `q` of a floated address. */
  lemma FloatedBit(mask: string, address: nat, i: nat, q: nat)
    requires GetOnesMask(mask).Some? && i < |XMasksSpec(Pows(XPositions(mask)))|
    ensures var ps := XPositions(mask); var m := XMasksSpec(Pows(ps))[i];
            Bit(Floated(Or(address, GetOnesMask(mask).value), m), q) ==
              if CharAt(mask, q, 'X') then Bit(m.0, q) else Bit(address, q) || CharAt(mask, q, '1')
  {
    var ps, ones := XPositions(mask), GetOnesMask(mask).value;
    var m := XMasksSpec(Pows(ps))[i];
    IncreasingDistinct(ps);
    XPositionsMembers(mask, q);
    XMasksBits(ps, i, q);
    AndNotBit(Or(Or(address, ones), m.0), m.1, q);
    OrBit(Or(address, ones), m.0, q);
    OrBit(address, ones, q);
    OnesMaskBits(mask, q);
  }

  /** Every address part two writes floats from `address`. */
  lemma FloatedFloats(mask: string, address: nat, i: nat)
    requires GetOnesMask(mask).Some? && i < |XMasksSpec(Pows(XPositions(mask)))|
    ensures FloatsTo(mask, address, Floated(Or(address, GetOnesMask(mask).value), XMasksSpec(Pows(XPositions(mask)))[i]))
  {
    forall q: nat {
      FloatedBit(mask, address, i, q);
    }
  }

  /** Every address that floats from `address` is written by some pair. */
  lemma FloatsFloated(mask: string, address: nat, x: nat) returns (i: nat)
    requires GetOnesMask(mask).Some? && FloatsTo(mask, address, x)
    ensures i < |XMasksSpec(Pows(XPositions(mask)))|
    ensures Floated(Or(address, GetOnesMask(mask).value), XMasksSpec(Pows(XPositions(mask)))[i]) == x
  {
    var ps := XPositions(mask);
    IncreasingDistinct(ps);
    var choice := seq(|ps|, k requires 0 <= k < |ps| => Bit(x, ps[k]));
    i := XMasksCover(ps, choice);
    var y := Floated(Or(address, GetOnesMask(mask).value), XMasksSpec(Pows(ps))[i]);
    forall q: nat
      ensures Bit(y, q) == Bit(x, q)
    {
      FloatedBit(mask, address, i, q);
      XPositionsMembers(mask, q);
      if CharAt(mask, q, 'X') {
        var k :| 0 <= k < |ps| && ps[k] == q;
      }
    }
    SameBits(y, x);
  }

  /** Different pairs write different addresses, so an assignment under `k` floating bits
      writes `2^k` distinct addresses. */
  lemma FloatedDistinct(mask: string, address: nat, i: nat, j: nat)
    requires GetOnesMask(mask).Some? && i < j < |XMasksSpec(Pows(XPositions(mask)))|
    ensures var a, ms := Or(address, GetOnesMask(mask).value), XMasksSpec(Pows(XPositions(mask)));
            Floated(a, ms[i]) != Floated(a, ms[j])
  {
    var ps := XPositions(mask);
    IncreasingDistinct(ps);
    var q := XMasksDistinct(ps, i, j);
    XPositionsMembers(mask, q);
    FloatedBit(mask, address, i, q);
    FloatedBit(mask, address, j, q);
  }

  /** The writes of one assignment in part two: one per x_mask pair. */
  function AssignmentWritesTwo(assignment: (nat, nat), ones: nat, masks: seq<(nat, nat)>): (r: seq<(nat, nat)>)
    ensures |r| == |masks|
  {
    seq(|masks|, k requires 0 <= k < |masks| => (Floated(Or(assignment.0, ones), masks[k]), assignment.1))
  }

  /** An assignment under a parsable mask writes its value to exactly the addresses that
      float from its address, each once: `2^k` writes for `k` floating bits. */
  lemma AssignmentWritesTwoMeaning(mask: string, assignment: (nat, nat), x: nat)
    requires GetOnesMask(mask).Some?
    ensures var w := AssignmentWritesTwo(assignment, GetOnesMask(mask).value, XMasksSpec(Pows(XPositions(mask))));
            |w| == Pow2(|XPositions(mask)|) &&
            (forall k | 0 <= k < |w| :: w[k].1 == assignment.1) &&
            (forall k, l | 0 <= k < l < |w| :: w[k].0 != w[l].0) &&
            ((exists k | 0 <= k < |w| :: w[k].0 == x) <==> FloatsTo(mask, assignment.0, x))
  {
    var ms := XMasksSpec(Pows(XPositions(mask)));
    var w := AssignmentWritesTwo(assignment, GetOnesMask(mask).value, ms);
    XMasksCount(Pows(XPositions(mask)));
    forall k, l | 0 <= k < l < |w|
      ensures w[k].0 != w[l].0
    {
      FloatedDistinct(mask, assignment.0, k, l);
    }
    if exists k | 0 <= k < |w| :: w[k].0 == x {
      var k :| 0 <= k < |w| && w[k].0 == x;
      FloatedFloats(mask, assignment.0, k);
    }
    if FloatsTo(mask, assignment.0, x) {
      var k := FloatsFloated(mask, assignment.0, x);
      assert w[k].0 == x;
    }
  }

  function AssignmentsWritesTwo(assignments: seq<(nat, nat)>, ones: nat, masks: seq<(nat, nat)>): seq<(nat, nat)>
  {
    if assignments == [] then []
    else AssignmentsWritesTwo(assignments[..|assignments| - 1], ones, masks)
         + AssignmentWritesTwo(assignments[|assignments| - 1], ones, masks)
  }

  /** The writes of one instruction in part two: nothing when the ones mask fails to parse. */
  function InstructionWritesTwo(ins: Instructions): seq<(nat, nat)>
  {
    match GetOnesMask(ins.mask)
    case Some(ones) => AssignmentsWritesTwo(ins.assignments, ones, XMasksSpec(Pows(XPositions(ins.mask))))
    case None => []
  }

  function WritesTwo(instructions: seq<Instructions>): seq<(nat, nat)>
  {
    if instructions == [] then []
    else WritesTwo(instructions[..|instructions| - 1]) + InstructionWritesTwo(instructions[|instructions| - 1])
  }

  /** Every floating bit of every mask can be shifted into a `usize`. */
  predicate ShiftsFit(instructions: seq<Instructions>)
  {
    forall i, k | 0 <= i < |instructions| && k in XPositions(instructions[i].mask) :: k < 64
  }

  /** The innermost loop: one write per x_mask pair. */
  method WriteFloated(memory: map<nat, nat>, address: nat, value: nat, masks: seq<(nat, nat)>)
    returns (memory': map<nat, nat>)
    ensures memory' == Store(memory, seq(|masks|, k requires 0 <= k < |masks| => (Floated(address, masks[k]), value)))
  {
    ghost var w := seq(|masks|, k requires 0 <= k < |masks| => (Floated(address, masks[k]), value));
    memory' := memory;
    var k := 0;
    while k < |masks|
      invariant k <= |masks|
      invariant memory' == Store(memory, w[..k])
    {
      assert w[..k + 1] == w[..k] + [w[k]];
      StoreAppend(memory, w[..k], w[k]);
      memory' := memory'[AndNot(Or(address, masks[k].0), masks[k].1) := value];
      k := k + 1;
    }
    assert w[..k] == w;
  }

  /** The body of the outer loop of `execute_task_two` for one instruction. */
  method WriteInstructionTwo(memory: map<nat, nat>, instruction: Instructions) returns (memory': map<nat, nat>)
    requires forall k | k in XPositions(instruction.mask) :: k < 64
    ensures memory' == Store(memory, InstructionWritesTwo(instruction))
  {
    var onesMask := GetOnesMask(instruction.mask);
    var masks := XMasks(instruction.mask);
    memory' := memory;
    if onesMask.Some? {
      var ones := onesMask.value;
      var assignments := instruction.assignments;
      var j := 0;
      while j < |assignments|
        invariant j <= |assignments|
        invariant memory' == Store(memory, AssignmentsWritesTwo(assignments[..j], ones, masks))
      {
        var address := Or(assignments[j].0, ones);
        memory' := WriteFloated(memory', address, assignments[j].1, masks);
        assert assignments[..j + 1][..j] == assignments[..j];
        StoreConcat(memory, AssignmentsWritesTwo(assignments[..j], ones, masks), AssignmentWritesTwo(assignments[j], ones, masks));
        j := j + 1;
      }
      assert assignments[..j] == assignments;
    }
  }

  /** `execute_task_two`: every assignment writes its value at every floating address of its
      masked address; later writes overwrite earlier ones. */
  method ExecuteTaskTwo(instructions: seq<Instructions>) returns (memory: map<nat, nat>)
    requires ShiftsFit(instructions)
    ensures memory == Store(map[], WritesTwo(instructions))
  {
    memory := map[];
    var i := 0;
    while i < |instructions|
      invariant i <= |instructions|
      invariant memory == Store(map[], WritesTwo(instructions[..i]))
    {
      memory := WriteInstructionTwo(memory, instructions[i]);
      assert instructions[..i + 1][..i] == instructions[..i];
      StoreConcat(map[], WritesTwo(instructions[..i]), InstructionWritesTwo(instructions[i]));
      i := i + 1;
    }
    assert instructions[..i] == instructions;
  }

  /* ---------------- parse_lines ---------------- */

  /** A line `mask = ...`: its part before the first " = " is "mask". */
  predicate IsMaskLine(line: string)
  {
    match SplitOnce(line, " = ")
    case Some((head, _)) => head == "mask"
    case None => false
  }

  /** A mask line is "mask = " followed by the mask. */
  lemma MaskLineShape(line: string)
    requires IsMaskLine(line)
    ensures |line| >= 7 && line[..7] == "mask = " && line[7..] == SplitOnce(line, " = ").value.1
  {
    var (head, tail) := SplitOnce(line, " = ").value;
    assert line == "mask = " + tail;
  }

  /** The address between `mem[` and `]`; the source slices `head[4..len - 1]`. */
  function AddressText(head: string): string
    requires |head| >= 5
  {
    head[4..|head| - 1]
  }

  /** An assignment line's slice `head[4..len - 1]` is in range. */
  predicate AddressSliceFits(line: string)
  {
    match SplitOnce(line, " = ")
    case Some((head, _)) => head == "mask" || |head| >= 5
    case None => true
  }

  /** The (address, value) of a line `mem[a] = v`, or None when the line has no " = ", is a
      mask line, or either number fails to parse as a `usize`. */
  function LineAssignment(line: string): Option<(nat, nat)>
    requires AddressSliceFits(line)
  {
    match SplitOnce(line, " = ")
    case None => None
    case Some((head, tail)) =>
      if head == "mask" then None
      else match (ParseUnsigned(AddressText(head), USIZE_BOUND), ParseUnsigned(tail, USIZE_BOUND))
        case (Some(address), Some(value)) => Some((address, value))
        case _ => None
  }

  /** The loop state of `parse_lines`: the current mask line, its assignments so far, and the
      finished groups. */
  datatype ParseState = ParseState(mask: string, assignments: seq<(nat, nat)>, result: seq<Instructions>)

  /** A mask line closes the current group, stripping "mask = " from its mask, and opens a new
      one; an assignment line extends the current group; other lines are dropped. */
  function ParseStep(st: ParseState, line: string): ParseState
    requires AddressSliceFits(line)
    requires IsMaskLine(line) ==> |st.mask| >= 7
  {
    if IsMaskLine(line) then ParseState(line, [], st.result + [Instructions(st.mask[7..], st.assignments)])
    else match LineAssignment(line)
      case Some(assignment) => st.(assignments := st.assignments + [assignment])
      case None => st
  }

  function CountMaskLines(lines: seq<string>): nat
  {
    if lines == [] then 0
    else CountMaskLines(lines[..|lines| - 1]) + (if IsMaskLine(lines[|lines| - 1]) then 1 else 0)
  }

  /** What `parse_lines` needs of its input so that no slice panics: the first line, when a
      later mask line closes its group, has at least the 7 characters of "mask = ", and every
      later assignment head has room for `mem[` and `]`. */
  predicate Parsable(lines: seq<string>)
  {
    lines != [] ==>
      (CountMaskLines(lines[1..]) > 0 ==> |lines[0]| >= 7) &&
      forall i | 1 <= i < |lines| :: AddressSliceFits(lines[i])
  }

  /** The mask lines opening the groups: the first line, then every later mask line. */
  function MaskLineList(first: string, lines: seq<string>): (r: seq<string>)
    ensures |r| == 1 + CountMaskLines(lines) && r[0] == first
  {
    if lines == [] then [first]
    else MaskLineList(first, lines[..|lines| - 1]) + (if IsMaskLine(lines[|lines| - 1]) then [lines[|lines| - 1]] else [])
  }

  /** The assignments of the assignment lines, in order. */
  function ParsedAssignments(lines: seq<string>): seq<(nat, nat)>
    requires forall i | 0 <= i < |lines| :: AddressSliceFits(lines[i])
  {
    if lines == [] then []
    else ParsedAssignments(lines[..|lines| - 1]) +
         match LineAssignment(lines[|lines| - 1]) case Some(a) => [a] case None => []
  }

  function Flatten(groups: seq<Instructions>): seq<(nat, nat)>
  {
    if groups == [] then [] else Flatten(groups[..|groups| - 1]) + groups[|groups| - 1].assignments
  }

  /** A mask of at least 7 characters, or one that never reaches a mask line. */
  predicate Strippable(first: string, lines: seq<string>)
  {
    CountMaskLines(lines) > 0 ==> |first| >= 7
  }

  /** The state after the loop of `parse_lines` over `lines`, starting from mask `first`. */
  function ParseFold(first: string, lines: seq<string>): ParseState
    requires forall i | 0 <= i < |lines| :: AddressSliceFits(lines[i])
    requires Strippable(first, lines)
    decreases |lines|, 1
  {
    if lines == [] then ParseState(first, [], [])
    else
      var init := lines[..|lines| - 1];
      assert CountMaskLines(init) <= CountMaskLines(lines);
      var st := ParseFold(first, init);
      assert |st.mask| >= 7 || !IsMaskLine(lines[|lines| - 1]) by { FoldMask(first, init); }
      ParseStep(st, lines[|lines| - 1])
  }

  /** The current mask of the fold is the last mask line seen, or `first`. */
  lemma {:induction false} FoldMask(first: string, lines: seq<string>)
    requires forall i | 0 <= i < |lines| :: AddressSliceFits(lines[i])
    requires Strippable(first, lines)
    ensures |ParseFold(first, lines).mask| >= 7 || ParseFold(first, lines).mask == first
    ensures ParseFold(first, lines).mask == MaskLineList(first, lines)[CountMaskLines(lines)]
    ensures |ParseFold(first, lines).result| == CountMaskLines(lines)
    decreases |lines|, 2
  {
    if lines != [] {
      var init := lines[..|lines| - 1];
      assert CountMaskLines(init) <= CountMaskLines(lines);
      FoldMask(first, init);
      if IsMaskLine(lines[|lines| - 1]) {
        MaskLineShape(lines[|lines| - 1]);
      }
    }
  }

  lemma {:induction false} CountMaskLinesPrefix(lines: seq<string>, j: nat)
    requires j <= |lines|
    ensures CountMaskLines(lines[..j]) <= CountMaskLines(lines)
  {
    if j < |lines| {
      assert lines[..|lines| - 1][..j] == lines[..j];
      CountMaskLinesPrefix(lines[..|lines| - 1], j);
    } else {
      assert lines[..j] == lines;
    }
  }

  /** One pass of the loop of `parse_lines`. */
  method ParseLine(mask: string, assignments: seq<(nat, nat)>, result: seq<Instructions>, line: string)
    returns (mask': string, assignments': seq<(nat, nat)>, result': seq<Instructions>)
    requires AddressSliceFits(line)
    requires IsMaskLine(line) ==> |mask| >= 7
    ensures ParseState(mask', assignments', result') == ParseStep(ParseState(mask, assignments, result), line)
  {
    mask', assignments', result' := mask, assignments, result;
    match SplitOnce(line, " = ") {
      case Some((head, tail)) =>
        if head == "mask" {
          result' := result + [Instructions(mask[7..], assignments)];
          assignments' := [];
          mask' := line;
        } else {
          var address := ParseUnsigned(head[4..|head| - 1], USIZE_BOUND);
          var value := ParseUnsigned(tail, USIZE_BOUND);
          if address.Some? && value.Some? {
            assignments' := assignments + [(address.value, value.value)];
          }
        }
      case None =>
    }
  }

  /** The fold over one more line is one more step. */
  lemma ParseFoldStep(first: string, rest: seq<string>, i: nat)
    requires i < |rest|
    requires forall j | 0 <= j < |rest| :: AddressSliceFits(rest[j])
    requires Strippable(first, rest)
    ensures Strippable(first, rest[..i]) && Strippable(first, rest[..i + 1])
    ensures IsMaskLine(rest[i]) ==> |ParseFold(first, rest[..i]).mask| >= 7
    ensures ParseFold(first, rest[..i + 1]) == ParseStep(ParseFold(first, rest[..i]), rest[i])
  {
    CountMaskLinesPrefix(rest, i);
    CountMaskLinesPrefix(rest, i + 1);
    assert rest[..i + 1][..i] == rest[..i];
    FoldMask(first, rest[..i]);
  }

  /** `parse_lines`: the first line opens the first group; the loop over the rest keeps the
      current mask line, its assignments and the finished groups. */
  method ParseLines(lines: seq<string>) returns (result: seq<Instructions>)
    requires Parsable(lines)
    ensures result == ParseLinesSpec(lines)
  {
    result := [];
    if |lines| > 0 {
      var mask := lines[0];
      var rest := lines[1..];
      var assignments: seq<(nat, nat)> := [];
      var i := 0;
      assert rest[..0] == [];
      while i < |rest|
        invariant i <= |rest|
        invariant Strippable(lines[0], rest[..i])
        invariant ParseFold(lines[0], rest[..i]) == ParseState(mask, assignments, result)
      {
        ParseFoldStep(lines[0], rest, i);
        mask, assignments, result := ParseLine(mask, assignments, result, rest[i]);
        i := i + 1;
      }
      assert rest[..i] == rest;
      result := result + [Instructions(mask, assignments)];
    }
  }

  /** A shorter input's mask lines are a prefix of a longer one's. */
  lemma MaskLineListPrefix(first: string, lines: seq<string>)
    requires lines != []
    ensures MaskLineList(first, lines[..|lines| - 1]) <= MaskLineList(first, lines)
  {
  }

  /** Every closed group carries its mask line without "mask = ". */
  lemma {:induction false} FoldGroupMask(first: string, lines: seq<string>, g: nat)
    requires forall i | 0 <= i < |lines| :: AddressSliceFits(lines[i])
    requires Strippable(first, lines)
    requires g < |ParseFold(first, lines).result|
    ensures var masks := MaskLineList(first, lines);
            g < |masks| && |masks[g]| >= 7 && ParseFold(first, lines).result[g].mask == masks[g][7..]
  {
    var init, line := lines[..|lines| - 1], lines[|lines| - 1];
    assert CountMaskLines(init) <= CountMaskLines(lines);
    var st := ParseFold(first, init);
    FoldMask(first, init);
    MaskLineListPrefix(first, lines);
    if g < |st.result| {
      FoldGroupMask(first, init, g);
    }
  }

  /** The groups with the current one hold the assignment lines in order. */
  lemma {:induction false} FoldAssignments(first: string, lines: seq<string>)
    requires forall i | 0 <= i < |lines| :: AddressSliceFits(lines[i])
    requires Strippable(first, lines)
    ensures Flatten(ParseFold(first, lines).result) + ParseFold(first, lines).assignments == ParsedAssignments(lines)
  {
    if lines != [] {
      var init, line := lines[..|lines| - 1], lines[|lines| - 1];
      assert CountMaskLines(init) <= CountMaskLines(lines);
      FoldAssignments(first, init);
      var st := ParseFold(first, init);
      if IsMaskLine(line) {
        FoldMask(first, init);
        var groups := st.result + [Instructions(st.mask[7..], st.assignments)];
        assert groups[..|groups| - 1] == st.result;
      }
    }
  }

  /** `parse_lines` as written: the first line is the first mask; every mask line closes the
      current group with "mask = " stripped from its mask, but the final group is pushed with
      its mask line in full. */
  function ParseLinesSpec(lines: seq<string>): seq<Instructions>
    requires Parsable(lines)
  {
    if lines == [] then []
    else
      var st := ParseFold(lines[0], lines[1..]);
      st.result + [Instructions(st.mask, st.assignments)]
  }

  /** The groups of `parse_lines`: one per mask line, the last keeping its mask line whole,
      and together all parsed assignments in order. */
  lemma ParseLinesGroups(lines: seq<string>)
    requires Parsable(lines)
    ensures lines == [] ==> ParseLinesSpec(lines) == []
    ensures lines != [] ==>
              var r, masks := ParseLinesSpec(lines), MaskLineList(lines[0], lines[1..]);
              |r| == |masks| &&
              (forall g | 0 <= g < |r| - 1 :: |masks[g]| >= 7 && r[g].mask == masks[g][7..]) &&
              r[|r| - 1].mask == masks[|masks| - 1] &&
              Flatten(r) == ParsedAssignments(lines[1..])
  {
    if lines != [] {
      FoldMask(lines[0], lines[1..]);
      FoldAssignments(lines[0], lines[1..]);
      var st := ParseFold(lines[0], lines[1..]);
      var r := st.result + [Instructions(st.mask, st.assignments)];
      assert r[..|r| - 1] == st.result;
      forall g | 0 <= g < |r| - 1
        ensures |MaskLineList(lines[0], lines[1..])[g]| >= 7
        ensures r[g].mask == MaskLineList(lines[0], lines[1..])[g][7..]
      {
        FoldGroupMask(lines[0], lines[1..], g);
      }
    }
  }

  /** When a mask line follows the first line, the final group's mask still starts with
      "mask = ", unlike every other group's. */
  lemma LastGroupKeepsPrefix(lines: seq<string>)
    requires Parsable(lines) && lines != [] && CountMaskLines(lines[1..]) > 0
    ensures var r := ParseLinesSpec(lines);
            |r[|r| - 1].mask| >= 7 && r[|r| - 1].mask[..7] == "mask = "
  {
    ParseLinesGroups(lines);
    var masks := MaskLineList(lines[0], lines[1..]);
    MaskLineListMasks(lines[0], lines[1..], |masks| - 1);
    MaskLineShape(masks[|masks| - 1]);
  }

  /** Every entry after the first of the mask line list is a mask line. */
  lemma {:induction false} MaskLineListMasks(first: string, lines: seq<string>, g: nat)
    requires 0 < g < |MaskLineList(first, lines)|
    ensures IsMaskLine(MaskLineList(first, lines)[g])
  {
    if lines != [] {
      var init := lines[..|lines| - 1];
      if g < |MaskLineList(first, init)| {
        MaskLineListMasks(first, init, g);
      }
    }
  }

  /** `parse_lines` with the final group's mask stripped like the others: needs the first
      line to hold a whole "mask = " prefix. */
  predicate ParsableFixed(lines: seq<string>)
  {
    Parsable(lines) && (lines != [] ==> |lines[0]| >= 7)
  }

  function ParseLinesFixed(lines: seq<string>): seq<Instructions>
    requires ParsableFixed(lines)
  {
    if lines == [] then []
    else
      var st := ParseFold(lines[0], lines[1..]);
      assert |st.mask| >= 7 by { FoldMask(lines[0], lines[1..]); }
      st.result + [Instructions(st.mask[7..], st.assignments)]
  }

  /** With the fix every group carries the text after "mask = " of its mask line. */
  lemma ParseLinesFixedGroups(lines: seq<string>)
    requires ParsableFixed(lines)
    ensures lines == [] ==> ParseLinesFixed(lines) == []
    ensures lines != [] ==>
              var r, masks := ParseLinesFixed(lines), MaskLineList(lines[0], lines[1..]);
              |r| == |masks| &&
              (forall g | 0 <= g < |r| :: |masks[g]| >= 7 && r[g].mask == masks[g][7..]) &&
              Flatten(r) == ParsedAssignments(lines[1..])
  {
    if lines != [] {
      var first, rest := lines[0], lines[1..];
      FoldMask(first, rest);
      FoldAssignments(first, rest);
      var st, masks := ParseFold(first, rest), MaskLineList(first, rest);
      var r := st.result + [Instructions(st.mask[7..], st.assignments)];
      assert r == ParseLinesFixed(lines);
      assert r[..|r| - 1] == st.result;
      assert st.mask == masks[|r| - 1] && |st.mask| >= 7;
      forall g | 0 <= g < |r|
        ensures |masks[g]| >= 7 && r[g].mask == masks[g][7..]
      {
        if g < |r| - 1 {
          FoldGroupMask(first, rest, g);
        }
      }
    }
  }

  /** A binary string of `n` digits has a value below `2^n`. */
  lemma {:induction false} BitsValueBelow(bits: seq<bool>)
    ensures BitsValue(bits) < Pow2(|bits|)
  {
    if bits != [] {
      BitsValueBelow(bits[..|bits| - 1]);
    }
  }

  lemma {:induction false} Pow2Monotone(a: nat, b: nat)
    requires a <= b
    ensures Pow2(a) <= Pow2(b)
    decreases b
  {
    if a < b {
      Pow2Monotone(a, b - 1);
    }
  }

  lemma {:induction false} Pow2Sum(a: nat, b: nat)
    ensures Pow2(a + b) == Pow2(a) * Pow2(b)
  {
    if b > 0 {
      Pow2Sum(a, b - 1);
    }
  }

  lemma Pow2Square(k: nat, v: nat)
    requires Pow2(k) == v
    ensures Pow2(k + k) == v * v
  {
    Pow2Sum(k, k);
  }

  /** `usize` holds exactly 64 bits. */
  lemma Pow2UsizeBits(bits: nat)
    requires bits == 64
    ensures Pow2(bits) == USIZE_BOUND
  {
    var k := bits / 64;
    assert Pow2(k) == 2;
    Pow2Square(k, 2);
    Pow2Square(2 * k, 4);
    Pow2Square(4 * k, 16);
    Pow2Square(8 * k, 256);
    Pow2Square(16 * k, 0x1_0000);
    Pow2Square(32 * k, 0x1_0000_0000);
  }

  /** Every non-empty mask of at most 64 characters, such as the puzzle's 36-character masks,
      yields both part-one masks. */
  lemma ShortMaskParses(mask: string)
    requires 0 < |mask| <= 64
    ensures GetOnesMask(mask).Some? && GetZerosMask(mask).Some?
  {
    Pow2UsizeBits(64);
    Pow2Monotone(|mask|, 64);
    BitsValueBelow(OnesBits(mask));
    BitsValueBelow(ZerosBits(mask));
  }

  /** The final group of a parse keeps "mask = " in front of its mask, and under part one the
      characters of that prefix, none of them '0', keep value bits the mask would clear: with
      mask "X" the value 2 is stored as 0, under "mask = X" it is stored as 2's bit 1 intact. */
  lemma KeptPrefixChangesTaskOne(full: string, stripped: string)
    requires full == "mask = X" && stripped == "X"
    ensures var wrong := Store(map[], WritesOne([Instructions(full, [(0, 2)])]));
            0 in wrong && wrong[0] != 0
    ensures var right := Store(map[], WritesOne([Instructions(stripped, [(0, 2)])]));
            0 in right && right[0] == 0
  {
    ShortMaskParses(full);
    ShortMaskParses(stripped);
    assert |full| == 8 && full[6] == ' ' && |stripped| == 1 && stripped[0] == 'X';
    var one := [Instructions(full, [(0, 2)])];
    assert one[..0] == [];
    var w := Masked(2, GetOnesMask(full).value, GetZerosMask(full).value);
    assert WritesOne(one) == [(0, w)];
    assert Bit(w, 1) by {
      MaskedBits(full, 2, 1);
      assert Bit(2, 1) by { assert 2 / 2 == 1; }
    }
    assert w != 0 by { ZeroBits(1); }
    var other := [Instructions(stripped, [(0, 2)])];
    assert other[..0] == [];
    var v := Masked(2, GetOnesMask(stripped).value, GetZerosMask(stripped).value);
    assert WritesOne(other) == [(0, v)];
    forall q: nat
      ensures Bit(v, q) == Bit(0, q)
    {
      MaskedBits(stripped, 2, q);
      ZeroBits(q);
      if q == 0 {
        assert 2 % 2 == 0;
      }
    }
    SameBits(v, 0);
  }
}
