/** Handheld halting (src/day_eight.rs): a program of NOP, ACC and JMP instructions runs
    from instruction 0 with an accumulator of 0 until it revisits an instruction or its
    program counter leaves the program; the repair search swaps one NOP or JMP at a time. */
module DayEight {
  import opened Common

  datatype Instruction = NOP(amount: int) | ACC(amount: int) | JMP(amount: int)

  /** One instruction: NOP adds 1 to the program counter, ACC adds its amount to the sum
      and 1 to the program counter, JMP adds its offset to the program counter. The counter
      is a `usize`, so a jump below 0 wraps around to 2^64 minus the shortfall. */
  function Step(prog: seq<Instruction>, pc: nat, sum: int): (r: (nat, int))
    requires pc < |prog|
    ensures prog[pc].NOP? ==> r == (pc + 1, sum)
    ensures prog[pc].ACC? ==> r == (pc + 1, sum + prog[pc].amount)
    ensures prog[pc].JMP? ==> r.1 == sum && r.0 < USIZE_BOUND
    ensures prog[pc].JMP? && 0 <= pc + prog[pc].amount < USIZE_BOUND ==> r.0 == pc + prog[pc].amount
    ensures prog[pc].JMP? && 0 <= USIZE_BOUND + pc + prog[pc].amount && pc + prog[pc].amount < 0 ==>
              r.0 == USIZE_BOUND + pc + prog[pc].amount
  {
    match prog[pc]
    case NOP(_) => (pc + 1, sum)
    case ACC(a) => (pc + 1, sum + a)
    case JMP(a) => ((pc + a) % USIZE_BOUND, sum)
  }

  /** The instruction indices below `n`. */
  function Range(n: nat): (r: set<nat>)
    ensures forall i: nat :: i in r <==> i < n
  {
    if n == 0 then {} else Range(n - 1) + {n - 1}
  }

  /** The loop of `get_loop_info` from program counter `pc`, with the instructions in
      `visited` already executed. */
  function Run(prog: seq<Instruction>, pc: nat, sum: int, visited: set<nat>): (nat, int)
    decreases Range(|prog|) - visited
  {
    if pc in visited || pc >= |prog| then (pc, sum)
    else
      assert pc in Range(|prog|);
      var (next, sum') := Step(prog, pc, sum);
      Run(prog, next, sum', visited + {pc})
  }

  /** `get_loop_info`: the program counter and the sum at the first revisited instruction
      or at the first program counter at or past the end. */
  function LoopInfo(prog: seq<Instruction>): (nat, int)
  {
    Run(prog, 0, 0, {})
  }

  /** With `isize` offsets and fewer than 2^63 instructions, a jump below 0 wraps around to
      a program counter past the end, so the loop returns that counter. */
  lemma WrappedJumpEnds(prog: seq<Instruction>, pc: nat, sum: int, visited: set<nat>)
    requires pc < |prog| < -ISIZE_MIN && pc !in visited
    requires prog[pc].JMP? && ISIZE_MIN <= prog[pc].amount && pc + prog[pc].amount < 0
    ensures Step(prog, pc, sum).0 >= |prog|
    ensures Run(prog, pc, sum, visited) == (USIZE_BOUND + pc + prog[pc].amount, sum)
  {
    assert pc in Range(|prog|);
  }

  /** `get_loop_info` as the source writes it, over a `visited` set. */
  method GetLoopInfo(prog: seq<Instruction>) returns (pc: nat, sum: int)
    ensures (pc, sum) == LoopInfo(prog)
  {
    var visited: set<nat> := {};
    pc, sum := 0, 0;
    while true
      invariant Run(prog, pc, sum, visited) == LoopInfo(prog)
      decreases Range(|prog|) - visited
    {
      if pc in visited || pc >= |prog| {
        return;
      }
      assert pc in Range(|prog|);
      visited := visited + {pc};
      match prog[pc]
      case ACC(amount) =>
        sum := sum + amount;
        pc := pc + 1;
      case JMP(amount) =>
        pc := (pc + amount) % USIZE_BOUND;
      case NOP(_) =>
        pc := pc + 1;
    }
  }

  /** Reference semantics: the state after `k` steps from (0, 0); a state past the end of
      the program stays put. */
  function Exec(prog: seq<Instruction>, k: nat): (nat, int)
  {
    if k == 0 then (0, 0)
    else
      var (pc, sum) := Exec(prog, k - 1);
      if pc >= |prog| then (pc, sum) else Step(prog, pc, sum)
  }

  /** The program counters of the first `k` states. */
  function PcsBefore(prog: seq<Instruction>, k: nat): set<nat>
  {
    set j | 0 <= j < k :: Exec(prog, j).0
  }

  /** The run stops at step `k`: its program counter is past the end or was seen before. */
  predicate Stops(prog: seq<Instruction>, k: nat)
  {
    Exec(prog, k).0 >= |prog| || Exec(prog, k).0 in PcsBefore(prog, k)
  }

  lemma PcsBeforeStep(prog: seq<Instruction>, k: nat)
    ensures PcsBefore(prog, k + 1) == PcsBefore(prog, k) + {Exec(prog, k).0}
  {
  }

  lemma {:induction false} SubsetOfRange(s: set<nat>, n: nat)
    requires s <= Range(n)
    ensures |s| <= n
  {
    if n > 0 {
      var n' := n - 1;
      assert s - {n'} <= Range(n');
      SubsetOfRange(s - {n'}, n');
    } else {
      assert s == {};
    }
  }

  /** Before the run stops, its program counters are distinct instructions of the program,
      so it stops within `|prog|` steps. */
  lemma {:induction false} NoStopBefore(prog: seq<Instruction>, k: nat)
    requires forall j | 0 <= j < k :: !Stops(prog, j)
    ensures PcsBefore(prog, k) <= Range(|prog|) && |PcsBefore(prog, k)| == k && k <= |prog|
  {
    if k > 0 {
      NoStopBefore(prog, k - 1);
      var before, pc := PcsBefore(prog, k - 1), Exec(prog, k - 1).0;
      PcsBeforeStep(prog, k - 1);
      assert !Stops(prog, k - 1);
      assert pc !in before && pc < |prog|;
      assert |before + {pc}| == k && before + {pc} <= Range(|prog|);
      assert PcsBefore(prog, k) == before + {pc};
      SubsetOfRange(before + {pc}, |prog|);
    }
  }

  /** From step `i`, if the run has not stopped yet, the loop returns the state of the
      first step at which it stops. */
  lemma {:induction false} RunFromStep(prog: seq<Instruction>, i: nat) returns (k: nat)
    requires forall j | 0 <= j < i :: !Stops(prog, j)
    ensures i <= k <= |prog| && Stops(prog, k) && forall j | 0 <= j < k :: !Stops(prog, j)
    ensures Run(prog, Exec(prog, i).0, Exec(prog, i).1, PcsBefore(prog, i)) == Exec(prog, k)
    decreases |prog| - i
  {
    NoStopBefore(prog, i);
    if Stops(prog, i) {
      k := i;
    } else {
      var (pc, sum) := Exec(prog, i);
      var before := PcsBefore(prog, i);
      assert pc < |prog| && pc !in before;
      var (pc', sum') := Step(prog, pc, sum);
      assert Exec(prog, i + 1) == (pc', sum');
      assert Run(prog, pc, sum, before) == Run(prog, pc', sum', before + {pc});
      PcsBeforeStep(prog, i);
      forall j | 0 <= j < i + 1 ensures !Stops(prog, j) {
        if j < i {
          assert !Stops(prog, j);
        }
      }
      NoStopBefore(prog, i + 1);
      k := RunFromStep(prog, i + 1);
    }
  }

  /** The loop returns the state at the first step whose program counter is past the end
      or revisited, and that step comes within `|prog|` steps (so the loop runs at most
      `|prog| + 1` times). */
  lemma LoopInfoFirstStop(prog: seq<Instruction>) returns (k: nat)
    ensures k <= |prog| && LoopInfo(prog) == Exec(prog, k)
    ensures Stops(prog, k) && forall j | 0 <= j < k :: !Stops(prog, j)
  {
    assert PcsBefore(prog, 0) == {};
    k := RunFromStep(prog, 0);
  }

  /** The repaired instruction: NOP and JMP trade places, ACC has none. */
  function Swap(i: Instruction): (r: Option<Instruction>)
    ensures r.Some? <==> !i.ACC?
    ensures r.Some? ==> r.value.amount == i.amount && (i.NOP? <==> r.value.JMP?)
  {
    match i
    case NOP(x) => Some(JMP(x))
    case JMP(x) => Some(NOP(x))
    case ACC(_) => None
  }

  function Patch(prog: seq<Instruction>, c: nat): (p: seq<Instruction>)
    requires c < |prog| && !prog[c].ACC?
    ensures |p| == |prog|
  {
    prog[c := Swap(prog[c]).value]
  }

  /** The result of running the program repaired at `c`. */
  function Trial(prog: seq<Instruction>, c: nat): (nat, int)
    requires c < |prog| && !prog[c].ACC?
  {
    LoopInfo(Patch(prog, c))
  }

  /** The repaired program runs off its end exactly at `|prog|`. */
  predicate Fixed(prog: seq<Instruction>, c: nat)
    requires c < |prog| && !prog[c].ACC?
  {
    Trial(prog, c).0 == |prog|
  }

  /** The loop of `get_proper_result` from trial `count`, with the last trial's results. */
  function ProperFrom(prog: seq<Instruction>, count: nat, sum: int, last: nat): int
    requires count <= |prog|
    decreases |prog| - count
  {
    if last == |prog| || count == |prog| then sum
    else if prog[count].ACC? then ProperFrom(prog, count + 1, sum, last)
    else
      var (pc, s) := Trial(prog, count);
      ProperFrom(prog, count + 1, s, pc)
  }

  /** `get_proper_result`: the sum of the first repaired program that runs off its end. */
  function ProperResult(prog: seq<Instruction>): int
  {
    ProperFrom(prog, 0, 0, 0)
  }

  /** When instruction `c` is the first whose repair makes the program run off its end
      exactly, the result is that repaired program's sum. */
  lemma ProperResultFirstFix(prog: seq<Instruction>, c: nat)
    requires c < |prog| && !prog[c].ACC? && Fixed(prog, c)
    requires forall d | 0 <= d < c && !prog[d].ACC? :: !Fixed(prog, d)
    ensures ProperResult(prog) == Trial(prog, c).1
  {
    if |prog| == 0 {
    } else {
      ProperFromFix(prog, 0, 0, 0, c);
    }
  }

  lemma {:induction false} ProperFromFix(prog: seq<Instruction>, count: nat, sum: int, last: nat, c: nat)
    requires count <= c < |prog| && !prog[c].ACC? && Fixed(prog, c)
    requires last != |prog|
    requires forall d | count <= d < c && !prog[d].ACC? :: !Fixed(prog, d)
    ensures ProperFrom(prog, count, sum, last) == Trial(prog, c).1
    decreases c - count
  {
    if count == c {
      assert ProperFrom(prog, count, sum, last) == ProperFrom(prog, count + 1, Trial(prog, c).1, |prog|);
    } else if prog[count].ACC? {
      ProperFromFix(prog, count + 1, sum, last, c);
    } else {
      assert !Fixed(prog, count);
      ProperFromFix(prog, count + 1, Trial(prog, count).1, Trial(prog, count).0, c);
    }
  }

  /** With no repair that makes the program run off its end exactly, the result is the
      sum of the last repaired program tried, or 0 when there is no NOP or JMP. */
  lemma {:induction false} ProperResultNoFix(prog: seq<Instruction>)
    requires forall d | 0 <= d < |prog| && !prog[d].ACC? :: !Fixed(prog, d)
    ensures (forall d | 0 <= d < |prog| :: prog[d].ACC?) ==> ProperResult(prog) == 0
  {
    if |prog| > 0 {
      ProperFromAllAcc(prog, 0, 0, 0);
    }
  }

  lemma {:induction false} ProperFromAllAcc(prog: seq<Instruction>, count: nat, sum: int, last: nat)
    requires count <= |prog|
    ensures (forall d | count <= d < |prog| :: prog[d].ACC?) ==> ProperFrom(prog, count, sum, last) == sum
    decreases |prog| - count
  {
    if count < |prog| && last != |prog| {
      ProperFromAllAcc(prog, count + 1, sum, last);
    }
  }

  /** `get_proper_result` as the source writes it: each NOP or JMP in turn is swapped in
      place, the program is run, and the instruction is put back. The program is unchanged
      on return. */
  method GetProperResult(prog: array<Instruction>) returns (sum: int)
    modifies prog
    ensures prog[..] == old(prog[..])
    ensures sum == ProperResult(prog[..])
  {
    ghost var original := prog[..];
    sum := 0;
    var last := 0;
    var count := 0;
    while last != prog.Length && count != prog.Length
      invariant count <= prog.Length && prog[..] == original
      invariant ProperFrom(original, count, sum, last) == ProperResult(original)
      decreases prog.Length - count
    {
      var replacement := Swap(prog[count]);
      if replacement.Some? {
        var current := prog[count];
        prog[count] := replacement.value;
        assert prog[..] == Patch(original, count);
        var pc, s := GetLoopInfo(prog[..]);
        assert (pc, s) == Trial(original, count);
        sum := s;
        last := pc;
        prog[count] := current;
        assert prog[..] == original;
      }
      count := count + 1;
    }
  }

  /** A jump below 0 ends the run at the wrapped-around counter; and a repair search that
      never tries a backward jump patch: repairing instruction 0 already runs off the end. */
  lemma WrapExamples(prog: seq<Instruction>, other: seq<Instruction>)
    requires prog == [JMP(-1)] && other == [NOP(1), NOP(-5)]
    ensures LoopInfo(prog) == (USIZE_BOUND - 1, 0)
    ensures Fixed(other, 0) && ProperResult(other) == 0
  {
    assert Run(prog, 0, 0, {}) == Run(prog, USIZE_BOUND - 1, 0, {0});
    var p := Patch(other, 0);
    assert p == [JMP(1), NOP(-5)];
    assert Step(p, 0, 0) == (1, 0);
    assert {} + {0} == {0} && {0} + {1} == {0, 1};
    assert Run(p, 0, 0, {}) == Run(p, 1, 0, {0});
    assert Run(p, 1, 0, {0}) == Run(p, 2, 0, {0, 1});
    ProperResultFirstFix(other, 0);
  }

  /** The source's test. */
  lemma Example(prog: seq<Instruction>)
    requires prog == [NOP(3), ACC(3), JMP(2), ACC(4), ACC(5), JMP(-2)]
    ensures LoopInfo(prog) == (4, 12)
  {
    assert {} + {0} == {0} && {0} + {1} == {0, 1} && {0, 1} + {2} == {0, 1, 2};
    assert {0, 1, 2} + {4} == {0, 1, 2, 4} && {0, 1, 2, 4} + {5} == {0, 1, 2, 4, 5};
    assert {0, 1, 2, 4, 5} + {3} == {0, 1, 2, 3, 4, 5};
    assert Run(prog, 0, 0, {}) == Run(prog, 1, 0, {0});
    assert Run(prog, 1, 0, {0}) == Run(prog, 2, 3, {0, 1});
    assert Run(prog, 2, 3, {0, 1}) == Run(prog, 4, 3, {0, 1, 2});
    assert Run(prog, 4, 3, {0, 1, 2}) == Run(prog, 5, 8, {0, 1, 2, 4});
    assert Run(prog, 5, 8, {0, 1, 2, 4}) == Run(prog, 3, 8, {0, 1, 2, 4, 5});
    assert Run(prog, 3, 8, {0, 1, 2, 4, 5}) == Run(prog, 4, 12, {0, 1, 2, 3, 4, 5});
  }
}
