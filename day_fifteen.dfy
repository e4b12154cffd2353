/** Rambunctious recitation (src/day_fifteen.rs): the memory game. After the starting numbers,
    each turn speaks 0 when the previous number was new, and otherwise how many turns lie
    between its last two utterances. Turns are counted from 1. */
module DayFifteen {
  import opened Common

  /* ---------------- the game ---------------- */

  /** The latest turn (1-based) at which `v` was spoken in `spoken`. */
  function PrevTurn(spoken: seq<nat>, v: nat): (r: Option<nat>)
    ensures r.None? <==> v !in spoken
    ensures r.Some? ==> 1 <= r.value <= |spoken| && spoken[r.value - 1] == v &&
                        forall j | r.value <= j < |spoken| :: spoken[j] != v
  {
    if spoken == [] then None
    else if spoken[|spoken| - 1] == v then Some(|spoken|)
    else PrevTurn(spoken[..|spoken| - 1], v)
  }

  /** The number the game speaks after `spoken`: 0 when the last number was new, otherwise
      the age of its previous utterance. */
  function Next(spoken: seq<nat>): nat
    requires spoken != []
  {
    match PrevTurn(spoken[..|spoken| - 1], spoken[|spoken| - 1])
    case None => 0
    case Some(p) => |spoken| - p
  }

  /** The game played from `spoken` until turn `turns`. */
  function Play(spoken: seq<nat>, turns: nat): (r: seq<nat>)
    requires spoken != []
    ensures |r| == if turns <= |spoken| then |spoken| else turns
  {
    if turns <= |spoken| then spoken
    else
      var before := Play(spoken, turns - 1);
      before + [Next(before)]
  }

  /** Each turn past the start extends the game by one rule step. */
  lemma PlayStep(spoken: seq<nat>, turns: nat)
    requires spoken != [] && |spoken| <= turns
    ensures Play(spoken, turns + 1) == Play(spoken, turns) + [Next(Play(spoken, turns))]
  {
  }

  /** The memory game on the starting numbers. */
  function Game(input: seq<nat>, turns: nat): seq<nat>
    requires input != []
  {
    Play(input, turns)
  }

  /* ---------------- the map of last turns ---------------- */

  /** Every number spoken mapped to the latest turn it was spoken: the `collect` of
      `(v, i + 1)` pairs, where a later pair overwrites an earlier one. */
  function LastTurns(spoken: seq<nat>): (m: map<nat, nat>)
    ensures forall v | v in m :: 1 <= m[v] <= |spoken|
  {
    if spoken == [] then map[]
    else LastTurns(spoken[..|spoken| - 1])[spoken[|spoken| - 1] := |spoken|]
  }

  /** The map holds exactly the numbers spoken, each with its latest turn. */
  lemma {:induction false} LastTurnsLookup(spoken: seq<nat>, v: nat)
    ensures v in LastTurns(spoken) <==> PrevTurn(spoken, v).Some?
    ensures v in LastTurns(spoken) ==> LastTurns(spoken)[v] == PrevTurn(spoken, v).value
  {
    if spoken != [] {
      LastTurnsLookup(spoken[..|spoken| - 1], v);
    }
  }

  /** One fold step: `spoken.insert(last, current - 1)` with the previous entry deciding
      the number spoken at turn `current`. */
  method Speak(spoken: map<nat, nat>, last: nat, current: nat) returns (spoken': map<nat, nat>, next: nat)
    requires current >= 1 && forall v | v in spoken :: spoken[v] < current
    ensures spoken' == spoken[last := current - 1]
    ensures next == if last in spoken then current - spoken[last] - 1 else 0
  {
    var previous := if last in spoken then Some(spoken[last]) else None;
    spoken' := spoken[last := current - 1];
    next := match previous case Some(turn) => current - turn - 1 case None => 0;
  }

  /** The map update of one fold step is the map of the history one number longer. */
  lemma LastTurnsAppend(before: seq<nat>, last: nat)
    ensures LastTurns(before)[last := |before| + 1] == LastTurns(before + [last])
  {
    assert (before + [last])[..|before|] == before;
  }

  /** The number spoken by one fold step is the one the game speaks. */
  lemma NextFromLastTurns(before: seq<nat>, last: nat)
    ensures var m := LastTurns(before);
            Next(before + [last]) == if last in m then |before| + 1 - m[last] else 0
  {
    assert (before + [last])[..|before|] == before;
    LastTurnsLookup(before, last);
  }

  /** The latest turn of `v` is `p` when `v` is spoken at `p` and not after it. */
  lemma PrevTurnAt(spoken: seq<nat>, v: nat, p: nat)
    requires 1 <= p <= |spoken| && spoken[p - 1] == v
    requires forall j | p <= j < |spoken| :: spoken[j] != v
    ensures PrevTurn(spoken, v) == Some(p)
  {
    var r := PrevTurn(spoken, v);
    assert r.Some? && r.value <= p && p <= r.value;
  }

  /** One fold step from a prefix of the game, with the map of the turns before its last
      number: the extended history is the game one turn later, and the updated map is that
      of the history before the new last number. */
  lemma FoldStepFollowsGame(history: seq<nat>, before: seq<nat>, last: nat, turns: map<nat, nat>, next: nat)
    requires history != [] && |history| <= |before| + 1
    requires before + [last] == Play(history, |before| + 1)
    requires turns == LastTurns(before)
    requires next == if last in turns then |before| + 1 - turns[last] else 0
    ensures before + [last] + [next] == Play(history, |before| + 2)
    ensures turns[last := |before| + 1] == LastTurns(before + [last])
  {
    LastTurnsAppend(before, last);
    NextFromLastTurns(before, last);
    PlayStep(history, |before| + 1);
  }

  /** From a map of the latest turns before the last number, the fold follows the game. */
  method PlayFrom(spoken: map<nat, nat>, history: seq<nat>, length: nat) returns (last: nat)
    requires history != [] && |history| < length
    requires spoken == LastTurns(history[..|history| - 1])
    ensures last == Play(history, length)[length - 1]
  {
    var turns := spoken;
    last := history[|history| - 1];
    var current := |history| + 1;
    ghost var before := history[..|history| - 1];
    assert history == before + [last];
    while current <= length
      invariant |history| + 1 <= current <= length + 1
      invariant |before| + 2 == current
      invariant before + [last] == Play(history, current - 1)
      invariant turns == LastTurns(before)
    {
      var turns', next := Speak(turns, last, current);
      FoldStepFollowsGame(history, before, last, turns, next);
      turns := turns';
      before := before + [last];
      last := next;
      current := current + 1;
    }
    ghost var played := before + [last];
    assert |played| == length && played[length - 1] == last;
  }

  /* ---------------- solve_game as written ---------------- */

  /** The numbers `solve_game` speaks through turn `length`: its map is seeded with every
      starting number, the last one included, so the first fold step finds the last number
      at the turn just spoken and always says 0; from then on it follows the game. */
  function SourceGame(input: seq<nat>, length: nat): seq<nat>
    requires input != []
  {
    if length <= |input| then input else Play(input + [0], length)
  }

  /** `solve_game` as written: the number spoken at turn `length`, or the last starting
      number when `length` does not exceed the number of starting turns. */
  method SolveGame(input: seq<nat>, length: nat) returns (r: nat)
    requires input != []
    ensures r == SourceGame(input, length)[if length <= |input| then |input| - 1 else length - 1]
  {
    var spoken := LastTurns(input);
    var last := input[|input| - 1];
    if |input| + 1 <= length {
      // First step: the seeded map already records the last number at turn |input|.
      LastTurnsLookup(input, last);
      spoken, last := Speak(spoken, last, |input| + 1);
      assert last == 0;
      var history := input + [0];
      assert history[..|history| - 1] == input;
      if |history| < length {
        last := PlayFrom(spoken, history, length);
      }
    }
    r := last;
  }

  /** With a single starting number, or whenever the last starting number is new, the
      source plays the game. */
  lemma SourceGameAgrees(input: seq<nat>, length: nat)
    requires input != [] && input[|input| - 1] !in input[..|input| - 1]
    ensures SourceGame(input, length) == Game(input, length) || length < |input|
  {
    if |input| < length {
      assert Next(input) == 0;
      PlayShift(input, length);
    }
  }

  /** Playing from one more turn of the game is the same game. */
  lemma {:induction false} PlayShift(spoken: seq<nat>, turns: nat)
    requires spoken != [] && |spoken| < turns
    ensures Play(spoken + [Next(spoken)], turns) == Play(spoken, turns)
  {
    var longer := spoken + [Next(spoken)];
    if turns == |spoken| + 1 {
      PlayStep(spoken, |spoken|);
      assert Play(spoken, |spoken|) == spoken;
      assert Play(longer, turns) == longer;
    } else {
      PlayShift(spoken, turns - 1);
      var a, b := Play(longer, turns - 1), Play(spoken, turns - 1);
      assert a == b;
      PlayStep(longer, turns - 1);
      PlayStep(spoken, turns - 1);
      assert Play(longer, turns) == a + [Next(a)];
      assert Play(spoken, turns) == b + [Next(b)];
    }
  }

  /** The source and the game disagree when the last starting number repeats an earlier one:
      with starting numbers [1, 1] the game says 1 at turn 3, the source 0. */
  lemma RepeatedLastDiffers(input: seq<nat>)
    requires input == [1, 1]
    ensures SourceGame(input, 3)[2] == 0 && Game(input, 3)[2] == 1
  {
    assert |input + [0]| == 3;
    PrevTurnAt(input[..1], 1, 1);
    assert Next(input) == 1;
    PlayStep(input, 2);
    assert Play(input, 2) == input;
  }

  /* ---------------- corrected ---------------- */

  /** `solve_game` with the map seeded from every starting number but the last, so that
      each turn follows the game. */
  method SolveGameFixed(input: seq<nat>, length: nat) returns (r: nat)
    requires input != []
    ensures r == Game(input, length)[if length <= |input| then |input| - 1 else length - 1]
  {
    r := input[|input| - 1];
    if |input| < length {
      r := PlayFrom(LastTurns(input[..|input| - 1]), input, length);
    }
  }
}
