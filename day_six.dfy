/** Custom customs (src/day_six.rs): the answers of a group are the union of the letters on
    its lines; groups are separated by an empty line, and an iterator hands them out one at
    a time until the first empty group. */
module DaySix {
  import opened Common

  /** Index of the first empty line, or the length of `lines`. */
  function GroupLength(lines: seq<string>): (e: nat)
    ensures e <= |lines|
    ensures forall k | 0 <= k < e :: lines[k] != ""
    ensures e < |lines| ==> lines[e] == ""
  {
    if lines == [] || lines[0] == "" then 0 else GroupLength(lines[1..]) + 1
  }

  /** The characters of `s`. */
  function CharSet(s: string): set<char>
  {
    if s == [] then {} else CharSet(s[..|s| - 1]) + {s[|s| - 1]}
  }

  /** A character is in `CharSet(s)` exactly when it occurs in `s`. */
  lemma {:induction false} CharSetMembers(s: string)
    ensures forall c :: c in CharSet(s) <==> exists j | 0 <= j < |s| :: s[j] == c
  {
    if s != [] {
      CharSetMembers(s[..|s| - 1]);
      assert forall j | 0 <= j < |s| - 1 :: s[..|s| - 1][j] == s[j];
    }
  }

  /** Every character occurring on one of `lines`. */
  function Letters(lines: seq<string>): set<char>
  {
    if lines == [] then {} else Letters(lines[..|lines| - 1]) + CharSet(lines[|lines| - 1])
  }

  /** A character is in `Letters(lines)` exactly when it occurs on one of the lines. */
  lemma {:induction false} LettersMembers(lines: seq<string>)
    ensures forall c :: c in Letters(lines) <==> exists k, j | 0 <= k < |lines| && 0 <= j < |lines[k]| :: lines[k][j] == c
  {
    if lines != [] {
      LettersMembers(lines[..|lines| - 1]);
      CharSetMembers(lines[|lines| - 1]);
      assert forall k | 0 <= k < |lines| - 1 :: lines[..|lines| - 1][k] == lines[k];
    }
  }

  lemma CharSetStep(s: string, j: nat)
    requires j < |s|
    ensures CharSet(s[..j + 1]) == CharSet(s[..j]) + {s[j]}
  {
    assert s[..j + 1][..j] == s[..j];
  }

  lemma LettersStep(lines: seq<string>, i: nat)
    requires i < |lines|
    ensures Letters(lines[..i + 1]) == Letters(lines[..i]) + CharSet(lines[i])
  {
    assert lines[..i + 1][..i] == lines[..i];
  }

  /** The result of `aggregate_answers` on the remaining lines: the letters of the first
      group (None when there are none) and the lines left after the terminating empty line. */
  function Aggregate(lines: seq<string>): (r: (Option<set<char>>, seq<string>))
  {
    var e := GroupLength(lines);
    var letters := Letters(lines[..e]);
    (if letters == {} then None else Some(letters), if e < |lines| then lines[e + 1..] else [])
  }

  /** A group has answers exactly when its first line exists and is not empty. */
  lemma AggregateNone(lines: seq<string>)
    ensures Aggregate(lines).0.None? <==> lines == [] || lines[0] == ""
  {
    var group := lines[..GroupLength(lines)];
    LettersMembers(group);
    if lines != [] && lines[0] != "" {
      assert group[0][0] == lines[0][0];
    }
  }

  /** `line.chars().for_each(insert)`: adds every character of the line to the set. */
  method InsertLetters(aggregation: set<char>, line: string) returns (r: set<char>)
    ensures r == aggregation + CharSet(line)
  {
    r := aggregation;
    var j := 0;
    while j < |line|
      invariant j <= |line|
      invariant r == aggregation + CharSet(line[..j])
    {
      CharSetStep(line, j);
      r := r + {line[j]};
      j := j + 1;
    }
    assert line[..j] == line;
  }

  /** `aggregate_answers`: consumes lines up to and including the first empty one, inserting
      every letter into the aggregation. */
  method AggregateAnswers(lines: seq<string>) returns (answers: Option<set<char>>, rest: seq<string>)
    ensures (answers, rest) == Aggregate(lines)
  {
    var aggregation: set<char> := {};
    var i := 0;
    rest := lines;
    while i < |lines|
      invariant i <= |lines| && rest == lines[i..]
      invariant GroupLength(lines) == i + GroupLength(lines[i..])
      invariant aggregation == Letters(lines[..i])
      decreases |lines| - i
    {
      assert lines[i..][1..] == lines[i + 1..];
      var line := lines[i];
      rest := lines[i + 1..];
      if line == "" {
        break;
      }
      aggregation := InsertLetters(aggregation, line);
      LettersStep(lines, i);
      i := i + 1;
    }
    answers := if aggregation == {} then None else Some(aggregation);
  }

  /** The groups an iterator over `lines` yields: it stops at the first empty group. */
  function Groups(lines: seq<string>): (r: seq<set<char>>)
    ensures forall k | 0 <= k < |r| :: r[k] != {}
    decreases |lines|
  {
    var (answers, rest) := Aggregate(lines);
    if answers.None? then [] else [answers.value] + Groups(rest)
  }

  /** `GroupIterator`: the iterator state is the lines not yet consumed. */
  class GroupIterator {
    var remaining: seq<string>

    constructor (lines: seq<string>)
      ensures remaining == lines
    {
      remaining := lines;
    }

    /** `next` delegates to `aggregate_answers` on the shared line iterator. */
    method Next() returns (group: Option<set<char>>)
      modifies this
      ensures (group, remaining) == Aggregate(old(remaining))
      ensures Groups(old(remaining)) == if group.None? then [] else [group.value] + Groups(remaining)
    {
      group, remaining := AggregateAnswers(remaining);
    }
  }

  function SumSizes(groups: seq<set<char>>): nat
  {
    if groups == [] then 0 else |groups[0]| + SumSizes(groups[1..])
  }

  /** The answer of `run_day_six`: the sum of the group sizes, iterating until the first
      empty group. */
  method SumOfGroupSizes(lines: seq<string>) returns (total: nat)
    ensures total == SumSizes(Groups(lines))
  {
    var it := new GroupIterator(lines);
    total := 0;
    while true
      invariant total + SumSizes(Groups(it.remaining)) == SumSizes(Groups(lines))
      decreases |it.remaining|
    {
      var group := it.Next();
      if group.None? {
        return;
      }
      total := total + |group.value|;
    }
  }

  /** The source's iterator test. */
  lemma Example()
    ensures Groups(["ab", "bc", "d", "", "a"]) == [{'a', 'b', 'c', 'd'}, {'a'}]
  {
    var lines := ["ab", "bc", "d", "", "a"];
    assert GroupLength(lines) == 3;
    assert lines[..3] == ["ab", "bc", "d"];
    assert Letters(["ab", "bc", "d"]) == {'a', 'b', 'c', 'd'} by {
      assert ["ab", "bc", "d"][..2] == ["ab", "bc"];
      assert ["ab", "bc"][..1] == ["ab"];
      assert "ab"[..1] == "a" && "bc"[..1] == "b";
      assert Letters(["ab"]) == {'a', 'b'};
      assert Letters(["ab", "bc"]) == {'a', 'b', 'c'};
    }
    assert lines[4..] == ["a"];
    assert GroupLength(["a"]) == 1;
    assert ["a"][..1] == ["a"];
    assert CharSet("a") == {'a'};
    assert Letters(["a"]) == {'a'};
    assert Aggregate(["a"]) == (Some({'a'}), []);
  }
}
