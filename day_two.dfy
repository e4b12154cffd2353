/** Password philosophy (src/day_two.rs): policy lines "a-b c: password" and the two ways
    of reading a policy. */
module DayTwo {
  import opened Common

  datatype PasswordPolicy = PasswordPolicy(atLeast: nat, atMost: nat, letter: char, password: string)

  /** One line of the password file: `splitn(4, ' ' or '-')`, the first two parts parsed
      as usize, the first character of the third part, and the whole fourth part. */
  function ParseLine(line: string): (r: Option<PasswordPolicy>)
    ensures r.Some? ==> r.value.atLeast < USIZE_BOUND && r.value.atMost < USIZE_BOUND
  {
    var parts := SplitN(line, 4, {' ', '-'});
    if |parts| < 4 then None
    else match (ParseUnsigned(parts[0], USIZE_BOUND), ParseUnsigned(parts[1], USIZE_BOUND))
      case (Some(lo), Some(hi)) =>
        if parts[2] == [] then None else Some(PasswordPolicy(lo, hi, parts[2][0], parts[3]))
      case _ => None
  }

  /** `parse_password_file`: the lines that parse, in order. */
  function ParsePasswordFile(lines: seq<string>): seq<PasswordPolicy>
  {
    if lines == [] then []
    else
      var rest := ParsePasswordFile(lines[1..]);
      match ParseLine(lines[0])
      case None => rest
      case Some(p) => [p] + rest
  }

  /** Every policy comes from a line, and no line is dropped when every line parses. */
  lemma {:induction false} ParsePasswordFileLines(lines: seq<string>)
    ensures var r := ParsePasswordFile(lines);
            |r| <= |lines|
            && (forall p | p in r :: exists l | l in lines :: ParseLine(l) == Some(p))
            && ((forall l | l in lines :: ParseLine(l).Some?) ==> |r| == |lines|)
  {
    if lines != [] {
      ParsePasswordFileLines(lines[1..]);
      assert forall l | l in lines[1..] :: l in lines;
    }
  }

  /** The line a policy is written as in the password file, "a-b c: password", grouped
      from the right the way `splitn` takes it apart. */
  function Render(p: PasswordPolicy): string
  {
    Decimal(p.atLeast) + ['-'] + (Decimal(p.atMost) + [' '] + ([p.letter, ':'] + [' '] + p.password))
  }

  lemma DecimalHasNoSeparator(n: nat)
    ensures IndexOfAny(Decimal(n), {' ', '-'}).None?
  {
    var d := Decimal(n);
    forall k | 0 <= k < |d| ensures d[k] !in {' ', '-'} {
      assert IsDigit(d[k]);
    }
  }

  /** Every policy whose bounds fit in usize and whose letter is not a separator is read
      back from its rendering. */
  lemma ParseRender(p: PasswordPolicy)
    requires p.atLeast < USIZE_BOUND && p.atMost < USIZE_BOUND && p.letter !in {' ', '-'}
    ensures ParseLine(Render(p)) == Some(p)
  {
    RenderSplits(p);
    ParseDecimal(p.atLeast, USIZE_BOUND);
    ParseDecimal(p.atMost, USIZE_BOUND);
  }

  lemma RenderSplits(p: PasswordPolicy)
    requires p.letter !in {' ', '-'}
    ensures SplitN(Render(p), 4, {' ', '-'}) == [Decimal(p.atLeast), Decimal(p.atMost), [p.letter, ':'], p.password]
  {
    var seps := {' ', '-'};
    var a, b, l := Decimal(p.atLeast), Decimal(p.atMost), [p.letter, ':'];
    var tail3 := l + [' '] + p.password;
    var tail2 := b + [' '] + tail3;
    assert SplitN(tail3, 2, seps) == [l, p.password] by {
      IndexOfAnyAbsent(l, seps);
      SplitNAfterPrefix(l, ' ', p.password, 2, seps);
    }
    assert SplitN(tail2, 3, seps) == [b, l, p.password] by {
      DecimalHasNoSeparator(p.atMost);
      SplitNAfterPrefix(b, ' ', tail3, 3, seps);
    }
    assert SplitN(a + ['-'] + tail2, 4, seps) == [a, b, l, p.password] by {
      DecimalHasNoSeparator(p.atLeast);
      SplitNAfterPrefix(a, '-', tail2, 4, seps);
    }
  }

  /** First task: the letter occurs between `atLeast` and `atMost` times. */
  function IsValidForTaskOne(p: PasswordPolicy): (valid: bool)
    ensures valid <==> p.atLeast <= Count(p.password, p.letter) <= p.atMost
  {
    var count := |LetterOccurrences(p.password, p.letter)|;
    count <= p.atMost && count >= p.atLeast
  }

  /** The password's characters equal to `letter` (the source's filter). */
  function LetterOccurrences(s: string, letter: char): (r: string)
    ensures |r| == Count(s, letter)
    ensures forall k | 0 <= k < |r| :: r[k] == letter
  {
    if s == [] then []
    else LetterOccurrences(s[..|s| - 1], letter) + (if s[|s| - 1] == letter then [letter] else [])
  }

  /** Rust's `Iterator::nth` on the characters of `s`: the element and what is left. */
  function Nth(s: string, n: nat): (r: (Option<char>, string))
    ensures n < |s| ==> r == (Some(s[n]), s[n + 1..])
    ensures n >= |s| ==> r == (None, [])
  {
    if n < |s| then (Some(s[n]), s[n + 1..]) else (None, [])
  }

  /** Second task: the two `nth` calls on a single iterator, the second starting where the
      first left off. The usize subtractions require 1 <= atLeast < atMost. */
  function IsValidForTaskTwo(p: PasswordPolicy): (valid: bool)
    requires p.atLeast >= 1 && p.atMost > p.atLeast
    ensures valid <==> ((p.atLeast <= |p.password| && p.password[p.atLeast - 1] == p.letter)
                        != (p.atMost <= |p.password| && p.password[p.atMost - 1] == p.letter))
  {
    var (first, rest) := Nth(p.password, p.atLeast - 1);
    var (second, _) := Nth(rest, p.atMost - p.atLeast - 1);
    var isFirst := first.Some? && first.value == p.letter;
    var isSecond := second.Some? && second.value == p.letter;
    isFirst != isSecond
  }

  /** When every line parses, the file is the policies of the lines, in order. */
  lemma {:induction false} ParseEveryLine(lines: seq<string>)
    requires forall k | 0 <= k < |lines| :: ParseLine(lines[k]).Some?
    ensures var r := ParsePasswordFile(lines);
            |r| == |lines| && forall k | 0 <= k < |lines| :: r[k] == ParseLine(lines[k]).value
  {
    if lines != [] {
      ParseEveryLine(lines[1..]);
    }
  }

  /** The source's parsing test: three lines, the last read as 1-2 'a' "aaa". */
  lemma ParseExample(lines: seq<string>)
    requires lines == ["3-4 q: " + "wqqkzwqgkqkk", "1-2 k: " + "aaa", "1-2 a: " + "aaa"]
    ensures var r := ParsePasswordFile(lines);
            |r| == 3 && r[2] == PasswordPolicy(1, 2, 'a', "aaa")
  {
    ParseExampleLines(lines);
    ParseEveryLine(lines);
  }

  lemma ParseExampleLines(lines: seq<string>)
    requires lines == ["3-4 q: " + "wqqkzwqgkqkk", "1-2 k: " + "aaa", "1-2 a: " + "aaa"]
    ensures ParseLine(lines[0]) == Some(PasswordPolicy(3, 4, 'q', "wqqkzwqgkqkk"))
    ensures ParseLine(lines[1]) == Some(PasswordPolicy(1, 2, 'k', "aaa"))
    ensures ParseLine(lines[2]) == Some(PasswordPolicy(1, 2, 'a', "aaa"))
  {
    ParseExampleLine(PasswordPolicy(3, 4, 'q', "wqqkzwqgkqkk"), "3-4 q: ");
    ParseExampleLine(PasswordPolicy(1, 2, 'k', "aaa"), "1-2 k: ");
    ParseExampleLine(PasswordPolicy(1, 2, 'a', "aaa"), "1-2 a: ");
  }

  lemma ParseExampleLine(p: PasswordPolicy, prefix: string)
    requires p.atLeast < 10 && p.atMost < 10 && p.letter !in {' ', '-'}
    requires prefix == [DigitChar(p.atLeast), '-', DigitChar(p.atMost), ' ', p.letter, ':', ' ']
    ensures ParseLine(prefix + p.password) == Some(p)
  {
    assert Decimal(p.atLeast) == [DigitChar(p.atLeast)];
    assert Decimal(p.atMost) == [DigitChar(p.atMost)];
    assert Render(p) == prefix + p.password;
    ParseRender(p);
  }

  /** The source's tests of the first policy. */
  lemma TaskOneExamples()
    ensures !IsValidForTaskOne(PasswordPolicy(1, 3, 'a', "bbbb"))
    ensures !IsValidForTaskOne(PasswordPolicy(1, 3, 'a', "aaaabbbb"))
    ensures IsValidForTaskOne(PasswordPolicy(1, 3, 'a', "a"))
    ensures IsValidForTaskOne(PasswordPolicy(1, 3, 'a', "aaabbbb"))
  {
    CountAllEqual("a", 'a');
    CountAllEqual("aaa", 'a');
    CountAllEqual("aaaa", 'a');
    CountAppend("aaaa", "bbbb", 'a');
    assert "aaaa" + "bbbb" == "aaaabbbb";
    CountAppend("aaa", "bbbb", 'a');
    assert "aaa" + "bbbb" == "aaabbbb";
  }

  /** The source's tests of the second policy. */
  lemma TaskTwoExamples()
    ensures IsValidForTaskTwo(PasswordPolicy(1, 3, 'a', "abc"))
    ensures IsValidForTaskTwo(PasswordPolicy(2, 3, 'a', "dbaf"))
    ensures !IsValidForTaskTwo(PasswordPolicy(4, 9, 'b', "aaabaaaaba"))
    ensures !IsValidForTaskTwo(PasswordPolicy(4, 9, 'b', "a"))
  {
  }
}
