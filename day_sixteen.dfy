/** Ticket translation (src/day_sixteen.rs): rules of two inclusive ranges, tickets of
    comma-separated values, the tickets holding a value no rule admits, and the elimination
    that assigns each rule a column of the tickets. Values are `u16`. */
module DaySixteen {
  import opened Common

  /* ---------------- rules ---------------- */

  /** An inclusive range `[lo, hi]` of values: one `[u16; 2]`. */
  datatype Range = Range(lo: nat, hi: nat)

  /** A rule `[[u16; 2]; 2]`: a value is admitted when it lies in either range. */
  datatype Rule = Rule(first: Range, second: Range)

  predicate InRange(v: nat, range: Range)
  {
    range.lo <= v <= range.hi
  }

  /** `satisfies_rule`. */
  predicate SatisfiesRule(v: nat, rule: Rule)
  {
    (v >= rule.first.lo && v <= rule.first.hi) || (v >= rule.second.lo && v <= rule.second.hi)
  }

  /** A value satisfies a rule exactly when it lies in one of the rule's two ranges, bounds
      included. */
  lemma SatisfiesRuleRanges(v: nat, rule: Rule)
    ensures SatisfiesRule(v, rule) <==> InRange(v, rule.first) || InRange(v, rule.second)
    ensures SatisfiesRule(rule.first.lo, rule) || rule.first.lo > rule.first.hi
    ensures SatisfiesRule(rule.second.hi, rule) || rule.second.lo > rule.second.hi
  {
  }

  /* ---------------- parsing ---------------- */

  /** `range_to_arr_tuple`: the text before the first `-` and the text after it, each a
      `u16`; None without a `-` or when either side does not parse. */
  function RangeToArrTuple(range: string): (r: Option<Range>)
    ensures r.Some? ==> '-' in range && r.value.lo < U16_BOUND && r.value.hi < U16_BOUND
  {
    match IndexOfAny(range, {'-'})
    case None => None
    case Some(i) =>
      match (ParseUnsigned(range[..i], U16_BOUND), ParseUnsigned(range[i + 1..], U16_BOUND))
      case (Some(lo), Some(hi)) => Some(Range(lo, hi))
      case _ => None
  }

  /** The text of a range: `lo-hi` in decimal. */
  function RangeText(range: Range): string
  {
    Decimal(range.lo) + "-" + Decimal(range.hi)
  }

  lemma DecimalHasNo(n: nat, seps: set<char>)
    requires forall c | c in seps :: !IsDigit(c)
    ensures IndexOfAny(Decimal(n), seps).None?
  {
    var d := Decimal(n);
    assert forall k | 0 <= k < |d| :: IsDigit(d[k]);
  }

  /** Every range of `u16` bounds is read back from its text. */
  lemma RangeRoundTrip(range: Range)
    requires range.lo < U16_BOUND && range.hi < U16_BOUND
    ensures RangeToArrTuple(RangeText(range)) == Some(range)
  {
    DecimalHasNo(range.lo, {'-'});
    IndexAfterPrefix(Decimal(range.lo), '-', Decimal(range.hi), {'-'});
    ParseDecimal(range.lo, U16_BOUND);
    ParseDecimal(range.hi, U16_BOUND);
  }

  /** The rule of one line: its last word is the second range and its third word from the
      end the first; None when the line has fewer than three words or a range does not
      parse. */
  function RuleOfLine(line: string): (r: Option<Rule>)
  {
    var words := SplitOn(line, {' '});
    if |words| < 3 then None
    else
      match (RangeToArrTuple(words[|words| - 3]), RangeToArrTuple(words[|words| - 1]))
      case (Some(a), Some(b)) => Some(Rule(a, b))
      case _ => None
  }

  const TICKET_HEADER := "your ticket:"

  /** The rules of the lines from index `i` on, up to the first one starting with `header`,
      skipping lines that hold no rule. */
  function RulesUntil(lines: seq<string>, header: string, i: nat): (rules: seq<Rule>)
    decreases |lines| - i
  {
    if i >= |lines| || StartsWith(lines[i], header) then []
    else
      match RuleOfLine(lines[i])
      case Some(rule) => [rule] + RulesUntil(lines, header, i + 1)
      case None => RulesUntil(lines, header, i + 1)
  }

  /** `read_rules`: the rules before the `your ticket:` line. */
  function ReadRules(lines: seq<string>): seq<Rule>
  {
    RulesUntil(lines, TICKET_HEADER, 0)
  }

  /** Two texts joined by a space. */
  function Spaced(x: string, y: string): string
  {
    x + [' '] + y
  }

  /** The text of a rule line: a name (such as `departure location:`), then the two ranges
      joined by ` or `. */
  function RuleLine(name: string, rule: Rule): string
  {
    Spaced(name, Spaced(RangeText(rule.first), Spaced(OR, RangeText(rule.second))))
  }

  const OR := "or"

  predicate RuleFits(rule: Rule)
  {
    rule.first.lo < U16_BOUND && rule.first.hi < U16_BOUND &&
    rule.second.lo < U16_BOUND && rule.second.hi < U16_BOUND
  }

  lemma RangeTextWord(range: Range)
    ensures IndexOfAny(RangeText(range), {' '}).None?
  {
    var t := RangeText(range);
    DecimalHasNo(range.lo, {' '});
    DecimalHasNo(range.hi, {' '});
    var a, b := Decimal(range.lo), Decimal(range.hi);
    assert forall k | 0 <= k < |a| :: t[k] == a[k];
    assert forall k | 0 <= k < |b| :: t[|a| + 1 + k] == b[k];
    assert forall k | 0 <= k < |t| :: t[k] != ' ';
  }

  /** The last three words of a line whose last three words hold no space. */
  lemma LastThreeWords(prefix: string, a: string, mid: string, b: string)
    requires IndexOfAny(a, {' '}).None? && IndexOfAny(mid, {' '}).None? && IndexOfAny(b, {' '}).None?
    ensures SplitOn(Spaced(prefix, Spaced(a, Spaced(mid, b))), {' '}) == SplitOn(prefix, {' '}) + [a, mid, b]
  {
    var sp := {' '};
    var tail, last := Spaced(a, Spaced(mid, b)), Spaced(mid, b);
    SplitOnConcat(prefix, ' ', tail, sp);
    SplitOnAfterPrefix(a, ' ', last, sp);
    SplitOnTwo(mid, ' ', b, sp);
    var words := SplitOn(tail, sp);
    assert words == [a] + [mid, b] == [a, mid, b];
  }

  /** A rule line is read back as its rule, whatever its name. */
  lemma RuleLineRoundTrip(name: string, rule: Rule)
    requires RuleFits(rule)
    ensures RuleOfLine(RuleLine(name, rule)) == Some(rule)
  {
    RangeTextWord(rule.first);
    RangeTextWord(rule.second);
    assert IndexOfAny(OR, {' '}).None?;
    LastThreeWords(name, RangeText(rule.first), OR, RangeText(rule.second));
    RangeRoundTrip(rule.first);
    RangeRoundTrip(rule.second);
  }

  /** The lines start with one line per rule that holds that rule and does not start with
      `header`, followed by a line starting with `header`. */
  predicate RulesSection(lines: seq<string>, rules: seq<Rule>, header: string)
  {
    |rules| < |lines| && StartsWith(lines[|rules|], header) &&
    forall k | 0 <= k < |rules| :: RuleOfLine(lines[k]) == Some(rules[k]) && !StartsWith(lines[k], header)
  }

  /** The rules are read from the lines before the header line, whatever follows it. */
  lemma {:induction false} RulesUntilSection(lines: seq<string>, rules: seq<Rule>, header: string, i: nat)
    requires RulesSection(lines, rules, header) && i <= |rules|
    ensures RulesUntil(lines, header, i) == rules[i..]
    decreases |rules| - i
  {
    if i < |rules| {
      RulesUntilSection(lines, rules, header, i + 1);
      assert rules[i..] == [rules[i]] + rules[i + 1..];
    } else {
      assert StartsWith(lines[i], header);
    }
  }

  /** Rule lines with `u16` bounds, none starting with `your ticket:`, followed by a
      `your ticket:` line are read back as their rules. */
  lemma ReadRulesRoundTrip(lines: seq<string>, names: seq<string>, rules: seq<Rule>)
    requires |names| == |rules| < |lines| && StartsWith(lines[|rules|], TICKET_HEADER)
    requires forall k | 0 <= k < |rules| ::
               lines[k] == RuleLine(names[k], rules[k]) && RuleFits(rules[k]) && !StartsWith(lines[k], TICKET_HEADER)
    ensures ReadRules(lines) == rules
  {
    forall k | 0 <= k < |rules|
      ensures RuleOfLine(lines[k]) == Some(rules[k])
    {
      RuleLineRoundTrip(names[k], rules[k]);
    }
    RulesUntilSection(lines, rules, TICKET_HEADER, 0);
  }

  /** The value of one field, when it parses as `u16`. */
  function FieldValue(field: string): (r: seq<nat>)
    ensures |r| <= 1
  {
    match ParseUnsigned(field, U16_BOUND) case Some(v) => [v] case None => []
  }

  /** The values of the fields that parse as `u16`, in order. */
  function ParseFields(fields: seq<string>): (values: seq<nat>)
    ensures |values| <= |fields|
  {
    if fields == [] then [] else FieldValue(fields[0]) + ParseFields(fields[1..])
  }

  /** `parse_ticket`: the comma-separated fields that parse as `u16`; others are dropped. */
  function ParseTicket(ticket: string): seq<nat>
  {
    ParseFields(SplitOn(ticket, {','}))
  }

  /** The fields are parsed one by one: a field that does not parse drops out, the rest keep
      their order. */
  lemma {:induction false} ParseFieldsConcat(a: seq<string>, b: seq<string>)
    ensures ParseFields(a + b) == ParseFields(a) + ParseFields(b)
  {
    if a != [] {
      var ab := a + b;
      assert ab[0] == a[0] && ab[1..] == a[1..] + b;
      assert ParseFields(ab) == FieldValue(a[0]) + ParseFields(a[1..] + b);
      ParseFieldsConcat(a[1..], b);
      assert ParseFields(a) == FieldValue(a[0]) + ParseFields(a[1..]);
    } else {
      assert a + b == b;
    }
  }

  /** The text of a ticket: its values in decimal, joined by commas. */
  function TicketText(values: seq<nat>): string
  {
    if values == [] then ""
    else if |values| == 1 then Decimal(values[0])
    else Decimal(values[0]) + "," + TicketText(values[1..])
  }

  /** Every ticket of `u16` values is read back from its text. */
  lemma {:induction false} TicketRoundTrip(values: seq<nat>)
    requires forall k | 0 <= k < |values| :: values[k] < U16_BOUND
    ensures ParseTicket(TicketText(values)) == values
  {
    if values == [] {
      assert IndexOfAny("", {','}).None?;
    } else {
      DecimalHasNo(values[0], {','});
      ParseDecimal(values[0], U16_BOUND);
      if |values| == 1 {
        SplitOnNoSeparator(Decimal(values[0]), {','});
      } else {
        SplitOnAfterPrefix(Decimal(values[0]), ',', TicketText(values[1..]), {','});
        TicketRoundTrip(values[1..]);
      }
    }
  }

  /* ---------------- bad tickets ---------------- */

  /** Some rule admits `v`. */
  predicate MatchesSomeRule(v: nat, rules: seq<Rule>)
  {
    rules != [] && (SatisfiesRule(v, rules[0]) || MatchesSomeRule(v, rules[1..]))
  }

  /** `rules.iter().any(...)` is the existence of an admitting rule. */
  lemma {:induction false} MatchesSomeRuleMeaning(v: nat, rules: seq<Rule>)
    ensures MatchesSomeRule(v, rules) <==> exists k | 0 <= k < |rules| :: SatisfiesRule(v, rules[k])
  {
    if rules != [] {
      MatchesSomeRuleMeaning(v, rules[1..]);
      if SatisfiesRule(v, rules[0]) {
        assert SatisfiesRule(v, rules[0]);
      }
      if exists k | 0 <= k < |rules| :: SatisfiesRule(v, rules[k]) {
        var k :| 0 <= k < |rules| && SatisfiesRule(v, rules[k]);
        if k > 0 {
          assert rules[1..][k - 1] == rules[k];
        }
      }
    }
  }

  /** The position of the first value of `ticket`, from `i` on, that no rule admits. */
  function FirstInvalidFrom(ticket: seq<nat>, rules: seq<Rule>, i: nat): (r: Option<nat>)
    decreases |ticket| - i
  {
    if i >= |ticket| then None
    else if !MatchesSomeRule(ticket[i], rules) then Some(i)
    else FirstInvalidFrom(ticket, rules, i + 1)
  }

  /** The value that `find` returns: the first one no rule admits, if any. */
  function BadValue(ticket: seq<nat>, rules: seq<Rule>): Option<nat>
  {
    match FirstInvalidFrom(ticket, rules, 0)
    case None => None
    case Some(p) => if p < |ticket| then Some(ticket[p]) else None
  }

  /** The search finds the first value no rule admits, and finds none exactly when every value
      is admitted. */
  lemma {:induction false} FirstInvalidMeaning(ticket: seq<nat>, rules: seq<Rule>, i: nat)
    ensures var r := FirstInvalidFrom(ticket, rules, i);
            (r.None? <==> forall k | i <= k < |ticket| :: MatchesSomeRule(ticket[k], rules)) &&
            (r.Some? ==> i <= r.value < |ticket| && !MatchesSomeRule(ticket[r.value], rules) &&
                         forall k | i <= k < r.value :: MatchesSomeRule(ticket[k], rules))
    decreases |ticket| - i
  {
    if i < |ticket| && MatchesSomeRule(ticket[i], rules) {
      FirstInvalidMeaning(ticket, rules, i + 1);
    }
  }

  /** The bad tickets from index `from` on: `(index, first bad value)`. */
  function BadTicketsFrom(tickets: seq<seq<nat>>, rules: seq<Rule>, from: nat): (r: seq<(nat, nat)>)
    decreases |tickets| - from
  {
    if from >= |tickets| then []
    else
      (match BadValue(tickets[from], rules) case Some(v) => [(from, v)] case None => [])
      + BadTicketsFrom(tickets, rules, from + 1)
  }

  /** `get_bad_tickets`. */
  function GetBadTickets(tickets: seq<seq<nat>>, rules: seq<Rule>): seq<(nat, nat)>
  {
    BadTicketsFrom(tickets, rules, 0)
  }

  /** The entries from `from` on are the tickets from `from` on with a bad value, each with
      its first bad value. */
  lemma {:induction false} BadTicketsFromMember(tickets: seq<seq<nat>>, rules: seq<Rule>, from: nat, i: nat, v: nat)
    ensures (i, v) in BadTicketsFrom(tickets, rules, from) <==>
            from <= i < |tickets| && BadValue(tickets[i], rules) == Some(v)
    decreases |tickets| - from
  {
    if from < |tickets| {
      BadTicketsFromMember(tickets, rules, from + 1, i, v);
    }
  }

  /** The entries come in increasing index order. */
  lemma {:induction false} BadTicketsFromIncreasing(tickets: seq<seq<nat>>, rules: seq<Rule>, from: nat)
    ensures forall k | 0 <= k < |BadTicketsFrom(tickets, rules, from)| - 1 ::
              BadTicketsFrom(tickets, rules, from)[k].0 < BadTicketsFrom(tickets, rules, from)[k + 1].0
    decreases |tickets| - from
  {
    if from < |tickets| {
      BadTicketsFromIncreasing(tickets, rules, from + 1);
      var rest := BadTicketsFrom(tickets, rules, from + 1);
      match BadValue(tickets[from], rules)
      case None =>
      case Some(v) =>
        var r := [(from, v)] + rest;
        assert BadTicketsFrom(tickets, rules, from) == r;
        if rest != [] {
          assert rest[0] in rest;
          BadTicketsFromMember(tickets, rules, from + 1, rest[0].0, rest[0].1);
        }
        forall k | 0 <= k < |r| - 1
          ensures r[k].0 < r[k + 1].0
        {
          if k > 0 {
            assert r[k] == rest[k - 1] && r[k + 1] == rest[k];
          }
        }
    }
  }

  /** One ticket is bad exactly when it holds a value that no rule admits, and its entry
      carries the first such value. */
  lemma GetBadTicketsMeaning(tickets: seq<seq<nat>>, rules: seq<Rule>, i: nat)
    requires i < |tickets|
    ensures (exists v: nat :: (i, v) in GetBadTickets(tickets, rules)) <==>
            exists k | 0 <= k < |tickets[i]| :: !MatchesSomeRule(tickets[i][k], rules)
    ensures forall v: nat | (i, v) in GetBadTickets(tickets, rules) ::
              exists p | 0 <= p < |tickets[i]| :: tickets[i][p] == v && !MatchesSomeRule(v, rules) &&
                forall k | 0 <= k < p :: MatchesSomeRule(tickets[i][k], rules)
  {
    FirstInvalidMeaning(tickets[i], rules, 0);
    var r := GetBadTickets(tickets, rules);
    forall v: nat
      ensures (i, v) in r <==> BadValue(tickets[i], rules) == Some(v)
    {
      BadTicketsFromMember(tickets, rules, 0, i, v);
    }
    if BadValue(tickets[i], rules).Some? {
      assert (i, BadValue(tickets[i], rules).value) in r;
    }
  }

  /* ---------------- dropping the bad tickets ---------------- */

  lemma Associative<T>(a: seq<T>, b: seq<T>, c: seq<T>)
    ensures a + (b + c) == (a + b) + c
  {
  }

  /** The tickets from index `i` on whose index is not in `drop`, in order. */
  function Keep(tickets: seq<seq<nat>>, drop: set<nat>, i: nat): (r: seq<seq<nat>>)
    ensures |r| <= |tickets| - i || i > |tickets|
    decreases |tickets| - i
  {
    if i >= |tickets| then []
    else (if i in drop then [] else [tickets[i]]) + Keep(tickets, drop, i + 1)
  }

  /** Dropping only indexes at or past `b` keeps the tickets before `b` as they are. */
  lemma {:induction false} KeepPrefix(tickets: seq<seq<nat>>, drop: set<nat>, i: nat, b: nat)
    requires i <= b <= |tickets| && forall d | d in drop :: d >= b
    ensures Keep(tickets, drop, i) == tickets[i..b] + Keep(tickets, drop, b)
    decreases b - i
  {
    if i < b {
      KeepPrefix(tickets, drop, i + 1, b);
      var head, middle, tail := [tickets[i]], tickets[i + 1..b], Keep(tickets, drop, b);
      assert i !in drop;
      assert Keep(tickets, drop, i) == head + (middle + tail);
      assert tickets[i..b] == head + middle;
      Associative(head, middle, tail);
    } else {
      assert tickets[i..b] == [];
    }
  }

  /** An index before `i` plays no part in the tickets kept from `i` on. */
  lemma {:induction false} KeepIgnores(tickets: seq<seq<nat>>, drop: set<nat>, b: nat, i: nat)
    requires b < i
    ensures Keep(tickets, drop + {b}, i) == Keep(tickets, drop, i)
    decreases |tickets| - i
  {
    if i < |tickets| {
      KeepIgnores(tickets, drop, b, i + 1);
    }
  }

  /** Removing the ticket at index `b` from the tickets kept when every dropped index lies past
      `b` also drops `b`. */
  lemma RemoveFromKept(tickets: seq<seq<nat>>, drop: set<nat>, b: nat)
    requires b < |tickets| && forall d | d in drop :: d > b
    ensures |Keep(tickets, drop, 0)| > b
    ensures var kept := Keep(tickets, drop, 0);
            kept[..b] + kept[b + 1..] == Keep(tickets, drop + {b}, 0)
  {
    KeepPrefix(tickets, drop, 0, b);
    KeepPrefix(tickets, drop + {b}, 0, b);
    KeepIgnores(tickets, drop, b, b + 1);
    var kept, tail := Keep(tickets, drop, 0), Keep(tickets, drop, b + 1);
    assert Keep(tickets, drop, b) == [tickets[b]] + tail;
    assert Keep(tickets, drop + {b}, b) == tail;
    assert kept == tickets[..b] + [tickets[b]] + tail;
    assert kept[..b] == tickets[..b];
    assert kept[b + 1..] == tail;
  }

  /** The indexes of the entries from `j` on. */
  function IndexesFrom(bad: seq<(nat, nat)>, j: nat): (r: set<nat>)
    ensures forall d | d in r :: exists k | j <= k < |bad| :: bad[k].0 == d
    decreases |bad| - j
  {
    if j >= |bad| then {} else {bad[j].0} + IndexesFrom(bad, j + 1)
  }

  /** Entries with increasing indexes, each one an index of the tickets. */
  predicate IncreasingIndexes(bad: seq<(nat, nat)>, count: nat)
  {
    (forall k | 0 <= k < |bad| :: bad[k].0 < count) &&
    forall k | 0 <= k < |bad| - 1 :: bad[k].0 < bad[k + 1].0
  }

  lemma {:induction false} IncreasingLater(bad: seq<(nat, nat)>, count: nat, j: nat, k: nat)
    requires IncreasingIndexes(bad, count) && j < k < |bad|
    ensures bad[j].0 < bad[k].0
    decreases k - j
  {
    if j + 1 < k {
      IncreasingLater(bad, count, j + 1, k);
    }
  }

  /** The loop over the bad tickets in reverse with `other_tickets.remove(index)`: because the
      indexes are taken from the largest down, each removal finds its ticket in place. */
  method RemoveBadTickets(tickets: seq<seq<nat>>, bad: seq<(nat, nat)>) returns (kept: seq<seq<nat>>)
    requires IncreasingIndexes(bad, |tickets|)
    ensures kept == Keep(tickets, IndexesFrom(bad, 0), 0)
  {
    kept := tickets;
    var j := |bad|;
    assert Keep(tickets, {}, 0) == tickets by {
      KeepPrefix(tickets, {}, 0, |tickets|);
    }
    while j > 0
      invariant 0 <= j <= |bad|
      invariant kept == Keep(tickets, IndexesFrom(bad, j), 0)
    {
      j := j - 1;
      var index := bad[j].0;
      ghost var later := IndexesFrom(bad, j + 1);
      forall d | d in later
        ensures d > index
      {
        var k :| j + 1 <= k < |bad| && bad[k].0 == d;
        IncreasingLater(bad, |tickets|, j, k);
      }
      RemoveFromKept(tickets, later, index);
      kept := kept[..index] + kept[index + 1..];
      assert IndexesFrom(bad, j) == later + {index};
    }
  }

  /** The tickets from index `i` on in which every value matches some rule. */
  function ValidFrom(tickets: seq<seq<nat>>, rules: seq<Rule>, i: nat): seq<seq<nat>>
    decreases |tickets| - i
  {
    if i >= |tickets| then []
    else (if BadValue(tickets[i], rules).Some? then [] else [tickets[i]]) + ValidFrom(tickets, rules, i + 1)
  }

  /** Dropping exactly the tickets with a bad value keeps the valid ones. */
  lemma {:induction false} KeepValid(tickets: seq<seq<nat>>, rules: seq<Rule>, drop: set<nat>, i: nat)
    requires forall k | i <= k < |tickets| :: k in drop <==> BadValue(tickets[k], rules).Some?
    ensures Keep(tickets, drop, i) == ValidFrom(tickets, rules, i)
    decreases |tickets| - i
  {
    if i < |tickets| {
      KeepValid(tickets, rules, drop, i + 1);
    }
  }

  /** Removing the bad tickets the way the solver does leaves exactly the tickets whose every
      value matches some rule, in their order. */
  lemma DropBadTickets(tickets: seq<seq<nat>>, rules: seq<Rule>)
    ensures IncreasingIndexes(GetBadTickets(tickets, rules), |tickets|)
    ensures Keep(tickets, IndexesFrom(GetBadTickets(tickets, rules), 0), 0) == ValidFrom(tickets, rules, 0)
  {
    var bad := GetBadTickets(tickets, rules);
    BadTicketsFromIncreasing(tickets, rules, 0);
    forall k | 0 <= k < |bad|
      ensures bad[k].0 < |tickets|
    {
      assert bad[k] in bad;
      BadTicketsFromMember(tickets, rules, 0, bad[k].0, bad[k].1);
    }
    IndexesFromMembers(bad, 0);
    forall k | 0 <= k < |tickets|
      ensures k in IndexesFrom(bad, 0) <==> BadValue(tickets[k], rules).Some?
    {
      if BadValue(tickets[k], rules).Some? {
        BadTicketsFromMember(tickets, rules, 0, k, BadValue(tickets[k], rules).value);
        var e := (k, BadValue(tickets[k], rules).value);
        var m :| 0 <= m < |bad| && bad[m] == e;
      }
      if k in IndexesFrom(bad, 0) {
        var m :| 0 <= m < |bad| && bad[m].0 == k;
        assert bad[m] in bad;
        BadTicketsFromMember(tickets, rules, 0, k, bad[m].1);
      }
    }
    KeepValid(tickets, rules, IndexesFrom(bad, 0), 0);
  }

  lemma {:induction false} IndexesFromMembers(bad: seq<(nat, nat)>, j: nat)
    ensures forall k | j <= k < |bad| :: bad[k].0 in IndexesFrom(bad, j)
    decreases |bad| - j
  {
    if j < |bad| {
      IndexesFromMembers(bad, j + 1);
    }
  }

  /* ---------------- candidate columns ---------------- */

  /** The column indexes `0..n`. */
  function Columns(n: nat): (r: set<nat>)
    ensures forall c | c in r :: c < n
  {
    if n == 0 then {} else Columns(n - 1) + {n - 1}
  }

  lemma {:induction false} ColumnsMembers(n: nat, c: nat)
    ensures c in Columns(n) <==> c < n
  {
    if n > 0 {
      ColumnsMembers(n - 1, c);
    }
  }

  /** The columns of `ticket`, from `i` on, whose value breaks `rule`, in order. */
  function FailingFrom(ticket: seq<nat>, rule: Rule, i: nat): seq<nat>
    decreases |ticket| - i
  {
    if i >= |ticket| then []
    else (if SatisfiesRule(ticket[i], rule) then [] else [i]) + FailingFrom(ticket, rule, i + 1)
  }

  /** The columns whose value breaks `rule`, ticket by ticket from ticket `t` on: the order in
      which the scan meets them. */
  function Failing(tickets: seq<seq<nat>>, rule: Rule, t: nat): seq<nat>
    decreases |tickets| - t
  {
    if t >= |tickets| then [] else FailingFrom(tickets[t], rule, 0) + Failing(tickets, rule, t + 1)
  }

  /** The scan's removals: each failing column leaves the candidates, and the scan stops as
      soon as a removal leaves a single candidate. */
  function Eliminate(possible: set<nat>, failing: seq<nat>): set<nat>
  {
    if failing == [] then possible
    else
      var rest := possible - {failing[0]};
      if |rest| == 1 then rest else Eliminate(rest, failing[1..])
  }

  /** The scan only removes candidates, only removes failing columns, and unless it stopped at
      a single candidate it removes every failing one. */
  lemma {:induction false} EliminateMeaning(possible: set<nat>, failing: seq<nat>)
    ensures Eliminate(possible, failing) <= possible
    ensures forall c | c in possible && c !in Eliminate(possible, failing) :: c in failing
    ensures |Eliminate(possible, failing)| == 1 ||
            forall c | c in possible :: c in Eliminate(possible, failing) <==> c !in failing
  {
    if failing != [] {
      EliminateMeaning(possible - {failing[0]}, failing[1..]);
      assert forall c | c in failing[1..] :: c in failing;
      assert forall c | c in failing :: c == failing[0] || c in failing[1..];
    }
  }

  /** A value of `ticket` at column `c` from `i` on breaks the rule exactly when `c` is a
      failing column. */
  lemma {:induction false} FailingFromMembers(ticket: seq<nat>, rule: Rule, i: nat, c: nat)
    ensures c in FailingFrom(ticket, rule, i) <==> i <= c < |ticket| && !SatisfiesRule(ticket[c], rule)
    decreases |ticket| - i
  {
    if i < |ticket| {
      FailingFromMembers(ticket, rule, i + 1, c);
    }
  }

  /** A column fails in the scan exactly when some ticket's value there breaks the rule. */
  lemma {:induction false} FailingMembers(tickets: seq<seq<nat>>, rule: Rule, t: nat, c: nat)
    ensures c in Failing(tickets, rule, t) <==>
            exists u | t <= u < |tickets| :: c < |tickets[u]| && !SatisfiesRule(tickets[u][c], rule)
    decreases |tickets| - t
  {
    if t < |tickets| {
      FailingMembers(tickets, rule, t + 1, c);
      FailingFromMembers(tickets[t], rule, 0, c);
      if c in FailingFrom(tickets[t], rule, 0) {
        assert c < |tickets[t]| && !SatisfiesRule(tickets[t][c], rule);
      }
    }
  }

  /** One removal of the scan. */
  lemma EliminateStep(possible: set<nat>, index: nat, later: seq<nat>)
    ensures var rest := possible - {index};
            Eliminate(possible, [index] + later) == if |rest| == 1 then rest else Eliminate(rest, later)
  {
    assert ([index] + later)[0] == index && ([index] + later)[1..] == later;
  }

  /** The failing columns from `index` on, followed by `tail`, start with `index` when its
      value breaks the rule. */
  lemma FailingFromStep(ticket: seq<nat>, rule: Rule, index: nat, tail: seq<nat>)
    requires index < |ticket|
    ensures FailingFrom(ticket, rule, index) + tail ==
            (if SatisfiesRule(ticket[index], rule) then [] else [index]) + (FailingFrom(ticket, rule, index + 1) + tail)
  {
  }

  /** The scan over one ticket, before the failing columns `tail` of the later tickets: the
      candidates after it, and whether it returned early. */
  method ScanTicket(possible: set<nat>, ticket: seq<nat>, rule: Rule, ghost tail: seq<nat>)
    returns (possible': set<nat>, stop: bool)
    ensures Eliminate(possible, FailingFrom(ticket, rule, 0) + tail) ==
            if stop then possible' else Eliminate(possible', tail)
  {
    possible' := possible;
    stop := false;
    var index := 0;
    while index < |ticket|
      invariant index <= |ticket|
      invariant Eliminate(possible, FailingFrom(ticket, rule, 0) + tail) ==
                Eliminate(possible', FailingFrom(ticket, rule, index) + tail)
    {
      FailingFromStep(ticket, rule, index, tail);
      if !SatisfiesRule(ticket[index], rule) {
        EliminateStep(possible', index, FailingFrom(ticket, rule, index + 1) + tail);
        possible' := possible' - {index};
        if |possible'| == 1 {
          stop := true;
          return;
        }
      } else {
        var later := FailingFrom(ticket, rule, index + 1) + tail;
        assert [] + later == later;
      }
      index := index + 1;
    }
    assert FailingFrom(ticket, rule, index) + tail == tail;
  }

  /** The candidate columns of `rule` among `count` columns. */
  function Candidates(count: nat, tickets: seq<seq<nat>>, rule: Rule): set<nat>
  {
    Eliminate(Columns(count), Failing(tickets, rule, 0))
  }

  /** The per-rule closure of `run_day_sixteen`: start from every column and remove each column
      with a value that breaks `rule`, returning early once a removal leaves one column. */
  method PossibleColumns(count: nat, tickets: seq<seq<nat>>, rule: Rule) returns (possible: set<nat>)
    ensures possible == Candidates(count, tickets, rule)
  {
    ghost var goal := Eliminate(Columns(count), Failing(tickets, rule, 0));
    possible := Columns(count);
    var t := 0;
    while t < |tickets|
      invariant t <= |tickets|
      invariant Eliminate(possible, Failing(tickets, rule, t)) == goal
    {
      assert Failing(tickets, rule, t) == FailingFrom(tickets[t], rule, 0) + Failing(tickets, rule, t + 1);
      var stop;
      possible, stop := ScanTicket(possible, tickets[t], rule, Failing(tickets, rule, t + 1));
      if stop {
        return;
      }
      t := t + 1;
    }
  }

  /** `index_hashes`: the candidate columns of every rule. */
  method CandidateSets(rules: seq<Rule>, tickets: seq<seq<nat>>) returns (sets: seq<set<nat>>)
    ensures |sets| == |rules|
    ensures forall k | 0 <= k < |rules| :: sets[k] == Candidates(|rules|, tickets, rules[k])
  {
    sets := [];
    var k := 0;
    while k < |rules|
      invariant k <= |rules| && |sets| == k
      invariant forall m | 0 <= m < k :: sets[m] == Candidates(|rules|, tickets, rules[m])
    {
      var possible := PossibleColumns(|rules|, tickets, rules[k]);
      ghost var before := sets;
      sets := sets + [possible];
      assert forall m | 0 <= m < k :: sets[m] == before[m];
      k := k + 1;
    }
  }

  /** Each rule's candidates are columns, every column ruled out has a value breaking the rule,
      and unless the scan stopped at one candidate, the candidates are exactly the columns where
      every ticket's value satisfies the rule. */
  lemma CandidatesMeaning(count: nat, tickets: seq<seq<nat>>, rule: Rule, c: nat)
    ensures var possible := Candidates(count, tickets, rule);
            (c in possible ==> c < count) &&
            (c < count && c !in possible ==>
               exists u | 0 <= u < |tickets| :: c < |tickets[u]| && !SatisfiesRule(tickets[u][c], rule)) &&
            (|possible| != 1 && c < count ==>
               (c in possible <==>
                 forall u | 0 <= u < |tickets| :: c < |tickets[u]| ==> SatisfiesRule(tickets[u][c], rule)))
  {
    EliminateMeaning(Columns(count), Failing(tickets, rule, 0));
    ColumnsMembers(count, c);
    FailingMembers(tickets, rule, 0, c);
  }

  /* ---------------- the elimination rounds ---------------- */

  /** Every set is a subset of its counterpart, and none that was non-empty became empty. */
  predicate Shrinks(before: seq<set<nat>>, after: seq<set<nat>>)
  {
    |after| == |before| &&
    forall k | 0 <= k < |before| :: after[k] <= before[k] && (before[k] != {} ==> after[k] != {})
  }

  lemma ShrinksTransitive(a: seq<set<nat>>, b: seq<set<nat>>, c: seq<set<nat>>)
    requires Shrinks(a, b) && Shrinks(b, c)
    ensures Shrinks(a, c)
  {
    forall k | 0 <= k < |a|
      ensures c[k] <= a[k] && (a[k] != {} ==> c[k] != {})
    {
    }
  }

  /** The indexes, from `k` on, of the candidate sets holding column `i`. */
  function Holders(sets: seq<set<nat>>, i: nat, k: nat): (r: seq<nat>)
    ensures forall m | 0 <= m < |r| :: k <= r[m] < |sets| && i in sets[r[m]]
    decreases |sets| - k
  {
    if k >= |sets| then [] else (if i in sets[k] then [k] else []) + Holders(sets, i, k + 1)
  }

  /** One step of the `for i in 0..rules.len()` loop: when only one candidate set holds column
      `i`, that set becomes exactly `{i}`. */
  function Pin(sets: seq<set<nat>>, i: nat): (r: seq<set<nat>>)
    ensures |r| == |sets|
  {
    var holders := Holders(sets, i, 0);
    if |holders| == 1 then sets[holders[0] := {i}] else sets
  }

  /** The `for i` loop from column `i` up to `count`. */
  function PinFrom(sets: seq<set<nat>>, i: nat, count: nat): (r: seq<set<nat>>)
    ensures |r| == |sets|
    decreases count - i
  {
    if i >= count then sets else PinFrom(Pin(sets, i), i + 1, count)
  }

  /** `to_clear`: the singleton candidate sets from index `k` on, in order (each stands for its
      one column). */
  function Singletons(sets: seq<set<nat>>, k: nat): (r: seq<set<nat>>)
    ensures forall m | 0 <= m < |r| :: |r[m]| == 1
    decreases |sets| - k
  {
    if k >= |sets| then [] else (if |sets[k]| == 1 then [sets[k]] else []) + Singletons(sets, k + 1)
  }

  /** Removing the column of `single` from every candidate set that holds more than one column,
      from index `k` on. */
  function ClearFrom(sets: seq<set<nat>>, single: set<nat>, k: nat): (r: seq<set<nat>>)
    ensures |r| == |sets|
    decreases |sets| - k
  {
    if k >= |sets| then sets
    else ClearFrom(sets[k := if |sets[k]| > 1 then sets[k] - single else sets[k]], single, k + 1)
  }

  /** The `for v in to_clear` loop. */
  function ClearAll(sets: seq<set<nat>>, singles: seq<set<nat>>): (r: seq<set<nat>>)
    ensures |r| == |sets|
    decreases |singles|
  {
    if singles == [] then sets else ClearAll(ClearFrom(sets, singles[0], 0), singles[1..])
  }

  /** One round of the `while` loop of `run_day_sixteen`. */
  function Round(sets: seq<set<nat>>, count: nat): (r: seq<set<nat>>)
    ensures |r| == |sets|
  {
    var pinned := PinFrom(sets, 0, count);
    ClearAll(pinned, Singletons(pinned, 0))
  }

  /** No candidate set holds more than one column: the `while` condition fails. */
  predicate Settled(sets: seq<set<nat>>)
  {
    forall k | 0 <= k < |sets| :: |sets[k]| <= 1
  }

  /** Up to `fuel` rounds, stopping once settled. */
  function Rounds(sets: seq<set<nat>>, count: nat, fuel: nat): (r: seq<set<nat>>)
    ensures |r| == |sets|
    decreases fuel
  {
    if fuel == 0 || Settled(sets) then sets else Rounds(Round(sets, count), count, fuel - 1)
  }

  lemma PinShrinks(sets: seq<set<nat>>, i: nat)
    ensures Shrinks(sets, Pin(sets, i))
  {
    var holders := Holders(sets, i, 0);
    if |holders| == 1 {
      assert i in sets[holders[0]];
    }
  }

  lemma {:induction false} PinFromShrinks(sets: seq<set<nat>>, i: nat, count: nat)
    ensures Shrinks(sets, PinFrom(sets, i, count))
    decreases count - i
  {
    if i < count {
      PinShrinks(sets, i);
      PinFromShrinks(Pin(sets, i), i + 1, count);
      ShrinksTransitive(sets, Pin(sets, i), PinFrom(sets, i, count));
    }
  }

  /** A subset is no larger than its superset. */
  lemma {:induction false} SubsetSize(a: set<nat>, b: set<nat>)
    requires a <= b
    ensures |a| <= |b|
    decreases |a|
  {
    if a != {} {
      var x :| x in a;
      SubsetSize(a - {x}, b - {x});
    }
  }

  /** Removing one column from a set of more than one leaves it non-empty. */
  lemma RemoveSingle(z: set<nat>, single: set<nat>)
    requires |z| > 1 && |single| == 1
    ensures z - single <= z && z - single != {}
  {
    var rest := z - single;
    assert z <= rest + single;
    SubsetSize(z, rest + single);
    assert |rest + single| <= |rest| + |single|;
  }

  lemma {:induction false} ClearFromShrinks(sets: seq<set<nat>>, single: set<nat>, k: nat)
    requires |single| == 1
    ensures Shrinks(sets, ClearFrom(sets, single, k))
    decreases |sets| - k
  {
    if k < |sets| {
      var next := sets[k := if |sets[k]| > 1 then sets[k] - single else sets[k]];
      if |sets[k]| > 1 {
        RemoveSingle(sets[k], single);
      }
      assert Shrinks(sets, next);
      ClearFromShrinks(next, single, k + 1);
      ShrinksTransitive(sets, next, ClearFrom(sets, single, k));
    }
  }

  lemma {:induction false} ClearAllShrinks(sets: seq<set<nat>>, singles: seq<set<nat>>)
    requires forall m | 0 <= m < |singles| :: |singles[m]| == 1
    ensures Shrinks(sets, ClearAll(sets, singles))
    decreases |singles|
  {
    if singles != [] {
      var next := ClearFrom(sets, singles[0], 0);
      ClearFromShrinks(sets, singles[0], 0);
      assert forall m | 0 <= m < |singles| - 1 :: singles[1..][m] == singles[m + 1];
      ClearAllShrinks(next, singles[1..]);
      ShrinksTransitive(sets, next, ClearAll(sets, singles));
    }
  }

  /** One round only shrinks the candidate sets, and never empties a non-empty one. */
  lemma RoundShrinks(sets: seq<set<nat>>, count: nat)
    ensures Shrinks(sets, Round(sets, count))
  {
    var pinned := PinFrom(sets, 0, count);
    PinFromShrinks(sets, 0, count);
    ClearAllShrinks(pinned, Singletons(pinned, 0));
    ShrinksTransitive(sets, pinned, Round(sets, count));
  }

  lemma {:induction false} RoundsShrink(sets: seq<set<nat>>, count: nat, fuel: nat)
    ensures Shrinks(sets, Rounds(sets, count, fuel))
    decreases fuel
  {
    if fuel > 0 && !Settled(sets) {
      RoundShrinks(sets, count);
      RoundsShrink(Round(sets, count), count, fuel - 1);
      ShrinksTransitive(sets, Round(sets, count), Rounds(sets, count, fuel));
    }
  }

  /** When the rounds settle on candidate sets that were all non-empty, every rule is left with
      exactly one column, one of its candidates. */
  lemma SettledSingletons(sets: seq<set<nat>>, count: nat, fuel: nat, k: nat)
    requires k < |sets| && sets[k] != {}
    requires Settled(Rounds(sets, count, fuel))
    ensures |Rounds(sets, count, fuel)[k]| == 1 && Rounds(sets, count, fuel)[k] <= sets[k]
  {
    RoundsShrink(sets, count, fuel);
    var r := Rounds(sets, count, fuel)[k];
    assert r != {} && |r| <= 1;
  }

  /** `indexes`: the candidate sets holding column `i`, by a filter over their indexes. */
  method HoldersOf(sets: seq<set<nat>>, i: nat) returns (indexes: seq<nat>)
    ensures indexes == Holders(sets, i, 0)
  {
    indexes := [];
    var k := 0;
    while k < |sets|
      invariant k <= |sets|
      invariant indexes + Holders(sets, i, k) == Holders(sets, i, 0)
    {
      var step := if i in sets[k] then [k] else [];
      assert Holders(sets, i, k) == step + Holders(sets, i, k + 1);
      Associative(indexes, step, Holders(sets, i, k + 1));
      indexes := indexes + step;
      k := k + 1;
    }
    assert indexes + [] == indexes;
  }

  /** The `for i in 0..rules.len()` loop: each column held by a single candidate set becomes
      that set's only column (`clear` then `insert`). */
  method PinColumns(sets: seq<set<nat>>, count: nat) returns (pinned: seq<set<nat>>)
    ensures pinned == PinFrom(sets, 0, count)
  {
    pinned := sets;
    var i := 0;
    while i < count
      invariant i <= count
      invariant PinFrom(pinned, i, count) == PinFrom(sets, 0, count)
    {
      var indexes := HoldersOf(pinned, i);
      if |indexes| == 1 {
        pinned := pinned[indexes[0] := {i}];
      }
      i := i + 1;
    }
  }

  /** `to_clear`: the singleton candidate sets, in order. */
  method CollectSingletons(sets: seq<set<nat>>) returns (singles: seq<set<nat>>)
    ensures singles == Singletons(sets, 0)
  {
    singles := [];
    var k := 0;
    while k < |sets|
      invariant k <= |sets|
      invariant singles + Singletons(sets, k) == Singletons(sets, 0)
    {
      var step := if |sets[k]| == 1 then [sets[k]] else [];
      assert Singletons(sets, k) == step + Singletons(sets, k + 1);
      Associative(singles, step, Singletons(sets, k + 1));
      singles := singles + step;
      k := k + 1;
    }
    assert singles + [] == singles;
  }

  /** The `for v in to_clear` loop with its `for_each` over the candidate sets: the column of
      each singleton leaves every set that still holds more than one column. */
  method ClearSingles(sets: seq<set<nat>>, singles: seq<set<nat>>) returns (cleared: seq<set<nat>>)
    ensures cleared == ClearAll(sets, singles)
  {
    cleared := sets;
    var j := 0;
    while j < |singles|
      invariant j <= |singles|
      invariant ClearAll(cleared, singles[j..]) == ClearAll(sets, singles)
    {
      var single := singles[j];
      ghost var start := cleared;
      var k := 0;
      while k < |cleared|
        invariant k <= |cleared| == |start|
        invariant ClearFrom(cleared, single, k) == ClearFrom(start, single, 0)
      {
        if |cleared[k]| > 1 {
          cleared := cleared[k := cleared[k] - single];
        } else {
          assert cleared[k := cleared[k]] == cleared;
        }
        k := k + 1;
      }
      assert singles[j..][0] == single && singles[j..][1..] == singles[j + 1..];
      j := j + 1;
    }
  }

  /** One iteration of the `while` loop. */
  method EliminationRound(sets: seq<set<nat>>, count: nat) returns (next: seq<set<nat>>)
    ensures next == Round(sets, count)
    ensures Shrinks(sets, next)
  {
    var pinned := PinColumns(sets, count);
    var singles := CollectSingletons(pinned);
    next := ClearSingles(pinned, singles);
    RoundShrinks(sets, count);
  }

  /** The `while index_hashes.iter().any(|x| x.len() > 1)` loop, run for at most `fuel`
      rounds: the candidate sets it ends with and whether it settled. */
  method Resolve(sets: seq<set<nat>>, count: nat, fuel: nat) returns (resolved: seq<set<nat>>, settled: bool)
    ensures resolved == Rounds(sets, count, fuel)
    ensures settled <==> Settled(resolved)
    ensures Shrinks(sets, resolved)
  {
    resolved := sets;
    var left := fuel;
    while left > 0 && exists k | 0 <= k < |resolved| :: |resolved[k]| > 1
      invariant Rounds(resolved, count, left) == Rounds(sets, count, fuel)
      invariant Shrinks(sets, resolved)
    {
      var next := EliminationRound(resolved, count);
      ShrinksTransitive(sets, resolved, next);
      resolved := next;
      left := left - 1;
    }
    settled := forall k | 0 <= k < |resolved| :: |resolved[k]| <= 1;
  }
}
