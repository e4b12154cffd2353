/** Monster messages (src/day_nineteen.rs): grammar rule lines parsed into a tree of
    productions per rule number, and the tree of rule 0 expanded into the text of a regular
    expression. */
module DayNineteen {
  import opened Common

  datatype ProductionRule =
    | TerminalSymbol(symbol: char)
    | Reference(index: nat)
    | And(ProductionRule, ProductionRule)
    | Or(ProductionRule, ProductionRule)

  type Rules = map<nat, ProductionRule>

  /* ---------------- the And fold of a sequence ---------------- */

  /** The fold over the further numbers of a sequence, each joined to the right of what came
      before. */
  function FoldAnd(prev: ProductionRule, rest: seq<nat>): ProductionRule
    decreases |rest|
  {
    if rest == [] then prev else FoldAnd(And(prev, Reference(rest[0])), rest[1..])
  }

  /** The referenced rule numbers of an And spine, left to right. */
  function Refs(e: ProductionRule): seq<nat>
  {
    match e
    case Reference(k) => [k]
    case And(x, y) => Refs(x) + Refs(y)
    case _ => []
  }

  /** An And spine nested to the left: every right operand, and the leftmost leaf, is a
      Reference. */
  predicate LeftNested(e: ProductionRule)
  {
    match e
    case Reference(_) => true
    case And(x, y) => y.Reference? && LeftNested(x)
    case _ => false
  }

  /** The fold keeps the spine nested to the left and appends the numbers in order. */
  lemma {:induction false} FoldAndShape(prev: ProductionRule, rest: seq<nat>)
    requires LeftNested(prev)
    ensures LeftNested(FoldAnd(prev, rest))
    ensures Refs(FoldAnd(prev, rest)) == Refs(prev) + rest
    decreases |rest|
  {
    if rest != [] {
      FoldAndShape(And(prev, Reference(rest[0])), rest[1..]);
      assert Refs(prev) + [rest[0]] + rest[1..] == Refs(prev) + rest;
    }
  }

  /** The production of one alternative: None when it names no rule number. */
  function Sequence(productions: seq<nat>): (r: Option<ProductionRule>)
    ensures r.None? <==> productions == []
    ensures r.Some? ==> !r.value.Or? && LeftNested(r.value) && Refs(r.value) == productions
  {
    if productions == [] then None
    else
      FoldAndShape(Reference(productions[0]), productions[1..]);
      Some(FoldAnd(Reference(productions[0]), productions[1..]))
  }

  /* ---------------- the Or fold of the alternatives ---------------- */

  /** The fold over the reversed alternatives before the last, each joined to the left of
      what came before. */
  function FoldOr(prefix: seq<ProductionRule>, last: ProductionRule): ProductionRule
    decreases |prefix|
  {
    if prefix == [] then last
    else FoldOr(prefix[..|prefix| - 1], Or(prefix[|prefix| - 1], last))
  }

  /** The alternatives along the right spine of Or nodes. */
  function Disjuncts(e: ProductionRule): seq<ProductionRule>
  {
    match e
    case Or(x, y) => [x] + Disjuncts(y)
    case _ => [e]
  }

  /** The fold nests to the right and keeps the alternatives in order. */
  lemma {:induction false} FoldOrOrder(prefix: seq<ProductionRule>, last: ProductionRule)
    requires forall k | 0 <= k < |prefix| :: !prefix[k].Or?
    ensures Disjuncts(FoldOr(prefix, last)) == prefix + Disjuncts(last)
    decreases |prefix|
  {
    if prefix != [] {
      var init, x := prefix[..|prefix| - 1], prefix[|prefix| - 1];
      FoldOrOrder(init, Or(x, last));
      assert init + ([x] + Disjuncts(last)) == prefix + Disjuncts(last);
    }
  }

  /* ---------------- parse_grammar_into_rules ---------------- */

  /** The pieces that parse as a `usize` once trimmed, in order. */
  function ParsedNumbers(pieces: seq<string>): seq<nat>
  {
    if pieces == [] then []
    else
      match ParseUnsigned(Trim(pieces[0]), USIZE_BOUND)
      case Some(v) => [v] + ParsedNumbers(pieces[1..])
      case None => ParsedNumbers(pieces[1..])
  }

  /** The rule numbers of one alternative: its space-separated pieces that parse. */
  function Productions(subRule: string): seq<nat>
  {
    ParsedNumbers(SplitOn(subRule, {' '}))
  }

  /** The productions of the alternatives that name at least one rule number, in order. */
  function Alternatives(subRules: seq<string>): (r: seq<ProductionRule>)
    ensures forall k | 0 <= k < |r| :: !r[k].Or?
  {
    if subRules == [] then []
    else
      match Sequence(Productions(subRules[0]))
      case Some(e) => [e] + Alternatives(subRules[1..])
      case None => Alternatives(subRules[1..])
  }

  /** The rule number and production of one line, or None when the line is skipped: no `:`,
      a rule number that does not parse, a quote with nothing after it, or no alternative
      naming a rule number. */
  function ParseLine(line: string): Option<(nat, ProductionRule)>
  {
    var split := SplitN(line, 2, {':'});
    if |split| < 2 then None
    else
      match ParseUnsigned(split[0], USIZE_BOUND)
      case None => None
      case Some(rule) =>
        var rest := split[1];
        match IndexOfAny(rest, {'"'})
        case Some(q) =>
          if q + 1 < |rest| then Some((rule, TerminalSymbol(rest[q + 1]))) else None
        case None =>
          var alternatives := Alternatives(SplitOn(rest, {'|'}));
          if alternatives == [] then None
          else
            var last := |alternatives| - 1;
            Some((rule, FoldOr(alternatives[..last], alternatives[last])))
  }

  /** The map a sequence of parsed lines builds: each parsed line inserts its rule, a later
      line for the same number replacing an earlier one. */
  function Insertions(parsed: seq<Option<(nat, ProductionRule)>>): Rules
  {
    if parsed == [] then map[]
    else
      var rules := Insertions(parsed[..|parsed| - 1]);
      match parsed[|parsed| - 1]
      case Some(entry) => rules[entry.0 := entry.1]
      case None => rules
  }

  /** Entry `i` of the parsed lines defines a rule numbered `k`. */
  predicate DefinesAt(parsed: seq<Option<(nat, ProductionRule)>>, i: nat, k: nat)
    requires i < |parsed|
  {
    parsed[i].Some? && parsed[i].value.0 == k
  }

  /** A number has a rule exactly when some entry defines it, and the rule is that of the last
      such entry. */
  lemma {:induction false} InsertionsLookup(parsed: seq<Option<(nat, ProductionRule)>>, k: nat)
    ensures k in Insertions(parsed) <==> exists i | 0 <= i < |parsed| :: DefinesAt(parsed, i, k)
    ensures k in Insertions(parsed) ==>
              exists i | 0 <= i < |parsed| :: DefinesAt(parsed, i, k) &&
                Insertions(parsed)[k] == parsed[i].value.1 &&
                forall j | i < j < |parsed| :: !DefinesAt(parsed, j, k)
  {
    if parsed != [] {
      var n := |parsed| - 1;
      var init := parsed[..n];
      InsertionsLookup(init, k);
      assert forall i | 0 <= i < n :: init[i] == parsed[i];
      if DefinesAt(parsed, n, k) {
        assert Insertions(parsed)[k] == parsed[n].value.1;
      } else if k in Insertions(init) {
        var i :| 0 <= i < n && DefinesAt(init, i, k) &&
                Insertions(init)[k] == init[i].value.1 &&
                forall j | i < j < n :: !DefinesAt(init, j, k);
        assert DefinesAt(parsed, i, k);
        assert Insertions(parsed)[k] == Insertions(init)[k];
        assert forall j | i < j < |parsed| :: !DefinesAt(parsed, j, k) by {
          forall j | i < j < |parsed|
            ensures !DefinesAt(parsed, j, k)
          {
            if j < n {
              assert !DefinesAt(init, j, k);
            }
          }
        }
      } else {
        assert forall i | 0 <= i < n :: !DefinesAt(parsed, i, k) by {
          forall i | 0 <= i < n
            ensures !DefinesAt(parsed, i, k)
          {
            assert !DefinesAt(init, i, k);
          }
        }
      }
    }
  }

  function ParsedLines(lines: seq<string>): (parsed: seq<Option<(nat, ProductionRule)>>)
    ensures |parsed| == |lines|
    ensures forall i | 0 <= i < |lines| :: parsed[i] == ParseLine(lines[i])
  {
    seq(|lines|, i requires 0 <= i < |lines| => ParseLine(lines[i]))
  }

  /** The rules of the grammar lines. */
  function GrammarRules(lines: seq<string>): Rules
  {
    Insertions(ParsedLines(lines))
  }

  /** `line` parses to a rule numbered `k`. */
  predicate Defines(line: string, k: nat)
  {
    ParseLine(line).Some? && ParseLine(line).value.0 == k
  }

  /** A number has a rule exactly when some line defines it, and the rule is that of the last
      such line. */
  lemma GrammarRulesLookup(lines: seq<string>, k: nat)
    ensures k in GrammarRules(lines) <==> exists i | 0 <= i < |lines| :: Defines(lines[i], k)
    ensures k in GrammarRules(lines) ==>
              exists i | 0 <= i < |lines| :: Defines(lines[i], k) &&
                GrammarRules(lines)[k] == ParseLine(lines[i]).value.1 &&
                forall j | i < j < |lines| :: !Defines(lines[j], k)
  {
    var parsed := ParsedLines(lines);
    InsertionsLookup(parsed, k);
    assert forall i | 0 <= i < |lines| :: DefinesAt(parsed, i, k) == Defines(lines[i], k);
  }

  /** `parse_grammar_into_rules`: one insertion per parsed line. */
  method ParseGrammarIntoRules(lines: seq<string>) returns (rules: Rules)
    ensures rules == GrammarRules(lines)
  {
    ghost var parsed := ParsedLines(lines);
    rules := map[];
    for n := 0 to |lines|
      invariant rules == Insertions(parsed[..n])
    {
      assert parsed[..n + 1][..n] == parsed[..n];
      var entry := ParseLine(lines[n]);
      if entry.Some? {
        rules := rules[entry.value.0 := entry.value.1];
      }
    }
    assert parsed[..|lines|] == parsed;
  }

  /* ---------------- lines of the puzzle's forms ---------------- */

  /** Rule numbers separated by single spaces. */
  function Decimals(ps: seq<nat>): (ds: seq<string>)
    ensures |ds| == |ps|
  {
    if ps == [] then [] else [Decimal(ps[0])] + Decimals(ps[1..])
  }

  function Spaced(ps: seq<nat>): string
  {
    Join(Decimals(ps), " ")
  }

  /** `s` holds only characters of `chars`. */
  predicate Within(s: string, chars: set<char>)
  {
    forall k | 0 <= k < |s| :: s[k] in chars
  }

  const SPACED_CHARS: set<char> := {' ', '0', '1', '2', '3', '4', '5', '6', '7', '8', '9'}

  lemma DecimalPlain(n: nat)
    ensures Within(Decimal(n), SPACED_CHARS)
  {
    var d := Decimal(n);
    forall k | 0 <= k < |d|
      ensures d[k] in SPACED_CHARS
    {
      assert IsDigit(d[k]);
    }
  }

  lemma {:induction false} JoinWithin(parts: seq<string>, sep: string, chars: set<char>)
    requires Within(sep, chars)
    requires forall i | 0 <= i < |parts| :: Within(parts[i], chars)
    ensures Within(Join(parts, sep), chars)
  {
    if |parts| > 1 {
      JoinWithin(parts[1..], sep, chars);
      var tail := Join(parts[1..], sep);
      assert Join(parts, sep) == parts[0] + sep + tail;
      forall k | 0 <= k < |parts[0] + sep + tail|
        ensures (parts[0] + sep + tail)[k] in chars
      {
        if k >= |parts[0]| + |sep| {
          assert (parts[0] + sep + tail)[k] == tail[k - |parts[0]| - |sep|];
        }
      }
    }
  }

  lemma SpacedPlain(ps: seq<nat>)
    ensures Within(Spaced(ps), SPACED_CHARS)
  {
    var ds := Decimals(ps);
    forall i | 0 <= i < |ds|
      ensures Within(ds[i], SPACED_CHARS)
    {
      DecimalsAt(ps, i);
      DecimalPlain(ps[i]);
    }
    JoinWithin(ds, " ", SPACED_CHARS);
  }

  lemma {:induction false} DecimalsAt(ps: seq<nat>, i: nat)
    requires i < |ps|
    ensures Decimals(ps)[i] == Decimal(ps[i])
  {
    if i > 0 {
      DecimalsAt(ps[1..], i - 1);
    }
  }

  /** A digit string is its own trim. */
  lemma TrimDigits(s: string)
    requires AllDigits(s)
    ensures Trim(s) == s
  {
    assert TrimStart(s) == s;
    assert TrimEnd(s) == s;
  }

  lemma {:induction false} ParsedNumbersConcat(a: seq<string>, b: seq<string>)
    ensures ParsedNumbers(a + b) == ParsedNumbers(a) + ParsedNumbers(b)
  {
    if a == [] {
      assert a + b == b;
    } else {
      assert (a + b)[0] == a[0] && (a + b)[1..] == a[1..] + b;
      ParsedNumbersConcat(a[1..], b);
    }
  }

  lemma {:induction false} ParsedDecimals(ps: seq<nat>)
    requires forall k | 0 <= k < |ps| :: ps[k] < USIZE_BOUND
    ensures ParsedNumbers(Decimals(ps)) == ps
  {
    if ps != [] {
      TrimDigits(Decimal(ps[0]));
      ParseDecimal(ps[0], USIZE_BOUND);
      ParsedDecimals(ps[1..]);
      assert Decimals(ps)[1..] == Decimals(ps[1..]);
    }
  }

  lemma SplitSpaced(ps: seq<nat>)
    requires ps != []
    ensures SplitOn(Spaced(ps), {' '}) == Decimals(ps)
  {
    var ds := Decimals(ps);
    forall i, k | 0 <= i < |ds| && 0 <= k < |ds[i]|
      ensures ds[i][k] != ' '
    {
      DecimalsAt(ps, i);
      assert IsDigit(ds[i][k]);
    }
    SplitOnJoin(ds, ' ');
  }

  lemma SplitLeadingSpace(t: string)
    ensures SplitOn(" " + t, {' '}) == [""] + SplitOn(t, {' '})
  {
    assert " " + t == [] + [' '] + t;
    SplitOnAfterPrefix([], ' ', t, {' '});
  }

  lemma SplitTrailingSpace(t: string)
    ensures SplitOn(t + " ", {' '}) == SplitOn(t, {' '}) + [""]
  {
    assert t + " " == t + [' '] + [];
    SplitOnConcat(t, ' ', [], {' '});
  }

  /** A space before the numbers of an alternative is ignored. */
  lemma ProductionsLeading(ps: seq<nat>)
    requires ps != [] && forall k | 0 <= k < |ps| :: ps[k] < USIZE_BOUND
    ensures Productions(" " + Spaced(ps)) == ps
  {
    SplitSpaced(ps);
    ParsedDecimals(ps);
    ParsedNumbersConcat([""], Decimals(ps));
    SplitLeadingSpace(Spaced(ps));
  }

  /** Spaces on both sides of the numbers of an alternative are ignored. */
  lemma ProductionsPadded(ps: seq<nat>)
    requires ps != [] && forall k | 0 <= k < |ps| :: ps[k] < USIZE_BOUND
    ensures Productions(" " + Spaced(ps) + " ") == ps
  {
    var body := Spaced(ps);
    var ds := Decimals(ps);
    SplitSpaced(ps);
    SplitTrailingSpace(body);
    assert SplitOn(body + " ", {' '}) == ds + [""];
    assert " " + body + " " == " " + (body + " ");
    SplitLeadingSpace(body + " ");
    var pieces := SplitOn(" " + body + " ", {' '});
    assert pieces == [""] + ds + [""];
    ParsedNumbersConcat([""] + ds, [""]);
    ParsedNumbersConcat([""], ds);
    ParsedDecimals(ps);
    assert ParsedNumbers(pieces) == ParsedNumbers([""] + ds) + ParsedNumbers([""]);
  }

  /** The alternatives of a rule line `n: a b | c d`: a space before each alternative and
      after every one but the last. */
  function SubRuleTexts(pss: seq<seq<nat>>): (ts: seq<string>)
    ensures |ts| == |pss|
  {
    seq(|pss|, i requires 0 <= i < |pss| =>
          if i < |pss| - 1 then " " + Spaced(pss[i]) + " " else " " + Spaced(pss[i]))
  }

  lemma {:induction false} AlternativesOfTexts(texts: seq<string>, pss: seq<seq<nat>>)
    requires |texts| == |pss|
    requires forall i | 0 <= i < |pss| :: pss[i] != [] && Productions(texts[i]) == pss[i]
    ensures var alts := Alternatives(texts);
            |alts| == |pss| &&
            forall i | 0 <= i < |pss| :: LeftNested(alts[i]) && Refs(alts[i]) == pss[i]
  {
    if texts != [] {
      AlternativesOfTexts(texts[1..], pss[1..]);
    }
  }

  /** A rule line of the form `n: "c"` defines rule n as the terminal c. */
  lemma TerminalLine(n: nat, c: char)
    requires n < USIZE_BOUND
    ensures ParseLine(Decimal(n) + ": \"" + [c] + "\"") == Some((n, TerminalSymbol(c)))
  {
    var rest := " \"" + [c] + "\"";
    ColonSplit(n, rest);
    assert Decimal(n) + ": \"" + [c] + "\"" == Decimal(n) + ":" + rest;
    assert IndexOfAny(rest, {'"'}) == Some(1);
  }

  /** A rule number and a colon: the number parses and the rest follows the colon. */
  lemma ColonSplit(n: nat, rest: string)
    requires n < USIZE_BOUND
    ensures var split := SplitN(Decimal(n) + ":" + rest, 2, {':'});
            split == [Decimal(n), rest] && ParseUnsigned(split[0], USIZE_BOUND) == Some(n)
  {
    var d := Decimal(n);
    assert forall k | 0 <= k < |d| :: IsDigit(d[k]);
    IndexOfAnyAbsent(d, {':'});
    assert d + ":" + rest == d + [':'] + rest;
    SplitNAfterPrefix(d, ':', rest, 2, {':'});
    ParseDecimal(n, USIZE_BOUND);
  }

  /** A rule number, a colon and a text without quotes: the alternatives of the text. */
  lemma ColonLine(n: nat, rest: string)
    requires n < USIZE_BOUND && forall k | 0 <= k < |rest| :: rest[k] != '"'
    ensures var alternatives := Alternatives(SplitOn(rest, {'|'}));
            ParseLine(Decimal(n) + ":" + rest) ==
              if alternatives == [] then None
              else Some((n, FoldOr(alternatives[..|alternatives| - 1], alternatives[|alternatives| - 1])))
  {
    ColonSplit(n, rest);
    IndexOfAnyAbsent(rest, {'"'});
  }

  /** The alternative texts hold only digits and spaces, and name their numbers. */
  lemma SubRuleTextsPlain(pss: seq<seq<nat>>)
    requires forall i | 0 <= i < |pss| :: pss[i] != []
    requires forall i, k | 0 <= i < |pss| && 0 <= k < |pss[i]| :: pss[i][k] < USIZE_BOUND
    ensures var texts := SubRuleTexts(pss);
            forall i | 0 <= i < |pss| :: Within(texts[i], SPACED_CHARS) && Productions(texts[i]) == pss[i]
  {
    var texts := SubRuleTexts(pss);
    forall i | 0 <= i < |pss|
      ensures Within(texts[i], SPACED_CHARS) && Productions(texts[i]) == pss[i]
    {
      SpacedPlain(pss[i]);
      if i < |pss| - 1 {
        ProductionsPadded(pss[i]);
      } else {
        ProductionsLeading(pss[i]);
      }
      var t := texts[i];
      var s := Spaced(pss[i]);
      forall k | 0 <= k < |t|
        ensures t[k] in SPACED_CHARS
      {
        if 1 <= k < 1 + |s| {
          assert t[k] == s[k - 1];
        }
      }
    }
  }

  /** Folding alternatives that are not themselves Or nodes: the alternatives along the
      right spine are exactly those, in order. */
  lemma FoldOrAlternatives(alts: seq<ProductionRule>)
    requires alts != [] && forall k | 0 <= k < |alts| :: !alts[k].Or?
    ensures Disjuncts(FoldOr(alts[..|alts| - 1], alts[|alts| - 1])) == alts
  {
    var last := |alts| - 1;
    FoldOrOrder(alts[..last], alts[last]);
    assert alts[..last] + [alts[last]] == alts;
  }

  /** A rule line of the form `n: a b | c d | ...` defines rule n as the alternatives in order,
      nested to the right, each one the numbers of its sequence in order, nested to the left. */
  lemma AlternativesLine(n: nat, pss: seq<seq<nat>>) returns (e: ProductionRule)
    requires n < USIZE_BOUND && pss != []
    requires forall i | 0 <= i < |pss| :: pss[i] != []
    requires forall i, k | 0 <= i < |pss| && 0 <= k < |pss[i]| :: pss[i][k] < USIZE_BOUND
    ensures ParseLine(Decimal(n) + ":" + Join(SubRuleTexts(pss), "|")) == Some((n, e))
    ensures |Disjuncts(e)| == |pss|
    ensures forall i | 0 <= i < |pss| :: LeftNested(Disjuncts(e)[i]) && Refs(Disjuncts(e)[i]) == pss[i]
  {
    var texts := SubRuleTexts(pss);
    var rest := Join(texts, "|");
    SubRuleTextsPlain(pss);
    JoinWithin(texts, "|", SPACED_CHARS + {'|'});
    forall i, k | 0 <= i < |texts| && 0 <= k < |texts[i]|
      ensures texts[i][k] != '|'
    {
      assert texts[i][k] in SPACED_CHARS;
    }
    SplitOnJoin(texts, '|');
    AlternativesOfTexts(texts, pss);
    ColonLine(n, rest);
    var alts := Alternatives(texts);
    FoldOrAlternatives(alts);
    e := FoldOr(alts[..|alts| - 1], alts[|alts| - 1]);
  }

  /** A line whose text after the colon has neither a quote nor a digit is skipped. */
  lemma NoProductionsSkipped(n: nat, text: string)
    requires n < USIZE_BOUND
    requires forall k | 0 <= k < |text| :: text[k] != '"' && !IsDigit(text[k])
    ensures ParseLine(Decimal(n) + ":" + text).None?
  {
    ColonLine(n, text);
    DigitFreeSplit(text, {'|'});
    DigitFreeAlternatives(SplitOn(text, {'|'}));
  }

  predicate DigitFree(s: string)
  {
    forall k | 0 <= k < |s| :: !IsDigit(s[k])
  }

  lemma {:induction false} DigitFreeSplit(s: string, seps: set<char>)
    requires DigitFree(s)
    ensures forall i | 0 <= i < |SplitOn(s, seps)| :: DigitFree(SplitOn(s, seps)[i])
    decreases |s|
  {
    match IndexOfAny(s, seps)
    case None =>
    case Some(i) =>
      assert DigitFree(s[..i]);
      var after := s[i + 1..];
      assert DigitFree(after) by {
        forall k | 0 <= k < |after|
          ensures !IsDigit(after[k])
        {
          assert after[k] == s[i + 1 + k];
        }
      }
      DigitFreeSplit(after, seps);
  }

  lemma {:induction false} TrimStartDigitFree(s: string)
    requires DigitFree(s)
    ensures DigitFree(TrimStart(s))
    decreases |s|
  {
    if s != [] && IsWhitespace(s[0]) {
      assert forall k | 0 <= k < |s[1..]| :: s[1..][k] == s[k + 1];
      TrimStartDigitFree(s[1..]);
    }
  }

  lemma {:induction false} TrimEndDigitFree(s: string)
    requires DigitFree(s)
    ensures DigitFree(TrimEnd(s))
    decreases |s|
  {
    if s != [] && IsWhitespace(s[|s| - 1]) {
      assert forall k | 0 <= k < |s| - 1 :: s[..|s| - 1][k] == s[k];
      TrimEndDigitFree(s[..|s| - 1]);
    }
  }

  /** A text without digits never parses as a number. */
  lemma DigitFreeUnparsed(s: string)
    requires DigitFree(s)
    ensures ParseUnsigned(Trim(s), USIZE_BOUND).None?
  {
    TrimStartDigitFree(s);
    TrimEndDigitFree(TrimStart(s));
    var t := Trim(s);
    if |t| > 0 && t[0] == '+' && |t| > 1 {
      assert t[1..][0] == t[1];
    }
  }

  lemma {:induction false} DigitFreeNumbers(pieces: seq<string>)
    requires forall i | 0 <= i < |pieces| :: DigitFree(pieces[i])
    ensures ParsedNumbers(pieces) == []
  {
    if pieces != [] {
      DigitFreeUnparsed(pieces[0]);
      DigitFreeNumbers(pieces[1..]);
    }
  }

  lemma {:induction false} DigitFreeAlternatives(subRules: seq<string>)
    requires forall i | 0 <= i < |subRules| :: DigitFree(subRules[i])
    ensures Alternatives(subRules) == []
  {
    if subRules != [] {
      DigitFreeSplit(subRules[0], {' '});
      DigitFreeNumbers(SplitOn(subRules[0], {' '}));
      DigitFreeAlternatives(subRules[1..]);
    }
  }

  /* ---------------- expand ---------------- */

  /** The rule numbers a production refers to directly. */
  function References(e: ProductionRule): set<nat>
  {
    match e
    case TerminalSymbol(_) => {}
    case Reference(k) => {k}
    case And(x, y) => References(x) + References(y)
    case Or(x, y) => References(x) + References(y)
  }

  /** Every rule `e` refers to exists and is ranked below `bound`. */
  predicate Below(rules: Rules, rank: map<nat, nat>, e: ProductionRule, bound: nat)
  {
    forall j | j in References(e) :: j in rules && j in rank && rank[j] < bound
  }

  /** `rank` witnesses that the ranked rules, and every rule they reach, exist and never
      refer back to themselves: each ranked rule refers only to rules of lower rank. */
  predicate Ranked(rules: Rules, rank: map<nat, nat>)
  {
    forall k | k in rules && k in rank :: Below(rules, rank, rules[k], rank[k])
  }

  /** The text `expand` appends for `e`. */
  function Expansion(rules: Rules, rank: map<nat, nat>, e: ProductionRule, bound: nat): string
    requires Ranked(rules, rank) && Below(rules, rank, e, bound)
    decreases bound, e
  {
    match e
    case TerminalSymbol(c) => [c]
    case Reference(k) => Expansion(rules, rank, rules[k], rank[k])
    case And(x, y) => Expansion(rules, rank, x, bound) + Expansion(rules, rank, y, bound)
    case Or(x, y) => "(" + Expansion(rules, rank, x, bound) + "|" + Expansion(rules, rank, y, bound) + ")"
  }

  /** The expansion depends on the rules alone, not on the ranking that shows it ends. */
  lemma {:induction false} ExpansionRankFree(rules: Rules, rank: map<nat, nat>, rank': map<nat, nat>,
                                             e: ProductionRule, bound: nat, bound': nat)
    requires Ranked(rules, rank) && Below(rules, rank, e, bound)
    requires Ranked(rules, rank') && Below(rules, rank', e, bound')
    ensures Expansion(rules, rank, e, bound) == Expansion(rules, rank', e, bound')
    decreases bound, e
  {
    match e
    case TerminalSymbol(_) =>
    case Reference(k) =>
      ExpansionRankFree(rules, rank, rank', rules[k], rank[k], rank'[k]);
    case And(x, y) =>
      ExpansionRankFree(rules, rank, rank', x, bound, bound');
      ExpansionRankFree(rules, rank, rank', y, bound, bound');
    case Or(x, y) =>
      ExpansionRankFree(rules, rank, rank', x, bound, bound');
      ExpansionRankFree(rules, rank, rank', y, bound, bound');
  }

  /** Appending the two parts of an `And` one after the other appends their concatenation. */
  lemma AndText(buffer: string, x: string, y: string)
    ensures buffer + x + y == buffer + (x + y)
  {
  }

  /** Appending the pieces of an `Or` one after the other appends its bracketed text. */
  lemma OrText(buffer: string, x: string, y: string)
    ensures buffer + "(" + x + "|" + y + ")" == buffer + ("(" + x + "|" + y + ")")
  {
  }

  /** `ProductionRule::expand`: appends the expansion of `e` to the buffer. */
  method Expand(rules: Rules, ghost rank: map<nat, nat>, e: ProductionRule, ghost bound: nat,
                buffer: string) returns (buffer': string)
    requires Ranked(rules, rank) && Below(rules, rank, e, bound)
    ensures buffer' == buffer + Expansion(rules, rank, e, bound)
    decreases bound, e
  {
    match e {
      case TerminalSymbol(c) =>
        buffer' := buffer + [c];
      case Reference(k) =>
        buffer' := Expand(rules, rank, rules[k], rank[k], buffer);
      case And(x, y) =>
        var left := Expand(rules, rank, x, bound, buffer);
        buffer' := Expand(rules, rank, y, bound, left);
        AndText(buffer, Expansion(rules, rank, x, bound), Expansion(rules, rank, y, bound));
      case Or(x, y) =>
        var first := Expand(rules, rank, x, bound, buffer + "(");
        var right := Expand(rules, rank, y, bound, first + "|");
        buffer' := right + ")";
        OrText(buffer, Expansion(rules, rank, x, bound), Expansion(rules, rank, y, bound));
    }
  }

  /** `convert_grammar_rules_to_regex`: the expansion of rule 0, or None without a rule 0. */
  method ConvertGrammarRulesToRegex(rules: Rules, ghost rank: map<nat, nat>) returns (r: Option<string>)
    requires Ranked(rules, rank) && (0 in rules ==> 0 in rank)
    ensures r.None? <==> 0 !in rules
    ensures r.Some? ==> r.value == Expansion(rules, rank, rules[0], rank[0])
  {
    if 0 !in rules {
      return None;
    }
    var result := Expand(rules, rank, rules[0], rank[0], "");
    r := Some(result);
  }

  /* ---------------- balanced parentheses ---------------- */

  /** Opening minus closing parentheses. */
  function Net(s: string): int
  {
    if s == [] then 0
    else Net(s[..|s| - 1]) + (if s[|s| - 1] == '(' then 1 else if s[|s| - 1] == ')' then -1 else 0)
  }

  predicate Balanced(s: string)
  {
    Net(s) == 0 && forall k | 0 <= k <= |s| :: Net(s[..k]) >= 0
  }

  lemma {:induction false} NetConcat(a: string, b: string)
    ensures Net(a + b) == Net(a) + Net(b)
  {
    if b == [] {
      assert a + b == a;
    } else {
      assert (a + b)[..|a + b| - 1] == a + b[..|b| - 1];
      NetConcat(a, b[..|b| - 1]);
    }
  }

  lemma BalancedConcat(a: string, b: string)
    requires Balanced(a) && Balanced(b)
    ensures Balanced(a + b)
  {
    NetConcat(a, b);
    forall k | 0 <= k <= |a + b|
      ensures Net((a + b)[..k]) >= 0
    {
      if k <= |a| {
        assert (a + b)[..k] == a[..k];
      } else {
        assert (a + b)[..k] == a + b[..k - |a|];
        NetConcat(a, b[..k - |a|]);
      }
    }
  }

  lemma BalancedWrap(s: string)
    requires Balanced(s)
    ensures Balanced("(" + s + ")")
  {
    var w := "(" + s + ")";
    NetConcat("(" + s, ")");
    NetConcat("(", s);
    forall k | 0 <= k <= |w|
      ensures Net(w[..k]) >= 0
    {
      if 1 <= k <= |s| + 1 {
        assert w[..k] == "(" + s[..k - 1];
        NetConcat("(", s[..k - 1]);
      } else if k == |w| {
        assert w[..k] == w;
      }
    }
  }

  lemma BalancedPlain(s: string)
    requires forall k | 0 <= k < |s| :: s[k] != '(' && s[k] != ')'
    ensures Balanced(s)
  {
    forall k | 0 <= k <= |s|
      ensures Net(s[..k]) == 0
    {
      NetPlain(s[..k]);
    }
    assert s[..|s|] == s;
  }

  lemma {:induction false} NetPlain(s: string)
    requires forall k | 0 <= k < |s| :: s[k] != '(' && s[k] != ')'
    ensures Net(s) == 0
  {
    if s != [] {
      NetPlain(s[..|s| - 1]);
    }
  }

  lemma BalancedAlternation(ex: string, ey: string)
    requires Balanced(ex) && Balanced(ey)
    ensures Balanced("(" + ex + "|" + ey + ")")
  {
    BalancedPlain("|");
    BalancedConcat(ex, "|");
    BalancedConcat(ex + "|", ey);
    BalancedWrap(ex + "|" + ey);
    assert "(" + ex + "|" + ey + ")" == "(" + (ex + "|" + ey) + ")";
  }

  /** No terminal of `e` is a parenthesis. */
  predicate PlainSymbols(e: ProductionRule)
  {
    match e
    case TerminalSymbol(c) => c != '(' && c != ')'
    case Reference(_) => true
    case And(x, y) => PlainSymbols(x) && PlainSymbols(y)
    case Or(x, y) => PlainSymbols(x) && PlainSymbols(y)
  }

  /** When no terminal is a parenthesis, the parentheses of an expansion are balanced. */
  lemma {:induction false} ExpansionBalanced(rules: Rules, rank: map<nat, nat>, e: ProductionRule, bound: nat)
    requires Ranked(rules, rank) && Below(rules, rank, e, bound)
    requires PlainSymbols(e) && forall k | k in rules :: PlainSymbols(rules[k])
    ensures Balanced(Expansion(rules, rank, e, bound))
    decreases bound, e
  {
    match e
    case TerminalSymbol(c) =>
      BalancedPlain([c]);
    case Reference(k) =>
      ExpansionBalanced(rules, rank, rules[k], rank[k]);
    case And(x, y) =>
      ExpansionBalanced(rules, rank, x, bound);
      ExpansionBalanced(rules, rank, y, bound);
      BalancedConcat(Expansion(rules, rank, x, bound), Expansion(rules, rank, y, bound));
    case Or(x, y) =>
      ExpansionBalanced(rules, rank, x, bound);
      ExpansionBalanced(rules, rank, y, bound);
      BalancedAlternation(Expansion(rules, rank, x, bound), Expansion(rules, rank, y, bound));
  }
}
