/** Operation order (src/day_eighteen.rs): arithmetic where `+` and `*` have the same
    precedence and associate to the left, evaluated by converting to postfix with an operator
    stack and running the postfix on a value stack. */
module DayEighteen {
  import opened Common

  datatype OperationType = Multiply | Add

  datatype Token = LeftParen | RightParen | Operation(op: OperationType) | Number(value: nat)

  /** `OperationType::apply`. */
  function Apply(op: OperationType, first: nat, second: nat): nat
  {
    match op
    case Multiply => first * second
    case Add => first + second
  }

  /* ---------------- to_tokens ---------------- */

  /** The token of a single-character token, if `c` is one. */
  function TokenOf(c: char): Option<Token>
  {
    match c
    case '(' => Some(LeftParen)
    case ')' => Some(RightParen)
    case '+' => Some(Operation(Add))
    case '*' => Some(Operation(Multiply))
    case _ => None
  }

  /** The length of the run of ASCII digits that `s` starts with. */
  function DigitRun(s: string): (n: nat)
    ensures n <= |s| && (n == |s| || !IsDigit(s[n]))
  {
    if s != [] && IsDigit(s[0]) then 1 + DigitRun(s[1..]) else 0
  }

  /** A digit string followed by a text that does not start with a digit: the run is the
      digits. */
  lemma {:induction false} DigitRunDigits(d: string, rest: string)
    requires AllDigits(d) && (rest == [] || !IsDigit(rest[0]))
    ensures DigitRun(d + rest) == |d|
  {
    if d == [] {
      assert d + rest == rest;
    } else {
      assert (d + rest)[0] == d[0] && (d + rest)[1..] == d[1..] + rest;
      DigitRunDigits(d[1..], rest);
    }
  }

  /** How many characters one iteration of `to_tokens` consumes: a token character, or any
      other character and the digit run after it. */
  function LexemeLength(s: string): (n: nat)
    requires s != []
    ensures 1 <= n <= |s|
  {
    if TokenOf(s[0]).Some? then 1 else 1 + DigitRun(s[1..])
  }

  /** The texts the iterations of `to_tokens` consume, in order. */
  function Words(s: string): (ws: seq<string>)
    decreases |s|
  {
    if s == [] then [] else [s[..LexemeLength(s)]] + Words(s[LexemeLength(s)..])
  }

  /** A character and the digits after it: a Number when the trimmed text parses as a
      `usize`, nothing otherwise. */
  function NumberToken(word: string): seq<Token>
  {
    match ParseUnsigned(Trim(word), USIZE_BOUND)
    case Some(v) => [Number(v)]
    case None => []
  }

  /** What one iteration pushes for the text it consumed. */
  function WordTokens(w: string): seq<Token>
  {
    if w == [] then []
    else
      match TokenOf(w[0])
      case Some(t) => [t]
      case None => NumberToken(w)
  }

  function Emit(ws: seq<string>): seq<Token>
  {
    if ws == [] then [] else WordTokens(ws[0]) + Emit(ws[1..])
  }

  /** The tokens of `to_tokens`. */
  function Tokens(s: string): seq<Token>
  {
    Emit(Words(s))
  }

  lemma EmitCons(w: string, ws: seq<string>)
    ensures Emit([w] + ws) == WordTokens(w) + Emit(ws)
  {
    assert ([w] + ws)[0] == w && ([w] + ws)[1..] == ws;
  }

  /** The iteration at position `i`: its text, then the rest. */
  lemma WordsAt(line: string, i: nat)
    requires i < |line|
    ensures var n := LexemeLength(line[i..]);
            Words(line[i..]) == [line[i..i + n]] + Words(line[i + n..])
  {
    var rest := line[i..];
    var n := LexemeLength(rest);
    assert rest[..n] == line[i..i + n] && rest[n..] == line[i + n..];
  }

  /** The `peeking_take_while` of digits after position `i`: the end of the run. */
  method DigitRunEnd(line: string, i: nat) returns (j: nat)
    requires i < |line|
    ensures j == i + 1 + DigitRun(line[i + 1..])
  {
    j := i + 1;
    while j < |line| && IsDigit(line[j])
      invariant i < j <= |line|
      invariant j + DigitRun(line[j..]) == i + 1 + DigitRun(line[i + 1..])
      decreases |line| - j
    {
      assert line[j..][1..] == line[j + 1..];
      j := j + 1;
    }
    assert j < |line| ==> line[j..][0] == line[j];
  }

  lemma NumberTokenParsed(word: string, parsed: Option<nat>)
    requires word != [] && TokenOf(word[0]).None?
    requires parsed == ParseUnsigned(Trim(word), USIZE_BOUND)
    ensures WordTokens(word) == if parsed.Some? then [Number(parsed.value)] else []
  {
  }

  /** The number branch of `to_tokens`: the character at `i` and the digits after it, pushed
      as a Number when the trimmed text parses. */
  method ReadNumber(line: string, i: nat, buff: seq<Token>) returns (i': nat, buff': seq<Token>)
    requires i < |line| && TokenOf(line[i]).None?
    ensures i' == i + LexemeLength(line[i..]) && buff' == buff + WordTokens(line[i..i'])
  {
    var j := DigitRunEnd(line, i);
    ghost var rest := line[i..];
    assert rest[0] == line[i] && rest[1..] == line[i + 1..];
    assert j == i + LexemeLength(rest);
    var word := line[i..j];
    assert word[0] == line[i];
    var parsed := ParseUnsigned(Trim(word), USIZE_BOUND);
    NumberTokenParsed(word, parsed);
    buff' := buff;
    if parsed.Some? {
      buff' := buff' + [Number(parsed.value)];
    }
    i' := j;
  }

  /** One iteration of `to_tokens`. */
  method ReadToken(line: string, i: nat, buff: seq<Token>) returns (i': nat, buff': seq<Token>)
    requires i < |line|
    ensures i' == i + LexemeLength(line[i..]) && buff' == buff + WordTokens(line[i..i'])
  {
    var single := TokenOf(line[i]);
    if single.Some? {
      assert line[i..][0] == line[i] && line[i..i + 1][0] == line[i];
      buff' := buff + [single.value];
      i' := i + 1;
    } else {
      i', buff' := ReadNumber(line, i, buff);
    }
  }

  lemma Associative<T>(a: seq<T>, b: seq<T>, c: seq<T>)
    ensures a + (b + c) == (a + b) + c
  {
  }

  /** `to_tokens`. */
  method ToTokens(line: string) returns (buff: seq<Token>)
    ensures buff == Tokens(line)
  {
    buff := [];
    var i := 0;
    assert line[0..] == line;
    while i < |line|
      invariant i <= |line|
      invariant buff + Emit(Words(line[i..])) == Tokens(line)
      decreases |line| - i
    {
      WordsAt(line, i);
      var n := LexemeLength(line[i..]);
      EmitCons(line[i..i + n], Words(line[i + n..]));
      Associative(buff, WordTokens(line[i..i + n]), Emit(Words(line[i + n..])));
      i, buff := ReadToken(line, i, buff);
    }
    assert line[|line|..] == [];
  }

  /** A consumed text and what follows: the words are that text, then those of the rest. */
  lemma WordsSplit(text: string, rest: string)
    requires text != [] && LexemeLength(text + rest) == |text|
    ensures Words(text + rest) == [text] + Words(rest)
  {
    assert (text + rest)[..|text|] == text;
    assert (text + rest)[|text|..] == rest;
  }

  /** Characters that are neither token characters nor digits give no token. */
  lemma {:induction false} OtherCharactersIgnored(s: string)
    requires forall k | 0 <= k < |s| :: TokenOf(s[k]).None? && !IsDigit(s[k])
    ensures Tokens(s) == []
  {
    if s != [] {
      assert DigitRun(s[1..]) == 0;
      var word := s[..1];
      assert Trim(word) == [] || Trim(word) == word;
      assert !IsDigit(word[0]) && word[0] != '+';
      assert WordTokens(word) == [];
      OtherCharactersIgnored(s[1..]);
      EmitCons(word, Words(s[1..]));
    }
  }

  /** A text for each token; a Number is a space and its decimal digits. */
  function TokenText(t: Token): string
  {
    match t
    case LeftParen => "("
    case RightParen => ")"
    case Operation(Add) => "+"
    case Operation(Multiply) => "*"
    case Number(v) => " " + Decimal(v)
  }

  function Render(ts: seq<Token>): (s: string)
    ensures s == [] || !IsDigit(s[0])
  {
    if ts == [] then [] else TokenText(ts[0]) + Render(ts[1..])
  }

  predicate SmallNumbers(ts: seq<Token>)
  {
    forall k | 0 <= k < |ts| :: ts[k].Number? ==> ts[k].value < USIZE_BOUND
  }

  /** Trimming a space before a word that neither starts nor ends with whitespace. */
  lemma TrimSpaced(d: string)
    requires d != [] && !IsWhitespace(d[0]) && !IsWhitespace(d[|d| - 1])
    ensures Trim([' '] + d) == d
  {
    assert ([' '] + d)[1..] == d;
    assert TrimStart([' '] + d) == d;
  }

  /** A space and a decimal number parse as that number. */
  lemma NumberWord(v: nat)
    requires v < USIZE_BOUND
    ensures WordTokens(" " + Decimal(v)) == [Number(v)]
  {
    var d := Decimal(v);
    TrimSpaced(d);
    ParseDecimal(v, USIZE_BOUND);
  }

  /** A space and a digit string, before a text not starting with a digit, are consumed
      together. */
  lemma SpacedLength(d: string, rest: string)
    requires AllDigits(d) && (rest == [] || !IsDigit(rest[0]))
    ensures LexemeLength(" " + d + rest) == |d| + 1
  {
    var s := " " + d + rest;
    assert s[0] == ' ' && s[1..] == d + rest;
    DigitRunDigits(d, rest);
  }

  /** Any token, before a text that does not start with a digit, tokenizes as itself. */
  lemma TokenTextLeads(t: Token, rest: string)
    requires t.Number? ==> t.value < USIZE_BOUND
    requires rest == [] || !IsDigit(rest[0])
    ensures Tokens(TokenText(t) + rest) == [t] + Tokens(rest)
  {
    var text := TokenText(t);
    if t.Number? {
      SpacedLength(Decimal(t.value), rest);
      NumberWord(t.value);
    } else {
      assert |text| == 1 && TokenOf(text[0]) == Some(t);
      assert (text + rest)[0] == text[0];
    }
    WordsSplit(text, rest);
    EmitCons(text, Words(rest));
  }

  lemma SmallNumbersTail(ts: seq<Token>)
    requires ts != [] && SmallNumbers(ts)
    ensures SmallNumbers(ts[1..])
  {
    forall k | 0 <= k < |ts[1..]|
      ensures ts[1..][k] == ts[k + 1]
    {
    }
  }

  /** Rendering tokens and tokenizing the text gives the tokens back. */
  lemma {:induction false} RenderRoundTrip(ts: seq<Token>)
    requires SmallNumbers(ts)
    ensures Tokens(Render(ts)) == ts
  {
    if ts != [] {
      var head, tail := ts[0], ts[1..];
      var rest := Render(tail);
      SmallNumbersTail(ts);
      RenderRoundTrip(tail);
      assert Render(ts) == TokenText(head) + rest;
      TokenTextLeads(head, rest);
      assert [head] + tail == ts;
    }
  }

  /* ---------------- solve: infix to postfix ---------------- */

  /** The operator stack and the postfix output of the conversion. */
  datatype Conversion = Conversion(stack: seq<Token>, postFix: seq<Token>)

  /** `)`: pop to the output until a `(` is popped or the stack runs out. */
  function PopToParen(c: Conversion): Conversion
    decreases |c.stack|
  {
    if c.stack == [] then c
    else
      var top := c.stack[|c.stack| - 1];
      var rest := c.stack[..|c.stack| - 1];
      if top == LeftParen then Conversion(rest, c.postFix)
      else PopToParen(Conversion(rest, c.postFix + [top]))
  }

  /** Before an operator is pushed: pop operators to the output while one is on top. */
  function PopOperators(c: Conversion): Conversion
    decreases |c.stack|
  {
    if c.stack != [] && c.stack[|c.stack| - 1].Operation? then
      PopOperators(Conversion(c.stack[..|c.stack| - 1], c.postFix + [c.stack[|c.stack| - 1]]))
    else c
  }

  /** One token of the conversion loop. */
  function ConvertStep(c: Conversion, t: Token): Conversion
  {
    match t
    case Number(_) => Conversion(c.stack, c.postFix + [t])
    case LeftParen => Conversion(c.stack + [t], c.postFix)
    case RightParen => PopToParen(c)
    case Operation(_) =>
      var p := PopOperators(c);
      Conversion(p.stack + [t], p.postFix)
  }

  /** The conversion loop from `c` over `tokens`. */
  function Convert(tokens: seq<Token>, c: Conversion): Conversion
    decreases |tokens|
  {
    if tokens == [] then c else Convert(tokens[1..], ConvertStep(c, tokens[0]))
  }

  /** The postfix sequence: the output, then what is left on the stack, bottom first. */
  function PostFix(tokens: seq<Token>): seq<Token>
  {
    var c := Convert(tokens, Conversion([], []));
    c.postFix + c.stack
  }

  /** The `while let Some(token) = stack.pop()` loop of `)`. */
  method PopUntilParen(stack: seq<Token>, postFix: seq<Token>) returns (stack': seq<Token>, postFix': seq<Token>)
    ensures Conversion(stack', postFix') == PopToParen(Conversion(stack, postFix))
  {
    stack', postFix' := stack, postFix;
    var found := false;
    while !found && stack' != []
      invariant (if found then Conversion(stack', postFix') else PopToParen(Conversion(stack', postFix')))
                == PopToParen(Conversion(stack, postFix))
      decreases |stack'|, !found
    {
      var top := stack'[|stack'| - 1];
      stack' := stack'[..|stack'| - 1];
      if top == LeftParen {
        found := true;
      } else {
        postFix' := postFix' + [top];
      }
    }
  }

  /** The `while let Some(Operation(_)) = stack.last()` loop of an operator. */
  method PopOperatorsOff(stack: seq<Token>, postFix: seq<Token>) returns (stack': seq<Token>, postFix': seq<Token>)
    ensures Conversion(stack', postFix') == PopOperators(Conversion(stack, postFix))
  {
    stack', postFix' := stack, postFix;
    while stack' != [] && stack'[|stack'| - 1].Operation?
      invariant PopOperators(Conversion(stack', postFix')) == PopOperators(Conversion(stack, postFix))
      decreases |stack'|
    {
      postFix' := postFix' + [stack'[|stack'| - 1]];
      stack' := stack'[..|stack'| - 1];
    }
  }

  lemma ConvertUnfold(tokens: seq<Token>, i: nat, c: Conversion)
    requires i < |tokens|
    ensures Convert(tokens[i..], c) == Convert(tokens[i + 1..], ConvertStep(c, tokens[i]))
  {
    assert tokens[i..][1..] == tokens[i + 1..];
  }

  /** The first loop of `solve` and the append of the stack. */
  method ToPostFix(tokens: seq<Token>) returns (postFix: seq<Token>)
    ensures postFix == PostFix(tokens)
  {
    var stack: seq<Token> := [];
    postFix := [];
    var i := 0;
    while i < |tokens|
      invariant i <= |tokens|
      invariant Convert(tokens[i..], Conversion(stack, postFix)) == Convert(tokens, Conversion([], []))
    {
      var token := tokens[i];
      ConvertUnfold(tokens, i, Conversion(stack, postFix));
      match token {
        case Number(_) =>
          postFix := postFix + [token];
        case LeftParen =>
          stack := stack + [token];
        case RightParen =>
          stack, postFix := PopUntilParen(stack, postFix);
        case Operation(_) =>
          stack, postFix := PopOperatorsOff(stack, postFix);
          stack := stack + [token];
      }
      i := i + 1;
    }
    assert tokens[|tokens|..] == [];
    postFix := postFix + stack;
  }

  /* ---------------- solve: evaluating the postfix ---------------- */

  /** One token of the evaluation loop: an operator pops two entries and pushes the result
      when both are Numbers; a popped entry that is not a Number is dropped. Any other token
      is pushed. */
  function EvalStep(buff: seq<Token>, t: Token): seq<Token>
  {
    match t
    case Operation(op) =>
      if buff == [] then buff
      else
        var last := buff[|buff| - 1];
        var b1 := buff[..|buff| - 1];
        if !last.Number? || b1 == [] then b1
        else
          var second := b1[|b1| - 1];
          var b2 := b1[..|b1| - 1];
          if second.Number? then b2 + [Number(Apply(op, second.value, last.value))] else b2
    case _ => buff + [t]
  }

  function EvalAll(postFix: seq<Token>, buff: seq<Token>): seq<Token>
    decreases |postFix|
  {
    if postFix == [] then buff else EvalAll(postFix[1..], EvalStep(buff, postFix[0]))
  }

  /** The answer: the Number on top of the final stack, if there is one. */
  function Top(buff: seq<Token>): Option<nat>
  {
    if buff != [] && buff[|buff| - 1].Number? then Some(buff[|buff| - 1].value) else None
  }

  /** What `solve` computes. */
  function Solution(tokens: seq<Token>): Option<nat>
  {
    Top(EvalAll(PostFix(tokens), []))
  }

  lemma EvalUnfold(postFix: seq<Token>, i: nat, buff: seq<Token>)
    requires i < |postFix|
    ensures EvalAll(postFix[i..], buff) == EvalAll(postFix[i + 1..], EvalStep(buff, postFix[i]))
  {
    assert postFix[i..][1..] == postFix[i + 1..];
  }

  /** The second loop of `solve` and the look at the top of the stack. */
  method EvaluatePostFix(postFix: seq<Token>) returns (r: Option<nat>)
    ensures r == Top(EvalAll(postFix, []))
  {
    var buff: seq<Token> := [];
    var i := 0;
    while i < |postFix|
      invariant i <= |postFix|
      invariant EvalAll(postFix[i..], buff) == EvalAll(postFix, [])
    {
      var token := postFix[i];
      EvalUnfold(postFix, i, buff);
      match token {
        case Operation(op) =>
          if buff != [] {
            var last := buff[|buff| - 1];
            buff := buff[..|buff| - 1];
            if last.Number? && buff != [] {
              var second := buff[|buff| - 1];
              buff := buff[..|buff| - 1];
              if second.Number? {
                buff := buff + [Number(Apply(op, second.value, last.value))];
              }
            }
          }
        case _ =>
          buff := buff + [token];
      }
      i := i + 1;
    }
    assert postFix[|postFix|..] == [];
    r := if buff != [] && buff[|buff| - 1].Number? then Some(buff[|buff| - 1].value) else None;
  }

  /** `solve`; no tokens give no answer. */
  method Solve(tokens: seq<Token>) returns (r: Option<nat>)
    ensures r == Solution(tokens)
    ensures tokens == [] ==> r == None
  {
    var postFix := ToPostFix(tokens);
    r := EvaluatePostFix(postFix);
  }

  /* ---------------- the numbers keep their order ---------------- */

  /** The numbers among the tokens, in order. */
  function Numbers(ts: seq<Token>): seq<nat>
  {
    if ts == [] then []
    else Numbers(ts[..|ts| - 1]) + (if ts[|ts| - 1].Number? then [ts[|ts| - 1].value] else [])
  }

  lemma {:induction false} NumbersConcat(a: seq<Token>, b: seq<Token>)
    ensures Numbers(a + b) == Numbers(a) + Numbers(b)
    decreases |b|
  {
    if b == [] {
      assert a + b == a;
    } else {
      var b' := b[..|b| - 1];
      NumbersConcat(a, b');
      assert (a + b)[..|a + b| - 1] == a + b';
    }
  }

  /** The stack never holds a Number. */
  predicate NumberFree(ts: seq<Token>)
  {
    forall k | 0 <= k < |ts| :: !ts[k].Number?
  }

  lemma {:induction false} NumberFreeNumbers(ts: seq<Token>)
    requires NumberFree(ts)
    ensures Numbers(ts) == []
  {
    if ts != [] {
      NumberFreeNumbers(ts[..|ts| - 1]);
    }
  }

  lemma {:induction false} PopToParenNumbers(c: Conversion)
    requires NumberFree(c.stack)
    ensures NumberFree(PopToParen(c).stack) && Numbers(PopToParen(c).postFix) == Numbers(c.postFix)
    decreases |c.stack|
  {
    if c.stack != [] {
      var top, rest := c.stack[|c.stack| - 1], c.stack[..|c.stack| - 1];
      assert !top.Number? && NumberFree(rest);
      if top != LeftParen {
        var next := Conversion(rest, c.postFix + [top]);
        PopToParenNumbers(next);
        assert next.postFix[..|c.postFix|] == c.postFix;
        assert Numbers(next.postFix) == Numbers(c.postFix);
      }
    }
  }

  lemma {:induction false} PopOperatorsNumbers(c: Conversion)
    requires NumberFree(c.stack)
    ensures NumberFree(PopOperators(c).stack) && Numbers(PopOperators(c).postFix) == Numbers(c.postFix)
    decreases |c.stack|
  {
    if c.stack != [] && c.stack[|c.stack| - 1].Operation? {
      var top, rest := c.stack[|c.stack| - 1], c.stack[..|c.stack| - 1];
      assert !top.Number? && NumberFree(rest);
      var next := Conversion(rest, c.postFix + [top]);
      PopOperatorsNumbers(next);
      assert next.postFix[..|c.postFix|] == c.postFix;
      assert Numbers(next.postFix) == Numbers(c.postFix);
    }
  }

  lemma ConvertStepNumbers(c: Conversion, t: Token)
    requires NumberFree(c.stack)
    ensures NumberFree(ConvertStep(c, t).stack)
    ensures Numbers(ConvertStep(c, t).postFix) == Numbers(c.postFix) + Numbers([t])
  {
    assert [t][..0] == [];
    match t
    case Number(_) =>
      assert (c.postFix + [t])[..|c.postFix|] == c.postFix;
    case LeftParen =>
    case RightParen =>
      PopToParenNumbers(c);
    case Operation(_) =>
      PopOperatorsNumbers(c);
  }

  lemma {:induction false} ConvertNumbers(tokens: seq<Token>, c: Conversion)
    requires NumberFree(c.stack)
    ensures NumberFree(Convert(tokens, c).stack)
    ensures Numbers(Convert(tokens, c).postFix) == Numbers(c.postFix) + Numbers(tokens)
    decreases |tokens|
  {
    if tokens == [] {
      assert Numbers(c.postFix) + [] == Numbers(c.postFix);
    } else {
      var next := ConvertStep(c, tokens[0]);
      ConvertStepNumbers(c, tokens[0]);
      ConvertNumbers(tokens[1..], next);
      NumbersConcat([tokens[0]], tokens[1..]);
      assert [tokens[0]] + tokens[1..] == tokens;
    }
  }

  /** The postfix sequence holds the numbers of the input, in input order. */
  lemma NumbersInOrder(tokens: seq<Token>)
    ensures Numbers(PostFix(tokens)) == Numbers(tokens)
  {
    var c := Convert(tokens, Conversion([], []));
    ConvertNumbers(tokens, Conversion([], []));
    NumbersConcat(c.postFix, c.stack);
    NumberFreeNumbers(c.stack);
  }

  /* ---------------- expressions ---------------- */

  /** Expressions of the homework: operands separated by operators of equal precedence,
      grouped from the left, each operand a number or a parenthesised expression. */
  datatype Expr = Single(term: Term) | Binary(left: Expr, op: OperationType, right: Term)
  datatype Term = Literal(n: nat) | Group(inner: Expr)

  function ExprTokens(e: Expr): seq<Token>
  {
    match e
    case Single(t) => TermTokens(t)
    case Binary(l, op, r) => ExprTokens(l) + [Operation(op)] + TermTokens(r)
  }

  function TermTokens(t: Term): seq<Token>
  {
    match t
    case Literal(n) => [Number(n)]
    case Group(e) => [LeftParen] + ExprTokens(e) + [RightParen]
  }

  /** Left-to-right evaluation with parentheses honoured. */
  function ExprValue(e: Expr): nat
  {
    match e
    case Single(t) => TermValue(t)
    case Binary(l, op, r) => Apply(op, ExprValue(l), TermValue(r))
  }

  function TermValue(t: Term): nat
  {
    match t
    case Literal(n) => n
    case Group(e) => ExprValue(e)
  }

  /** The operator an expression leaves on the stack: its last one. */
  function Pending(e: Expr): seq<Token>
  {
    match e
    case Single(_) => []
    case Binary(_, op, _) => [Operation(op)]
  }

  /** The output an expression adds, without its pending operator. */
  function ExprPost(e: Expr): seq<Token>
  {
    match e
    case Single(t) => TermPost(t)
    case Binary(l, _, r) => ExprPost(l) + Pending(l) + TermPost(r)
  }

  function TermPost(t: Term): seq<Token>
  {
    match t
    case Literal(n) => [Number(n)]
    case Group(e) => ExprPost(e) + Pending(e)
  }

  /** No operator on top of the stack. */
  predicate OpenTop(stack: seq<Token>)
  {
    stack == [] || !stack[|stack| - 1].Operation?
  }

  lemma {:induction false} ConvertConcat(a: seq<Token>, b: seq<Token>, c: Conversion)
    ensures Convert(a + b, c) == Convert(b, Convert(a, c))
    decreases |a|
  {
    if a == [] {
      assert a + b == b;
    } else {
      assert (a + b)[0] == a[0] && (a + b)[1..] == a[1..] + b;
      ConvertConcat(a[1..], b, ConvertStep(c, a[0]));
    }
  }

  lemma ConvertSingle(t: Token, c: Conversion)
    ensures Convert([t], c) == ConvertStep(c, t)
  {
    assert [t][1..] == [];
  }

  /** What an expression leaves on the stack is at most one operator. */
  predicate PendingShape(p: seq<Token>)
  {
    p == [] || (|p| == 1 && p[0].Operation?)
  }

  /** An operator pops the pending operator, down to a stack with no operator on top. */
  lemma PopPending(stack: seq<Token>, postFix: seq<Token>, p: seq<Token>)
    requires OpenTop(stack) && PendingShape(p)
    ensures PopOperators(Conversion(stack + p, postFix)) == Conversion(stack, postFix + p)
  {
    if p != [] {
      assert (stack + p)[..|stack + p| - 1] == stack;
      assert (stack + p)[|stack + p| - 1] == p[0];
    } else {
      assert stack + p == stack && postFix + p == postFix;
    }
  }

  /** `)` pops the pending operator and the `(` below it. */
  lemma ParenPending(stack: seq<Token>, postFix: seq<Token>, p: seq<Token>)
    requires PendingShape(p)
    ensures PopToParen(Conversion(stack + [LeftParen] + p, postFix)) == Conversion(stack, postFix + p)
  {
    var open := stack + [LeftParen];
    assert open[..|open| - 1] == stack;
    if p != [] {
      assert (open + p)[..|open + p| - 1] == open;
      assert (open + p)[|open + p| - 1] == p[0];
    } else {
      assert open + p == open && postFix + p == postFix;
    }
  }

  /** A term adds its postfix to the output and leaves the stack as it was. */
  lemma ConvertTerm(t: Term, c: Conversion)
    ensures Convert(TermTokens(t), c) == Conversion(c.stack, c.postFix + TermPost(t))
    decreases t, 2
  {
    match t
    case Literal(n) =>
      ConvertSingle(Number(n), c);
    case Group(e) =>
      var open := Conversion(c.stack + [LeftParen], c.postFix);
      ConvertConcat([LeftParen] + ExprTokens(e), [RightParen], c);
      ConvertConcat([LeftParen], ExprTokens(e), c);
      ConvertSingle(LeftParen, c);
      ConvertExpr(e, open);
      var inside := Conversion(open.stack + Pending(e), open.postFix + ExprPost(e));
      ConvertSingle(RightParen, inside);
      ParenPending(c.stack, c.postFix + ExprPost(e), Pending(e));
  }

  /** An expression and the operator after it: the pending operator goes to the output and
      the new one onto the stack. */
  lemma ConvertOperator(l: Expr, op: OperationType, c: Conversion)
    requires OpenTop(c.stack)
    ensures Convert(ExprTokens(l) + [Operation(op)], c)
            == Conversion(c.stack + [Operation(op)], c.postFix + (ExprPost(l) + Pending(l)))
    decreases l, 1
  {
    ConvertConcat(ExprTokens(l), [Operation(op)], c);
    ConvertExpr(l, c);
    var left := Conversion(c.stack + Pending(l), c.postFix + ExprPost(l));
    ConvertSingle(Operation(op), left);
    PopPending(c.stack, c.postFix + ExprPost(l), Pending(l));
    Associative(c.postFix, ExprPost(l), Pending(l));
  }

  /** An expression, with no operator on top of the stack, adds its postfix to the output and
      leaves its last operator on the stack. */
  lemma ConvertExpr(e: Expr, c: Conversion)
    requires OpenTop(c.stack)
    ensures Convert(ExprTokens(e), c) == Conversion(c.stack + Pending(e), c.postFix + ExprPost(e))
    decreases e, 0
  {
    match e
    case Single(t) =>
      ConvertTerm(t, c);
      assert c.stack + [] == c.stack;
    case Binary(l, op, r) =>
      var front := ExprTokens(l) + [Operation(op)];
      var flushed := ExprPost(l) + Pending(l);
      var mid := Conversion(c.stack + [Operation(op)], c.postFix + flushed);
      ConvertConcat(front, TermTokens(r), c);
      ConvertOperator(l, op, c);
      ConvertTerm(r, mid);
      assert ExprTokens(e) == front + TermTokens(r);
      assert Convert(ExprTokens(e), c) == Conversion(mid.stack, mid.postFix + TermPost(r));
      Associative(c.postFix, flushed, TermPost(r));
      assert ExprPost(e) == flushed + TermPost(r);
  }

  lemma {:induction false} EvalConcat(a: seq<Token>, b: seq<Token>, buff: seq<Token>)
    ensures EvalAll(a + b, buff) == EvalAll(b, EvalAll(a, buff))
    decreases |a|
  {
    if a == [] {
      assert a + b == b;
    } else {
      assert (a + b)[0] == a[0] && (a + b)[1..] == a[1..] + b;
      EvalConcat(a[1..], b, EvalStep(buff, a[0]));
    }
  }

  lemma EvalSingle(t: Token, buff: seq<Token>)
    ensures EvalAll([t], buff) == EvalStep(buff, t)
  {
    assert [t][1..] == [];
  }

  /** Running a term's postfix pushes its value. */
  lemma EvalTerm(t: Term, buff: seq<Token>)
    ensures EvalAll(TermPost(t), buff) == buff + [Number(TermValue(t))]
    decreases t, 1
  {
    match t
    case Literal(n) =>
      EvalSingle(Number(n), buff);
    case Group(e) =>
      EvalExpr(e, buff);
  }

  /** Running an expression's postfix and its pending operator pushes its value. */
  lemma EvalExpr(e: Expr, buff: seq<Token>)
    ensures EvalAll(ExprPost(e) + Pending(e), buff) == buff + [Number(ExprValue(e))]
    decreases e, 0
  {
    match e
    case Single(t) =>
      assert ExprPost(e) + Pending(e) == TermPost(t);
      EvalTerm(t, buff);
    case Binary(l, op, r) =>
      var left := ExprPost(l) + Pending(l);
      assert ExprPost(e) + Pending(e) == (left + TermPost(r)) + [Operation(op)];
      EvalConcat(left + TermPost(r), [Operation(op)], buff);
      EvalConcat(left, TermPost(r), buff);
      EvalExpr(l, buff);
      EvalTerm(r, buff + [Number(ExprValue(l))]);
      var stacked := buff + [Number(ExprValue(l))] + [Number(TermValue(r))];
      EvalSingle(Operation(op), stacked);
      assert stacked[..|stacked| - 1][..|stacked| - 2] == buff;
  }

  /** `solve` evaluates every expression from left to right, with parentheses honoured. */
  lemma SolveExpression(e: Expr)
    ensures Solution(ExprTokens(e)) == Some(ExprValue(e))
  {
    ConvertExpr(e, Conversion([], []));
    assert PostFix(ExprTokens(e)) == ExprPost(e) + Pending(e);
    EvalExpr(e, []);
  }

  /** An expression written out as text and tokenized is evaluated from left to right. */
  lemma SolveText(e: Expr)
    requires SmallNumbers(ExprTokens(e))
    ensures Solution(Tokens(Render(ExprTokens(e)))) == Some(ExprValue(e))
  {
    RenderRoundTrip(ExprTokens(e));
    SolveExpression(e);
  }
}
