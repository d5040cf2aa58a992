/** The line front-end of the Forth evaluator: `Forth::eval` trims a line and
    either continues, quits, or lexes and tokenizes it. `Forth` has no fields,
    so every operation is a function of its input. */
module Forth {
  import opened Wrappers
  import opened Text
  import opened FloatSyntax

  /** A piece of the input line, kept verbatim. */
  datatype Lexeme = Lexeme(value: string)

  datatype ForthOperator = Add | Subtract | Multiply | Divide

  /** `Number` carries the lexeme that `str::parse::<f64>` accepted; the
      floating-point value itself is not modelled. */
  datatype Token = Number(literal: string) | Operator(op: ForthOperator)

  /** The symbol each operator is written with. */
  function Symbol(op: ForthOperator): string {
    match op
    case Add => "+"
    case Subtract => "-"
    case Multiply => "*"
    case Divide => "/"
  }

  /** `ForthOperator::try_from`: exactly the four symbols are operators, and
      the error message names the rejected text. */
  function OperatorTryFrom(value: string): (r: Result<ForthOperator, string>)
    ensures r.Success? <==> value in {"+", "-", "*", "/"}
    ensures r.Success? ==> Symbol(r.value) == value
    ensures r.Failure? ==> r.error == "Invalid operator: " + value
  {
    match value
    case "+" => Success(Add)
    case "-" => Success(Subtract)
    case "*" => Success(Multiply)
    case "/" => Success(Divide)
    case v => Failure("Invalid operator: " + v)
  }

  /** Every operator is recognised from its own symbol, and no two operators
      share a symbol. */
  lemma SymbolRoundTrip(op: ForthOperator)
    ensures OperatorTryFrom(Symbol(op)) == Success(op)
    ensures forall other: ForthOperator :: Symbol(other) == Symbol(op) ==> other == op
  {
  }

  // ---------------------------------------------------------------------------
  // Lexing

  function LexemesOf(parts: seq<string>): seq<Lexeme> {
    seq(|parts|, i requires 0 <= i < |parts| => Lexeme(parts[i]))
  }

  function Values(lexemes: seq<Lexeme>): seq<string> {
    seq(|lexemes|, i requires 0 <= i < |lexemes| => lexemes[i].value)
  }

  /** `Values` reads back the texts that `LexemesOf` wrapped. */
  lemma ValuesOfLexemes(parts: seq<string>)
    ensures Values(LexemesOf(parts)) == parts
  {
  }

  /** What `lex` returns: the pieces of the line between single spaces. */
  function Lexemes(line: string): seq<Lexeme> {
    LexemesOf(Split(line, ' '))
  }

  /** `Forth::lex`: one lexeme per piece of `input.split(' ')`, pushed in
      order. It never fails. */
  method Lex(input: string) returns (r: Result<seq<Lexeme>, string>)
    ensures r == Success(Lexemes(input))
  {
    var lexemes: seq<Lexeme> := [];
    var start := 0;
    for i := 0 to |input|
      invariant start <= i
      invariant Split(input[..i], ' ') == Values(lexemes) + [input[start..i]]
    {
      LexStep(input, i, start, lexemes);
      if input[i] == ' ' {
        lexemes := lexemes + [Lexeme(input[start..i])];
        start := i + 1;
      }
    }
    assert input[..|input|] == input;
    var scanned := lexemes;
    lexemes := lexemes + [Lexeme(input[start..])];
    assert lexemes[..|lexemes| - 1] == scanned;
    LexDone(input, lexemes);
    r := Success(lexemes);
  }

  /** One character of `Lex`'s scan: a space closes the current lexeme,
      any other character extends it. */
  lemma LexStep(input: string, i: nat, start: nat, lexemes: seq<Lexeme>)
    requires start <= i < |input|
    requires Split(input[..i], ' ') == Values(lexemes) + [input[start..i]]
    ensures input[i] == ' ' ==>
      Split(input[..i + 1], ' ') == Values(lexemes + [Lexeme(input[start..i])]) + [input[i + 1..i + 1]]
    ensures input[i] != ' ' ==>
      Split(input[..i + 1], ' ') == Values(lexemes) + [input[start..i + 1]]
  {
    SplitSnoc(input[..i], input[i], ' ');
    assert input[..i + 1] == input[..i] + [input[i]];
    var parts := Values(lexemes) + [input[start..i]];
    if input[i] == ' ' {
      ValuesSnoc(lexemes, Lexeme(input[start..i]));
      assert input[i + 1..i + 1] == "";
    } else {
      assert parts[..|parts| - 1] == Values(lexemes);
      assert parts[|parts| - 1] == input[start..i];
      assert input[start..i + 1] == input[start..i] + [input[i]];
    }
  }

  lemma ValuesSnoc(lexemes: seq<Lexeme>, x: Lexeme)
    ensures Values(lexemes + [x]) == Values(lexemes) + [x.value]
  {
  }

  lemma LexDone(input: string, lexemes: seq<Lexeme>)
    requires |lexemes| >= 1
    requires Split(input, ' ') == Values(lexemes[..|lexemes| - 1]) + [lexemes[|lexemes| - 1].value]
    ensures lexemes == Lexemes(input)
  {
    assert Values(lexemes) == Split(input, ' ');
  }

  /** Facts about what `lex` returns: the lexemes joined with single spaces
      give back the line verbatim, none contains a space, and there is one
      lexeme more than there are spaces. */
  lemma LexemesFaithful(line: string)
    ensures Join(Values(Lexemes(line)), ' ') == line
    ensures forall i :: 0 <= i < |Lexemes(line)| ==> ' ' !in Lexemes(line)[i].value
    ensures |Lexemes(line)| == multiset(line)[' '] + 1
  {
    assert Values(Lexemes(line)) == Split(line, ' ');
    SplitThenJoin(line, ' ');
    SplitSeparatorFree(line, ' ');
    SplitCount(line, ' ');
  }

  /** The lexemes are the only space-free pieces that join back to the line. */
  lemma LexemesUnique(line: string, pieces: seq<string>)
    requires |pieces| >= 1 && SeparatorFree(pieces, ' ') && Join(pieces, ' ') == line
    ensures Lexemes(line) == LexemesOf(pieces)
  {
    JoinThenSplit(pieces, ' ');
  }

  /** Two spaces in a row leave an empty lexeme between them. */
  lemma DoubleSpaceGivesEmptyLexeme(a: string, b: string)
    ensures Lexemes(a + "  " + b) == Lexemes(a) + [Lexeme("")] + Lexemes(b)
  {
    assert a + "  " + b == a + [' '] + ([' '] + b);
    SplitAtSeparator(a, [' '] + b, ' ');
    assert [' '] + b == [] + [' '] + b;
    SplitAtSeparator([], b, ' ');
    assert Split([], ' ') == [""];
  }

  // ---------------------------------------------------------------------------
  // Tokenizing

  function NotANumber(value: string): string {
    "not a number: " + value
  }

  /** One step of `Forth::tokenize`: a number if the text parses as one,
      otherwise an operator if `try_from` accepts it, otherwise an error
      naming the lexeme. */
  function TokenOf(lexeme: Lexeme): (r: Result<Token, string>)
    ensures r.Success? <==> ParsesAsNumber(lexeme.value) || lexeme.value in {"+", "-", "*", "/"}
    ensures ParsesAsNumber(lexeme.value) ==> r == Success(Number(lexeme.value))
    ensures !ParsesAsNumber(lexeme.value) && r.Success? ==> r.value.Operator? && Symbol(r.value.op) == lexeme.value
    ensures r.Failure? ==> r.error == NotANumber(lexeme.value)
  {
    if ParsesAsNumber(lexeme.value) then Success(Number(lexeme.value))
    else match OperatorTryFrom(lexeme.value)
      case Success(op) => Success(Operator(op))
      case Failure(_) => Failure(NotANumber(lexeme.value))
  }

  /** No operator symbol parses as a number, so trying numbers first never
      hides an operator. */
  lemma OperatorLexeme(op: ForthOperator)
    ensures TokenOf(Lexeme(Symbol(op))) == Success(Operator(op))
  {
  }

  /** What `tokenize` returns: the tokens of the lexemes in order, or the
      error of the first lexeme that is neither a number nor an operator. */
  function Tokens(lexemes: seq<Lexeme>): Result<seq<Token>, string> {
    if lexemes == [] then Success([])
    else
      var first :- TokenOf(lexemes[0]);
      var rest :- Tokens(lexemes[1..]);
      Success([first] + rest)
  }

  /** The outcome of tokenizing a suffix, with `ts` already produced in
      front of it. */
  function AfterPrefix(ts: seq<Token>, r: Result<seq<Token>, string>): Result<seq<Token>, string> {
    match r
    case Success(us) => Success(ts + us)
    case Failure(e) => Failure(e)
  }

  /** Tokenizing the lexemes from position i on: the token of lexeme i in
      front of the tokens of the rest, or the error of lexeme i. */
  lemma TokensFrom(lexemes: seq<Lexeme>, i: nat)
    requires i < |lexemes|
    ensures Tokens(lexemes[i..]) ==
      match TokenOf(lexemes[i])
      case Failure(e) => Failure(e)
      case Success(t) => AfterPrefix([t], Tokens(lexemes[i + 1..]))
  {
    assert lexemes[i..][0] == lexemes[i];
    assert lexemes[i..][1..] == lexemes[i + 1..];
  }

  lemma AfterPrefixAssoc(ts: seq<Token>, t: Token, r: Result<seq<Token>, string>)
    ensures AfterPrefix(ts, AfterPrefix([t], r)) == AfterPrefix(ts + [t], r)
  {
    if r.Success? {
      assert ts + ([t] + r.value) == (ts + [t]) + r.value;
    }
  }

  /** `Forth::tokenize`: a loop that pushes one token per lexeme and returns
      at the first lexeme that is neither a number nor an operator. */
  method Tokenize(input: seq<Lexeme>) returns (r: Result<seq<Token>, string>)
    ensures r == Tokens(input)
  {
    var tokens: seq<Token> := [];
    assert input[0..] == input;
    assert AfterPrefix([], Tokens(input)) == Tokens(input) by {
      if Tokens(input).Success? { assert [] + Tokens(input).value == Tokens(input).value; }
    }
    for i := 0 to |input|
      invariant Tokens(input) == AfterPrefix(tokens, Tokens(input[i..]))
    {
      var item := input[i];
      TokensFrom(input, i);
      if ParsesAsNumber(item.value) {
        AfterPrefixAssoc(tokens, Number(item.value), Tokens(input[i + 1..]));
        tokens := tokens + [Number(item.value)];
      } else {
        var operator := OperatorTryFrom(item.value);
        if operator.Success? {
          AfterPrefixAssoc(tokens, Operator(operator.value), Tokens(input[i + 1..]));
          tokens := tokens + [Operator(operator.value)];
        } else {
          return Failure(NotANumber(item.value));
        }
      }
    }
    assert input[|input|..] == [];
    assert tokens + [] == tokens;
    r := Success(tokens);
  }

  /** Tokenizing succeeds exactly when every lexeme is a number or an
      operator, and then token i is the token of lexeme i. */
  lemma {:induction false} TokensSucceed(lexemes: seq<Lexeme>)
    ensures Tokens(lexemes).Success? <==> forall i :: 0 <= i < |lexemes| ==> TokenOf(lexemes[i]).Success?
    ensures Tokens(lexemes).Success? ==>
      |Tokens(lexemes).value| == |lexemes| &&
      forall i :: 0 <= i < |lexemes| ==> TokenOf(lexemes[i]) == Success(Tokens(lexemes).value[i])
  {
    if lexemes != [] {
      TokensSucceed(lexemes[1..]);
      assert forall i :: 1 <= i < |lexemes| ==> lexemes[i] == lexemes[1..][i - 1];
    }
  }

  lemma {:induction false} TokensFirstErrorFrom(lexemes: seq<Lexeme>, i: nat, k: nat)
    requires i <= k < |lexemes| && TokenOf(lexemes[k]).Failure?
    requires forall j :: i <= j < k ==> TokenOf(lexemes[j]).Success?
    ensures Tokens(lexemes[i..]) == Failure(NotANumber(lexemes[k].value))
    decreases k - i
  {
    TokensFrom(lexemes, i);
    if i < k {
      TokensFirstErrorFrom(lexemes, i + 1, k);
    }
  }

  /** The error names the first lexeme, in input order, that is neither a
      number nor an operator. */
  lemma TokensFirstError(lexemes: seq<Lexeme>, k: nat)
    requires k < |lexemes| && TokenOf(lexemes[k]).Failure?
    requires forall j :: 0 <= j < k ==> TokenOf(lexemes[j]).Success?
    ensures Tokens(lexemes) == Failure(NotANumber(lexemes[k].value))
  {
    TokensFirstErrorFrom(lexemes, 0, k);
    assert lexemes[0..] == lexemes;
  }

  // ---------------------------------------------------------------------------
  // Evaluating a line

  predicate IsQuitCommand(line: string) {
    AsciiLower(line) == "bye" || AsciiLower(line) == "quit"
  }

  /** The quit words are recognised in any mix of cases and in no other
      spelling. */
  lemma QuitCommandIgnoresCase(line: string)
    ensures IsQuitCommand(line) <==> EqualsIgnoringCase(line, "bye") || EqualsIgnoringCase(line, "quit")
  {
    assert IsLowerWord("bye");
    assert IsLowerWord("quit");
    LowerEqualsIff(line, "bye");
    LowerEqualsIff(line, "quit");
  }

  /** `Forth::eval`. `Success(Some(()))` asks the caller to read another line
      and `Success(None)` asks it to stop. Lexing cannot fail, and the result
      of tokenizing is computed and then dropped, so no error ever reaches
      the caller. */
  function Eval(input: string): (r: Result<Option<()>, string>)
    ensures r.Success?
  {
    var line := Trim(input);
    if |line| == 0 then Success(Some(()))
    else if IsQuitCommand(line) then Success(None)
    else
      var lexemes := Lexemes(line);
      var tokens := Tokens(lexemes);
      Success(Some(()))
  }

  /** An empty or blank line continues. */
  lemma EvalBlankLine(input: string)
    requires AllWhitespace(input)
    ensures Eval(input) == Success(Some(()))
  {
    TrimBlank(input);
  }

  /** A line stops the session exactly when, once trimmed, it is `bye` or
      `quit` in any mix of cases; every other line continues. */
  lemma EvalQuitExactly(input: string)
    ensures Eval(input) == Success(None) <==>
      EqualsIgnoringCase(Trim(input), "bye") || EqualsIgnoringCase(Trim(input), "quit")
    ensures Eval(input) != Success(None) ==> Eval(input) == Success(Some(()))
  {
    QuitCommandIgnoresCase(Trim(input));
  }

  /** Whitespace around a line does not change its outcome. */
  lemma EvalIgnoresPadding(p: string, line: string, q: string)
    requires AllWhitespace(p) && AllWhitespace(q)
    ensures Eval(p + line + q) == Eval(line)
  {
    TrimPadded(p, line, q);
  }

  lemma LexOneFoo()
    ensures Lexemes("1 foo") == [Lexeme("1"), Lexeme("foo")]
  {
    var pieces := ["1", "foo"];
    assert Join(pieces, ' ') == "1 foo";
    assert SeparatorFree(pieces, ' ');
    LexemesUnique("1 foo", pieces);
  }

  lemma FooIsNoToken()
    ensures TokenOf(Lexeme("foo")) == Failure("not a number: foo")
  {
    if ParsesAsNumber("foo") {
      NumberShape("foo");
    }
    assert "foo" !in {"+", "-", "*", "/"};
    assert NotANumber("foo") == "not a number: foo";
  }

  /** `1 foo` lexes into `1` and `foo`; `1` is a number and `foo` is
      neither a number nor an operator, so tokenizing fails at `foo`. */
  lemma TokenizeFailsAtFoo()
    ensures Tokens(Lexemes("1 foo")) == Failure("not a number: foo")
  {
    LexOneFoo();
    DigitsParse("1");
    FooIsNoToken();
    TokensFirstError([Lexeme("1"), Lexeme("foo")], 1);
  }

  /** ...and still `eval` continues and reports nothing. */
  lemma EvalDropsTokenizeError()
    ensures Tokens(Lexemes("1 foo")).Failure?
    ensures Eval("1 foo") == Success(Some(()))
  {
    TokenizeFailsAtFoo();
    assert Trim("1 foo") == "1 foo";
    assert |AsciiLower("1 foo")| == 5;
  }
}
