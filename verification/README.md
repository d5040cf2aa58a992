# Forth line front-end, modelled in Dafny

This project models the line front-end of a small Forth evaluator written in
Rust (`src/forth.rs`). `Forth::eval` takes one line of input and trims it.
Then it does one of three things:

- an empty line means "continue";
- `bye` or `quit`, in any mix of cases, means "stop";
- any other line is lexed and then tokenized, and the evaluator continues.

Lexing splits the line at every single space character. Tokenizing turns each
lexeme into a `Number` or an `Operator` (`+ - * /`), trying number first, and
stops at the first lexeme that is neither.

`Forth` has no fields, so nothing here holds state: every operation is a
function of its input. The two loops of the source, in `lex` and `tokenize`,
are methods (`Forth.Lex`, `Forth.Tokenize`). Each is proved equal to a
specification function (`Forth.Lexemes`, `Forth.Tokens`). Lemmas then prove
what those functions promise. `Forth.Eval` is a function, because the
dispatch in `eval` is a plain three-way branch.

Files:

- `wrappers.dfy`: `Option` and `Result`, with the members that let `:-`
  stand for Rust's `?`.
- `text.dfy`: the parts of Rust's string library the front-end uses.
  These are `trim` (on the Unicode White_Space set), `to_lowercase` (ASCII
  letters only) and `split` on one character. Each comes with the laws that
  pin it down.
- `float_syntax.dfy`: which strings `str::parse::<f64>` accepts. This follows
  the grammar documented for Rust's `f64::from_str`: an optional sign, then
  `inf`, `infinity`, `nan` or decimal digits, with an optional point and an
  optional exponent, and case ignored.
- `forth.dfy`: `Lexeme`, `Token`, `ForthOperator`, `try_from`, `lex`,
  `tokenize` and `eval`.

Three facts about the code shape the model. `lex` splits on the space
character alone and keeps each piece verbatim, without lower-casing it. The
code has no stack, dictionary or built-in words. `eval` never returns an
error, because `lex` cannot fail and the result of `tokenize` is bound and
then dropped.

## Model

| member | source | states |
|---|---|---|
| `Text.TrimStartShape` | src/forth.rs:55 | the result is a suffix of the line, everything cut off is whitespace, and the result does not start with whitespace |
| `Text.TrimEndShape` | src/forth.rs:55 | the result is a prefix of the line, everything cut off is whitespace, and the result does not end with whitespace |
| `Text.TrimBlank` | src/forth.rs:55-56 | a line made only of whitespace trims to the empty line |
| `Text.TrimPadded` | src/forth.rs:55 | whitespace added on either side does not change what a line trims to |
| `Text.TrimIdempotent` | src/forth.rs:55 | trimming twice gives the same as trimming once |
| `Text.LowerEqualsIff` | src/forth.rs:58 | lower-casing a string gives a given lower-case word exactly when the string is that word with each letter in either case |
| `Text.SplitThenJoin` | src/forth.rs:73-75 | joining the pieces of `split` with the separator gives back the input exactly |
| `Text.SplitSeparatorFree` | src/forth.rs:73-75 | no piece of `split` contains the separator |
| `Text.SplitCount` | src/forth.rs:73-75 | `split` gives one piece more than there are separators in the input |
| `Text.SplitAtSeparator` | src/forth.rs:73-75 | splitting `a + sep + b` gives the pieces of `a` followed by the pieces of `b`, so runs of separators are not collapsed |
| `Text.JoinThenSplit` | src/forth.rs:73-75 | splitting undoes joining separator-free pieces, so the pieces of `split` are the only separator-free pieces that join back to the input |
| `FloatSyntax.DigitsParse` | src/forth.rs:83 | every non-empty run of decimal digits parses as a number |
| `FloatSyntax.NumberShape` | src/forth.rs:83 | a string that parses as a number is non-empty, has no space, and starts with a sign, a digit, a point, or the first letter of `inf`/`infinity`/`nan` |
| `Forth.OperatorTryFrom` | src/forth.rs:36-44 | succeeds exactly on `+`, `-`, `*` and `/`, giving the operator written with that symbol; every other text, including case or whitespace variants, gives the error `Invalid operator: <text>` |
| `Forth.SymbolRoundTrip` | src/forth.rs:37-41 | each operator is recognised from its own symbol, and no two operators share a symbol |
| `Forth.Lex` | src/forth.rs:71-78 | the loop over `split(' ')` always succeeds and returns one lexeme per piece of the line split at single spaces, in order |
| `Forth.LexemesFaithful` | src/forth.rs:71-77 | the lexemes joined with single spaces give back the line verbatim (no case folding), none contains a space, and there are as many lexemes as spaces plus one |
| `Forth.LexemesUnique` | src/forth.rs:73-75 | any space-free pieces that join with single spaces to the line are exactly the lexemes, so lexeme i is the i-th space-separated substring |
| `Forth.DoubleSpaceGivesEmptyLexeme` | src/forth.rs:73-75 | two spaces in a row leave one empty lexeme between the lexemes on either side |
| `Forth.TokenOf` | src/forth.rs:83-88 | a lexeme gives a token exactly when it parses as a number or is an operator symbol; a number is tried first and becomes `Number`; a lexeme that does not parse but is an operator symbol becomes the `Operator` written with that symbol; otherwise the error is `not a number: <lexeme>` |
| `Forth.OperatorLexeme` | src/forth.rs:83-86 | each operator symbol becomes its `Operator` token, because no operator symbol parses as a number |
| `Forth.Tokenize` | src/forth.rs:80-93 | the loop returns the tokens of the lexemes in order, or returns early with the error of the first lexeme that is neither a number nor an operator |
| `Forth.TokensSucceed` | src/forth.rs:80-92 | tokenizing succeeds exactly when every lexeme is a number or an operator; then there are as many tokens as lexemes and token i is the token of lexeme i |
| `Forth.TokensFirstError` | src/forth.rs:87-88 | when lexeme k is the first that is neither a number nor an operator, tokenizing fails with `not a number: <lexeme k>` |
| `Forth.TokenizeFailsAtFoo` | src/forth.rs:80-89 | `1 foo` lexes into `1` and `foo`, and tokenizing it fails with `not a number: foo` |
| `Forth.QuitCommandIgnoresCase` | src/forth.rs:58 | a trimmed line is a quit command exactly when it is `bye` or `quit` with each letter in either case |
| `Forth.Eval` | src/forth.rs:54-69 | `eval` never returns an error |
| `Forth.EvalBlankLine` | src/forth.rs:55-57 | an empty or whitespace-only line gives `Ok(Some(()))` |
| `Forth.EvalQuitExactly` | src/forth.rs:58-67 | the result is `Ok(None)` exactly when the trimmed line is `bye` or `quit` in any mix of cases; every other line gives `Ok(Some(()))` |
| `Forth.EvalIgnoresPadding` | src/forth.rs:55 | whitespace around a line does not change the outcome of `eval` |
| `Forth.EvalDropsTokenizeError` | src/forth.rs:62-67 | `1 foo` fails to tokenize, and still `eval` returns `Ok(Some(()))` |

## Left out

- `src/main.rs`: the read loop, the prompt, flushing and printing are
  terminal I/O around `eval`.
- The `println!` calls inside `eval` (src/forth.rs:63, 65) and the empty
  `debug_state` (src/forth.rs:52): output only, with no effect on the result.
- `Forth::new` (src/forth.rs:48-50): `Forth` has no fields, so there is no
  state to construct.
- The floating-point value of `Token::Number`: the number is kept as the text
  that parsed. Which texts parse follows the documented grammar of Rust's
  `f64::from_str`; that library code is not part of this model. The grammar
  assumed is that of Rust 1.55 and later, which accepts `inf`, `infinity`
  and `nan` in any mix of cases; earlier releases accepted only `inf` and
  `NaN`, case-sensitively. The difference decides only which lexemes become
  `Number`, never what `eval` returns.
- `Text.AsciiLower`: models `str::to_lowercase` on ASCII letters only;
  other characters are left unchanged, while Rust lower-cases all of
  Unicode. For the quit test this is exact: no non-ASCII character
  lower-cases to a letter of `bye` or `quit` (U+0130 lower-cases to two
  characters). As a general law about Rust, `Text.LowerEqualsIff` fails only
  for words containing `k`, because U+212A KELVIN SIGN lower-cases to `k`.
