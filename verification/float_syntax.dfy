/** Which strings Rust's `str::parse::<f64>` accepts. The recogniser follows
    the grammar documented for `f64::from_str`, read with letters in either
    case:

      Float    ::= Sign? ( 'inf' | 'infinity' | 'nan' | Number )
      Number   ::= ( Digit+ | Digit+ '.' Digit* | Digit* '.' Digit+ ) Exp?
      Exp      ::= 'e' Sign? Digit+
      Sign     ::= [+-]

    `Number` is recognised by a left-to-right scan whose states record how
    much of the grammar has been read. The numeric value that a successful
    parse produces is not modelled. */
module FloatSyntax {
  import opened Text

  predicate IsDigit(c: char) {
    '0' <= c <= '9'
  }

  predicate AllDigits(s: string) {
    forall k :: 0 <= k < |s| ==> IsDigit(s[k])
  }

  predicate IsSign(c: char) {
    c == '+' || c == '-'
  }

  function StripSign(s: string): string {
    if |s| > 0 && IsSign(s[0]) then s[1..] else s
  }

  /** Where the scan of a `Number` stands: in the mantissa (whether a point
      and whether a digit have been read), just after the 'e', after the
      exponent's sign, or among the exponent's digits. */
  datatype ScanState =
    | Mantissa(point: bool, digit: bool)
    | ExponentStart
    | ExponentSigned
    | ExponentDigits

  /** The rest `s` of a `Number`, read from state `state`, completes it. */
  predicate Completes(s: string, state: ScanState) {
    if s == [] then
      state == ExponentDigits || (state.Mantissa? && state.digit)
    else
      var c := s[0];
      match state
      case Mantissa(point, digit) =>
        if IsDigit(c) then Completes(s[1..], Mantissa(point, true))
        else if c == '.' && !point then Completes(s[1..], Mantissa(true, digit))
        else if (c == 'e' || c == 'E') && digit then Completes(s[1..], ExponentStart)
        else false
      case ExponentStart =>
        if IsDigit(c) then Completes(s[1..], ExponentDigits)
        else if IsSign(c) then Completes(s[1..], ExponentSigned)
        else false
      case ExponentSigned =>
        IsDigit(c) && Completes(s[1..], ExponentDigits)
      case ExponentDigits =>
        IsDigit(c) && Completes(s[1..], ExponentDigits)
  }

  predicate IsDecimal(s: string) {
    Completes(s, Mantissa(false, false))
  }

  predicate IsSpecialValue(s: string) {
    EqualsIgnoringCase(s, "inf") || EqualsIgnoringCase(s, "infinity") || EqualsIgnoringCase(s, "nan")
  }

  /** `s.parse::<f64>()` returns `Ok`. */
  predicate ParsesAsNumber(s: string) {
    var body := StripSign(s);
    IsSpecialValue(body) || IsDecimal(body)
  }

  lemma {:induction false} DigitsComplete(s: string, point: bool, digit: bool)
    requires AllDigits(s) && (s != [] || digit)
    ensures Completes(s, Mantissa(point, digit))
  {
    if s != [] {
      DigitsComplete(s[1..], point, true);
    }
  }

  /** Every non-empty run of decimal digits is a number. */
  lemma DigitsParse(s: string)
    requires s != [] && AllDigits(s)
    ensures ParsesAsNumber(s)
  {
    DigitsComplete(s, false, false);
  }

  lemma {:induction false} CompletesHasNoSpace(s: string, state: ScanState)
    requires Completes(s, state)
    ensures ' ' !in s
  {
    if s != [] {
      var next :| Completes(s[1..], next);
      CompletesHasNoSpace(s[1..], next);
      assert s == [s[0]] + s[1..];
    }
  }

  /** What a parsed number looks like: non-empty, free of blanks, and
      starting with a sign, a digit, a point or the first letter of
      `inf`, `infinity` or `nan`. */
  lemma NumberShape(s: string)
    requires ParsesAsNumber(s)
    ensures s != [] && ' ' !in s
    ensures s[0] in "+-.0123456789iInN"
  {
    var body := StripSign(s);
    if IsSpecialValue(body) {
      assert forall k :: 0 <= k < |body| ==> body[k] != ' ';
    } else {
      CompletesHasNoSpace(body, Mantissa(false, false));
    }
    assert s == body || s == [s[0]] + body;
  }
}
