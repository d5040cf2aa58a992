/** The string operations of Rust's standard library that the line front-end
    relies on: `str::trim`, `str::to_lowercase` (ASCII part only) and
    `str::split` on a single character, with the laws that pin them down. */
module Text {

  /** Rust's `char::is_whitespace`: the Unicode White_Space property. */
  predicate IsWhitespace(c: char) {
    ('\t' <= c <= '\r') || c == ' ' || c == '\U{85}' || c == '\U{A0}' || c == '\U{1680}'
    || ('\U{2000}' <= c <= '\U{200A}') || c == '\U{2028}' || c == '\U{2029}'
    || c == '\U{202F}' || c == '\U{205F}' || c == '\U{3000}'
  }

  predicate AllWhitespace(s: string) {
    forall k :: 0 <= k < |s| ==> IsWhitespace(s[k])
  }

  /** `str::trim_start`: drop the longest all-whitespace prefix. */
  function TrimStart(s: string): string {
    if |s| > 0 && IsWhitespace(s[0]) then TrimStart(s[1..]) else s
  }

  /** `str::trim_end`: drop the longest all-whitespace suffix. */
  function TrimEnd(s: string): string {
    if |s| > 0 && IsWhitespace(s[|s| - 1]) then TrimEnd(s[..|s| - 1]) else s
  }

  /** `str::trim`: both ends. */
  function Trim(s: string): string {
    TrimEnd(TrimStart(s))
  }

  /** `TrimStart` keeps a suffix of the line, everything it cuts off is
      whitespace, and what it keeps does not start with whitespace. */
  lemma {:induction false} TrimStartShape(s: string)
    ensures var r := TrimStart(s);
      |r| <= |s| && r == s[|s| - |r|..] &&
      AllWhitespace(s[..|s| - |r|]) &&
      (r != [] ==> !IsWhitespace(r[0]))
  {
    if |s| > 0 && IsWhitespace(s[0]) {
      TrimStartShape(s[1..]);
      var r := TrimStart(s);
      assert s[1..][|s| - 1 - |r|..] == s[|s| - |r|..];
      assert forall k :: 1 <= k < |s| - |r| ==> s[k] == s[1..][..|s| - 1 - |r|][k - 1];
    }
  }

  /** `TrimEnd` keeps a prefix of the line, everything it cuts off is
      whitespace, and what it keeps does not end with whitespace. */
  lemma {:induction false} TrimEndShape(s: string)
    ensures var r := TrimEnd(s);
      |r| <= |s| && r == s[..|r|] &&
      AllWhitespace(s[|r|..]) &&
      (r != [] ==> !IsWhitespace(r[|r| - 1]))
  {
    if |s| > 0 && IsWhitespace(s[|s| - 1]) {
      var s' := s[..|s| - 1];
      TrimEndShape(s');
      var r := TrimEnd(s);
      assert s'[..|r|] == s[..|r|];
      assert forall k :: |r| <= k < |s| - 1 ==> s[k] == s'[|r|..][k - |r|];
    }
  }

  lemma {:induction false} TrimStartBlank(s: string)
    requires AllWhitespace(s)
    ensures TrimStart(s) == []
  {
    if |s| > 0 {
      TrimStartBlank(s[1..]);
    }
  }

  /** A line made only of whitespace trims to the empty line. */
  lemma TrimBlank(s: string)
    requires AllWhitespace(s)
    ensures Trim(s) == []
  {
    TrimStartBlank(s);
  }

  lemma {:induction false} TrimStartPadded(p: string, t: string)
    requires AllWhitespace(p)
    ensures TrimStart(p + t) == TrimStart(t)
  {
    if p != [] {
      assert (p + t)[1..] == p[1..] + t;
      TrimStartPadded(p[1..], t);
    } else {
      assert p + t == t;
    }
  }

  lemma {:induction false} TrimEndPadded(t: string, q: string)
    requires AllWhitespace(q)
    ensures TrimEnd(t + q) == TrimEnd(t)
  {
    if q != [] {
      assert (t + q)[..|t + q| - 1] == t + q[..|q| - 1];
      TrimEndPadded(t, q[..|q| - 1]);
    } else {
      assert t + q == t;
    }
  }

  lemma {:induction false} TrimStartConcat(t: string, q: string)
    requires AllWhitespace(q)
    ensures TrimStart(t + q) == if TrimStart(t) == [] then [] else TrimStart(t) + q
  {
    if t == [] {
      assert t + q == q;
      TrimStartBlank(q);
    } else if IsWhitespace(t[0]) {
      assert (t + q)[1..] == t[1..] + q;
      TrimStartConcat(t[1..], q);
    }
  }

  /** Whitespace around a line does not change what it trims to. */
  lemma TrimPadded(p: string, s: string, q: string)
    requires AllWhitespace(p) && AllWhitespace(q)
    ensures Trim(p + s + q) == Trim(s)
  {
    var t := TrimStart(s);
    assert TrimStart(p + s + q) == TrimStart(s + q) by {
      assert p + s + q == p + (s + q);
      TrimStartPadded(p, s + q);
    }
    assert TrimStart(s + q) == (if t == [] then [] else t + q) by {
      TrimStartConcat(s, q);
    }
    if t != [] {
      TrimEndPadded(t, q);
    }
  }

  /** Trimming twice is trimming once. */
  lemma TrimIdempotent(s: string)
    ensures Trim(Trim(s)) == Trim(s)
  {
    var u := TrimStart(s);
    var t := TrimEnd(u);
    TrimStartShape(s);
    TrimEndShape(u);
    if t != [] {
      assert t[0] == u[0];
      assert TrimStart(t) == t;
      assert TrimEnd(t) == t;
    }
  }

  /** The ASCII part of `char::to_lowercase`. */
  function LowerChar(c: char): char {
    if 'A' <= c <= 'Z' then (c as int + 32) as char else c
  }

  function UpperChar(c: char): char {
    if 'a' <= c <= 'z' then (c as int - 32) as char else c
  }

  /** `str::to_lowercase`, restricted to ASCII letters. */
  function AsciiLower(s: string): string {
    seq(|s|, k requires 0 <= k < |s| => LowerChar(s[k]))
  }

  predicate IsLowerWord(word: string) {
    forall k :: 0 <= k < |word| ==> 'a' <= word[k] <= 'z'
  }

  /** `w` spells `word` with every letter in either case. */
  predicate EqualsIgnoringCase(w: string, word: string) {
    |w| == |word| && forall k :: 0 <= k < |w| ==> w[k] == word[k] || w[k] == UpperChar(word[k])
  }

  /** Lower-casing `w` gives the lower-case word exactly when `w` is that word
      written in any mix of cases. */
  lemma LowerEqualsIff(w: string, word: string)
    requires IsLowerWord(word)
    ensures AsciiLower(w) == word <==> EqualsIgnoringCase(w, word)
  {
    if AsciiLower(w) == word {
      forall k | 0 <= k < |w|
        ensures w[k] == word[k] || w[k] == UpperChar(word[k])
      {
        assert LowerChar(w[k]) == word[k];
      }
    }
    if EqualsIgnoringCase(w, word) {
      assert forall k :: 0 <= k < |w| ==> AsciiLower(w)[k] == word[k];
    }
  }

  /** `str::split(sep)`: the pieces between occurrences of `sep`, in order;
      adjacent separators give empty pieces and there is always one piece
      more than there are separators. */
  function Split(s: string, sep: char): (parts: seq<string>)
    ensures |parts| >= 1
  {
    if |s| == 0 then [""] else Prepend(s[0], Split(s[1..], sep), sep)
  }

  /** The pieces of `[c] + t`, given the pieces of `t`: a separator opens a
      new empty first piece, any other character joins the first piece. */
  function Prepend(c: char, rest: seq<string>, sep: char): (parts: seq<string>)
    requires |rest| >= 1
    ensures |parts| >= 1
  {
    if c == sep then [""] + rest else [[c] + rest[0]] + rest[1..]
  }

  /** The pieces of `s + [c]`, given the pieces of `s`: a separator opens a
      new empty last piece, any other character joins the last piece. */
  function Extend(parts: seq<string>, c: char, sep: char): (r: seq<string>)
    requires |parts| >= 1
    ensures |r| >= 1
  {
    if c == sep then parts + [""] else parts[..|parts| - 1] + [parts[|parts| - 1] + [c]]
  }

  /** `join` with a one-character separator. */
  function Join(parts: seq<string>, sep: char): string {
    if |parts| == 0 then ""
    else if |parts| == 1 then parts[0]
    else parts[0] + [sep] + Join(parts[1..], sep)
  }

  predicate SeparatorFree(parts: seq<string>, sep: char) {
    forall i :: 0 <= i < |parts| ==> sep !in parts[i]
  }

  /** Joining the pieces with the separator gives back the input exactly. */
  lemma {:induction false} SplitThenJoin(s: string, sep: char)
    ensures Join(Split(s, sep), sep) == s
  {
    if |s| > 0 {
      var rest := Split(s[1..], sep);
      SplitThenJoin(s[1..], sep);
      if s[0] == sep {
        assert ([""] + rest)[1..] == rest;
      } else {
        var parts := [[s[0]] + rest[0]] + rest[1..];
        if |rest| > 1 {
          assert parts[1..] == rest[1..];
        }
      }
    }
  }

  /** No piece contains the separator. */
  lemma {:induction false} SplitSeparatorFree(s: string, sep: char)
    ensures SeparatorFree(Split(s, sep), sep)
  {
    if |s| > 0 {
      SplitSeparatorFree(s[1..], sep);
      var rest := Split(s[1..], sep);
      var parts := Split(s, sep);
      forall i | 0 <= i < |parts|
        ensures sep !in parts[i]
      {
        if s[0] == sep {
          if i > 0 { assert parts[i] == rest[i - 1]; }
        } else if i == 0 {
          assert sep !in rest[0];
        } else {
          assert parts[i] == rest[i];
        }
      }
    }
  }

  /** There is one piece more than there are separators. */
  lemma {:induction false} SplitCount(s: string, sep: char)
    ensures |Split(s, sep)| == multiset(s)[sep] + 1
  {
    if |s| > 0 {
      assert s == [s[0]] + s[1..];
      SplitCount(s[1..], sep);
    }
  }

  /** `Split` on a string written as a first character and the rest. */
  lemma SplitCons(c: char, t: string, sep: char)
    ensures Split([c] + t, sep) == Prepend(c, Split(t, sep), sep)
  {
    assert ([c] + t)[0] == c;
    assert ([c] + t)[1..] == t;
  }

  lemma PrependToFirst(c: char, first: string, rest: seq<string>, sep: char)
    requires c != sep
    ensures Prepend(c, [first] + rest, sep) == [[c] + first] + rest
  {
    assert ([first] + rest)[0] == first;
    assert ([first] + rest)[1..] == rest;
  }

  lemma {:induction false} SplitFreePrefix(p: string, t: string, sep: char)
    requires sep !in p
    ensures Split(p + t, sep) == [p + Split(t, sep)[0]] + Split(t, sep)[1..]
  {
    var rt := Split(t, sep);
    if p == [] {
      assert p + t == t;
      assert p + rt[0] == rt[0];
      assert rt == [rt[0]] + rt[1..];
    } else {
      var c, p' := p[0], p[1..];
      assert Split(p + t, sep) == Prepend(c, Split(p' + t, sep), sep) by {
        assert p + t == [c] + (p' + t);
        SplitCons(c, p' + t, sep);
      }
      assert sep !in p' by {
        assert forall k :: 0 <= k < |p'| ==> p'[k] == p[k + 1];
      }
      SplitFreePrefix(p', t, sep);
      PrependToFirst(c, p' + rt[0], rt[1..], sep);
      assert [c] + (p' + rt[0]) == p + rt[0];
    }
  }

  lemma PrependAppend(c: char, ra: seq<string>, rb: seq<string>, sep: char)
    requires |ra| >= 1
    ensures Prepend(c, ra + rb, sep) == Prepend(c, ra, sep) + rb
  {
    if c == sep {
      assert [""] + (ra + rb) == ([""] + ra) + rb;
    } else {
      assert (ra + rb)[0] == ra[0];
      assert (ra + rb)[1..] == ra[1..] + rb;
      assert [[c] + ra[0]] + (ra[1..] + rb) == ([[c] + ra[0]] + ra[1..]) + rb;
    }
  }

  /** Splitting at a separator splits the pieces: in particular two adjacent
      separators leave an empty piece between them. */
  lemma {:induction false} SplitAtSeparator(a: string, b: string, sep: char)
    ensures Split(a + [sep] + b, sep) == Split(a, sep) + Split(b, sep)
  {
    if a == [] {
      assert a + [sep] + b == [sep] + b;
      SplitCons(sep, b, sep);
    } else {
      var c, a' := a[0], a[1..];
      assert Split(a + [sep] + b, sep) == Prepend(c, Split(a' + [sep] + b, sep), sep) by {
        assert a + [sep] + b == [c] + (a' + [sep] + b);
        SplitCons(c, a' + [sep] + b, sep);
      }
      SplitAtSeparator(a', b, sep);
      PrependAppend(c, Split(a', sep), Split(b, sep), sep);
    }
  }

  lemma PrependExtend(d: char, r: seq<string>, c: char, sep: char)
    requires |r| >= 1
    ensures Prepend(d, Extend(r, c, sep), sep) == Extend(Prepend(d, r, sep), c, sep)
  {
    var n := |r|;
    if c == sep {
      assert Prepend(d, r + [""], sep) == Prepend(d, r, sep) + [""] by {
        PrependAppend(d, r, [""], sep);
      }
    } else {
      var r' := r[..n - 1] + [r[n - 1] + [c]];
      var parts := Prepend(d, r, sep);
      if d == sep {
        assert parts[..n] == [""] + r[..n - 1];
        assert [""] + r' == parts[..n] + [parts[n] + [c]];
      } else if n == 1 {
        assert r'[1..] == [];
        assert [d] + (r[0] + [c]) == ([d] + r[0]) + [c];
      } else {
        assert r'[0] == r[0];
        assert r'[1..] == r[1..n - 1] + [r[n - 1] + [c]];
        assert parts[..n - 1] == [[d] + r[0]] + r[1..n - 1];
        assert parts[n - 1] == r[n - 1];
      }
    }
  }

  /** Splitting a string extended by one character: a separator opens a new
      empty last piece, any other character extends the last piece. */
  lemma {:induction false} SplitSnoc(s: string, c: char, sep: char)
    ensures Split(s + [c], sep) == Extend(Split(s, sep), c, sep)
  {
    if s == [] {
      assert s + [c] == [c] + "";
      SplitCons(c, "", sep);
      assert [c] + "" == [c];
    } else {
      var d, s' := s[0], s[1..];
      assert Split(s + [c], sep) == Prepend(d, Split(s' + [c], sep), sep) by {
        assert s + [c] == [d] + (s' + [c]);
        SplitCons(d, s' + [c], sep);
      }
      assert Split(s, sep) == Prepend(d, Split(s', sep), sep) by {
        assert s == [d] + s';
        SplitCons(d, s', sep);
      }
      SplitSnoc(s', c, sep);
      PrependExtend(d, Split(s', sep), c, sep);
    }
  }

  /** Splitting undoes joining separator-free pieces, so the pieces of
      `Split` are the only separator-free pieces that join back to the input. */
  lemma {:induction false} JoinThenSplit(parts: seq<string>, sep: char)
    requires |parts| >= 1 && SeparatorFree(parts, sep)
    ensures Split(Join(parts, sep), sep) == parts
  {
    if |parts| == 1 {
      SplitFreePrefix(parts[0], "", sep);
      assert parts[0] + "" == parts[0];
    } else {
      var rest := parts[1..];
      assert SeparatorFree(rest, sep) by {
        forall i | 0 <= i < |rest| ensures sep !in rest[i] { assert rest[i] == parts[i + 1]; }
      }
      JoinThenSplit(rest, sep);
      assert sep !in parts[0];
      SplitAtSeparator(parts[0], Join(rest, sep), sep);
      SplitFreePrefix(parts[0], "", sep);
      assert parts[0] + "" == parts[0];
      assert parts == [parts[0]] + rest;
    }
  }
}
