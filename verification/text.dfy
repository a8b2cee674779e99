/**
 * String helpers the binding runtime relies on: dotted key paths
 * (`Split('.')`, `string.Join(".")`), prefix tests, `string.Replace` of the
 * alias marker and decimal integer text.
 */
module Text {
  import opened Wrappers

  /** `DataBinding.Delimiter`: separates the segments of a key path. */
  const Delimiter: char := '.'
  /** `DataBinding.AliasSymbol`: the alias marker segment. */
  const AliasSymbol: char := '*'
  /** `DataBinding.LeftDelimiter` / `RightDelimiter`: template braces. */
  const LeftDelimiter: char := '{'
  const RightDelimiter: char := '}'

  predicate IsDigit(c: char) { '0' <= c <= '9' }

  /** `char.IsWhiteSpace`, restricted to the ASCII white-space characters. */
  predicate IsWhiteSpace(c: char) {
    c == ' ' || c == '\t' || c == '\n' || c == '\r' || c == '\U{000B}' || c == '\U{000C}'
  }

  /** Ordinal `string.StartsWith`. */
  predicate StartsWith(s: string, prefix: string) {
    |prefix| <= |s| && s[..|prefix|] == prefix
  }

  /** Case folding used by `StringComparison.OrdinalIgnoreCase` (ASCII letters). */
  function FoldCase(c: char): char {
    if 'a' <= c <= 'z' then (c as int - 32) as char else c
  }

  /** `string.StartsWith(prefix, StringComparison.OrdinalIgnoreCase)`. */
  predicate StartsWithIgnoreCase(s: string, prefix: string) {
    |prefix| <= |s| && forall i :: 0 <= i < |prefix| ==> FoldCase(s[i]) == FoldCase(prefix[i])
  }

  lemma StartsWithIsIgnoreCase(s: string, prefix: string)
    requires StartsWith(s, prefix)
    ensures StartsWithIgnoreCase(s, prefix)
  {
    forall i | 0 <= i < |prefix| ensures FoldCase(s[i]) == FoldCase(prefix[i]) {
      assert s[..|prefix|][i] == s[i];
    }
  }

  // ---------------------------------------------------------------------------
  // Dotted paths

  /** `s.Split('.')`: the text between delimiters, in order; never an empty list. */
  function Split(s: string): (r: seq<string>)
    ensures |r| >= 1
  {
    if s == [] then [""]
    else
      var rest := Split(s[1..]);
      if s[0] == Delimiter then [""] + rest
      else [[s[0]] + rest[0]] + rest[1..]
  }

  /** `string.Join(".", segs)`. */
  function Join(segs: seq<string>): string {
    if |segs| == 0 then ""
    else if |segs| == 1 then segs[0]
    else segs[0] + [Delimiter] + Join(segs[1..])
  }

  /** No segment contains the delimiter (true of every result of `Split`). */
  predicate Segments(segs: seq<string>) {
    forall i :: 0 <= i < |segs| ==> Delimiter !in segs[i]
  }

  lemma {:induction false} SplitHasNoDelimiter(s: string)
    ensures Segments(Split(s))
  {
    if s != [] {
      SplitHasNoDelimiter(s[1..]);
    }
  }

  /** Joining the pieces of a split gives the text back. */
  lemma {:induction false} JoinSplit(s: string)
    ensures Join(Split(s)) == s
  {
    if s != [] {
      var rest := Split(s[1..]);
      JoinSplit(s[1..]);
      if s[0] == Delimiter {
        assert Split(s) == [""] + rest;
        assert Join([""] + rest) == "" + [Delimiter] + Join(rest);
      } else if |rest| == 1 {
        assert Split(s) == [[s[0]] + rest[0]];
      } else {
        assert Join(rest) == rest[0] + [Delimiter] + Join(rest[1..]);
        assert Split(s)[1..] == rest[1..];
      }
    }
  }

  lemma {:induction false} SplitPrefix(a: string, t: string)
    requires Delimiter !in a
    ensures Split(a + t) == [a + Split(t)[0]] + Split(t)[1..]
  {
    if a != [] {
      assert (a + t)[0] == a[0];
      assert (a + t)[1..] == a[1..] + t;
      SplitPrefix(a[1..], t);
      assert [a[0]] + (a[1..] + Split(t)[0]) == a + Split(t)[0];
    } else {
      var r := Split(t);
      assert a + t == t;
      assert a + r[0] == r[0];
      assert [r[0]] + r[1..] == r;
    }
  }

  /** A delimiter-free text is a single segment. */
  lemma SplitSingle(a: string)
    requires Delimiter !in a
    ensures Split(a) == [a]
  {
    SplitPrefix(a, []);
    assert a + [] == a;
  }

  /** A delimiter-free head followed by the delimiter splits off as the first segment. */
  lemma SplitCons(a: string, t: string)
    requires Delimiter !in a
    ensures Split(a + [Delimiter] + t) == [a] + Split(t)
  {
    assert a + [Delimiter] + t == a + ([Delimiter] + t);
    SplitPrefix(a, [Delimiter] + t);
    assert ([Delimiter] + t)[1..] == t;
    assert Split([Delimiter] + t) == [""] + Split(t);
    assert a + "" == a;
  }

  /** Splitting a join of delimiter-free segments gives the segments back. */
  lemma {:induction false} SplitJoin(segs: seq<string>)
    requires |segs| >= 1 && Segments(segs)
    ensures Split(Join(segs)) == segs
  {
    if |segs| == 1 {
      SplitPrefix(segs[0], []);
      assert segs[0] + [] == segs[0];
    } else {
      var t := Join(segs[1..]);
      SplitJoin(segs[1..]);
      assert Join(segs) == segs[0] + ([Delimiter] + t);
      SplitPrefix(segs[0], [Delimiter] + t);
      assert ([Delimiter] + t)[1..] == t;
      assert Split([Delimiter] + t) == [""] + Split(t);
      assert Split(Join(segs)) == [segs[0] + ""] + Split(t);
      assert segs[0] + "" == segs[0];
      assert [segs[0]] + segs[1..] == segs;
    }
  }

  /**
   * `Where(v => !string.IsNullOrEmpty(v))` over the segments: only non-empty
   * segments are kept; `NonEmptyKeepsEvery` says every one of them is, and
   * `NonEmptyAppend` that the order is kept.
   */
  function NonEmpty(segs: seq<string>): (r: seq<string>)
    ensures |r| <= |segs|
    ensures forall i :: 0 <= i < |r| ==> r[i] != "" && r[i] in segs
    ensures Segments(segs) ==> Segments(r)
  {
    if segs == [] then []
    else
      (if segs[0] == "" then [] else [segs[0]]) + NonEmpty(segs[1..])
  }

  /** Filtering a concatenation filters each part, in order. */
  lemma {:induction false} NonEmptyAppend(a: seq<string>, b: seq<string>)
    ensures NonEmpty(a + b) == NonEmpty(a) + NonEmpty(b)
  {
    if a == [] {
      assert a + b == b;
    } else {
      var head: seq<string> := if a[0] == "" then [] else [a[0]];
      assert (a + b)[0] == a[0] && (a + b)[1..] == a[1..] + b;
      assert NonEmpty(a + b) == head + NonEmpty(a[1..] + b);
      NonEmptyAppend(a[1..], b);
      assert NonEmpty(a) == head + NonEmpty(a[1..]);
      assert head + (NonEmpty(a[1..]) + NonEmpty(b)) == (head + NonEmpty(a[1..])) + NonEmpty(b);
    }
  }

  /** Every non-empty segment passes the filter. */
  lemma {:induction false} NonEmptyKeepsEvery(segs: seq<string>, i: nat)
    requires i < |segs| && segs[i] != ""
    ensures segs[i] in NonEmpty(segs)
  {
    if i > 0 {
      assert segs[1..][i - 1] == segs[i];
      NonEmptyKeepsEvery(segs[1..], i - 1);
    }
  }

  /** Segments that are all non-empty pass the filter unchanged. */
  lemma {:induction false} NonEmptyKeepsAll(segs: seq<string>)
    requires forall i :: 0 <= i < |segs| ==> segs[i] != ""
    ensures NonEmpty(segs) == segs
  {
    if segs != [] {
      assert forall i :: 0 <= i < |segs| - 1 ==> segs[1..][i] == segs[i + 1];
      NonEmptyKeepsAll(segs[1..]);
      assert [segs[0]] + segs[1..] == segs;
    }
  }

  /** `s.Replace(c.ToString(), rep)`: every occurrence of `c` becomes `rep`. */
  function ReplaceChar(s: string, c: char, rep: string): string {
    if s == [] then []
    else (if s[0] == c then rep else [s[0]]) + ReplaceChar(s[1..], c, rep)
  }

  lemma {:induction false} ReplaceCharAbsent(s: string, c: char, rep: string)
    requires c !in s
    ensures ReplaceChar(s, c, rep) == s
  {
    if s != [] {
      ReplaceCharAbsent(s[1..], c, rep);
    }
  }

  lemma {:induction false} ReplaceCharRemoves(s: string, c: char, rep: string)
    requires c !in rep
    ensures c !in ReplaceChar(s, c, rep)
  {
    if s != [] {
      ReplaceCharRemoves(s[1..], c, rep);
    }
  }

  // ---------------------------------------------------------------------------
  // Decimal integers

  function DigitChar(d: nat): char
    requires d < 10
  {
    ('0' as int + d) as char
  }

  /** The decimal digits of `n`, most significant first, without leading zeros. */
  function Digits(n: nat): (r: string)
    ensures |r| >= 1 && forall i :: 0 <= i < |r| ==> IsDigit(r[i])
  {
    if n < 10 then [DigitChar(n)] else Digits(n / 10) + [DigitChar(n % 10)]
  }

  /** The number a non-empty string of decimal digits denotes. */
  function DigitsValue(s: string): nat
    requires forall i :: 0 <= i < |s| ==> IsDigit(s[i])
  {
    if s == [] then 0
    else assert IsDigit(s[|s| - 1]); DigitsValue(s[..|s| - 1]) * 10 + (s[|s| - 1] as int - '0' as int)
  }

  lemma {:induction false} DigitsRoundTrip(n: nat)
    ensures DigitsValue(Digits(n)) == n
  {
    if n >= 10 {
      DigitsRoundTrip(n / 10);
      var s := Digits(n);
      assert s[..|s| - 1] == Digits(n / 10);
    }
  }

  /** `int.ToString()` in the invariant culture. */
  function IntToString(i: int): string {
    if i < 0 then "-" + Digits(-i) else Digits(i)
  }

  predicate AllDigits(s: string) {
    forall i :: 0 <= i < |s| ==> IsDigit(s[i])
  }

  // ---------------------------------------------------------------------------
  // Surrounding white space

  /** A character `Trim` drops: white space, and with `nul` also `'\0'`. */
  predicate Blank(c: char, nul: bool) {
    IsWhiteSpace(c) || (nul && c == '\0')
  }

  predicate AllWhite(w: string) {
    forall i :: 0 <= i < |w| ==> IsWhiteSpace(w[i])
  }

  /** `TrimStart()`: the text from its first non-blank character on. */
  function TrimStart(s: string, nul: bool): (r: string)
    ensures |r| <= |s|
    ensures r == [] || !Blank(r[0], nul)
  {
    if s != [] && Blank(s[0], nul) then TrimStart(s[1..], nul) else s
  }

  /** `TrimEnd()`: the text up to its last non-blank character. */
  function TrimEnd(s: string, nul: bool): (r: string)
    ensures |r| <= |s|
    ensures r == [] || !Blank(r[|r| - 1], nul)
  {
    if s != [] && Blank(s[|s| - 1], nul) then TrimEnd(s[..|s| - 1], nul) else s
  }

  /** `TrimStart` removes exactly the leading blank characters: what it returns is the rest of the text. */
  lemma {:induction false} TrimStartDropsBlanks(s: string, nul: bool)
    ensures var r := TrimStart(s, nul);
      r == s[|s| - |r|..] && forall i :: 0 <= i < |s| - |r| ==> Blank(s[i], nul)
  {
    if s != [] && Blank(s[0], nul) {
      TrimStartDropsBlanks(s[1..], nul);
      var r := TrimStart(s, nul);
      assert forall i :: 1 <= i < |s| ==> s[i] == s[1..][i - 1];
      assert s[1..][|s| - 1 - |r|..] == s[|s| - |r|..];
    }
  }

  /** `TrimEnd` removes exactly the trailing blank characters: what it returns is the start of the text. */
  lemma {:induction false} TrimEndDropsBlanks(s: string, nul: bool)
    ensures var r := TrimEnd(s, nul);
      r == s[..|r|] && forall i :: |r| <= i < |s| ==> Blank(s[i], nul)
  {
    if s != [] && Blank(s[|s| - 1], nul) {
      TrimEndDropsBlanks(s[..|s| - 1], nul);
      var r := TrimEnd(s, nul);
      assert forall i :: 0 <= i < |s| - 1 ==> s[i] == s[..|s| - 1][i];
      assert s[..|s| - 1][..|r|] == s[..|r|];
    }
  }

  /** `Trim()`: without the blank characters at either end. */
  function Trim(s: string, nul: bool): string {
    TrimEnd(TrimStart(s, nul), nul)
  }

  /** White space added in front of a text is trimmed away again. */
  lemma {:induction false} TrimStartPadded(w: string, s: string, nul: bool)
    requires AllWhite(w)
    ensures TrimStart(w + s, nul) == TrimStart(s, nul)
  {
    if w != [] {
      assert (w + s)[1..] == w[1..] + s;
      TrimStartPadded(w[1..], s, nul);
    } else {
      assert w + s == s;
    }
  }

  /** White space added behind a text is trimmed away again. */
  lemma {:induction false} TrimEndPadded(s: string, w: string, nul: bool)
    requires AllWhite(w)
    ensures TrimEnd(s + w, nul) == TrimEnd(s, nul)
  {
    if w != [] {
      var u := s + w;
      assert u[..|u| - 1] == s + w[..|w| - 1];
      assert u[|u| - 1] == w[|w| - 1];
      TrimEndPadded(s, w[..|w| - 1], nul);
    } else {
      assert s + w == s;
    }
  }

  /** Trimming the front first and then appending white space commutes with trimming the back. */
  lemma {:induction false} TrimStartAppend(s: string, w: string, nul: bool)
    requires AllWhite(w)
    ensures TrimEnd(TrimStart(s + w, nul), nul) == TrimEnd(TrimStart(s, nul), nul)
  {
    if s == [] {
      assert s + w == w;
      TrimStartPadded(w, [], nul);
      assert w + [] == w;
    } else if Blank(s[0], nul) {
      assert (s + w)[1..] == s[1..] + w;
      TrimStartAppend(s[1..], w, nul);
    } else {
      assert (s + w)[0] == s[0];
      TrimEndPadded(s, w, nul);
    }
  }

  /** `Trim` ignores white space around the text. */
  lemma TrimPadded(w1: string, s: string, w2: string, nul: bool)
    requires AllWhite(w1) && AllWhite(w2)
    ensures Trim(w1 + s + w2, nul) == Trim(s, nul)
  {
    assert w1 + s + w2 == w1 + (s + w2);
    TrimStartPadded(w1, s + w2, nul);
    TrimStartAppend(s, w2, nul);
  }

  /** A text with non-blank ends is its own trim. */
  lemma TrimKeeps(s: string, nul: bool)
    requires s != [] && !Blank(s[0], nul) && !Blank(s[|s| - 1], nul)
    ensures Trim(s, nul) == s
  {
  }

  /** An optionally signed run of decimal digits (`[+-]?[0-9]+`). */
  function SignedDigits(s: string): (r: Option<int>)
    ensures r.Some? ==> |s| >= 1
  {
    if |s| >= 2 && s[0] == '-' && AllDigits(s[1..]) then Some(-(DigitsValue(s[1..]) as int))
    else if |s| >= 2 && s[0] == '+' && AllDigits(s[1..]) then Some(DigitsValue(s[1..]))
    else if |s| >= 1 && AllDigits(s) then Some(DigitsValue(s))
    else None
  }

  /**
   * An integer in `NumberStyles.Integer`, the style of `long.TryParse` and
   * `int.Parse`: an optionally signed run of digits, with white space allowed
   * on either side; range checks are the caller's.
   */
  function ParseInteger(s: string): (r: Option<int>)
    ensures r.Some? ==> |s| >= 1
  {
    SignedDigits(Trim(s, false))
  }

  /** White space around an integer's text does not change the integer. */
  lemma ParseIntegerPadded(w1: string, s: string, w2: string)
    requires AllWhite(w1) && AllWhite(w2)
    ensures ParseInteger(w1 + s + w2) == ParseInteger(s)
  {
    TrimPadded(w1, s, w2, false);
  }

  /** Printing an integer and parsing the text gives the integer back. */
  lemma IntToStringRoundTrip(i: int)
    ensures ParseInteger(IntToString(i)) == Some(i)
  {
    var s := IntToString(i);
    if i < 0 {
      assert s[1..] == Digits(-i);
      DigitsRoundTrip(-i);
    } else {
      DigitsRoundTrip(i);
      assert s[0] != '-' && s[0] != '+';
    }
    assert IsDigit(s[|s| - 1]);
    TrimKeeps(s, false);
  }
}
