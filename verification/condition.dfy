/**
 * `ConditionBinding`: the little boolean language of `ActiveBinder` and friends
 * (`user.age >= 18 && !user.banned`).
 *
 * The source lexes with a `StringReader` cursor and a one-token lookahead
 * field, parses by recursive descent into closures, and evaluates those
 * closures with short-circuiting `&&`/`||`, registering every key it reads.
 * Here the lexer is the function `Lex` over the unread text and the parser a
 * family of functions passing the lexer state along; the class
 * `ConditionParser` is the source's cursor-and-lookahead parser, each of its
 * methods proved equal to its function.  A parsed condition is the datatype
 * `Expr`, and what a closure does when called is `Run`.
 */
module Conditions {
  import opened Wrappers
  import opened Text
  import opened Values
  import Bindings

  // ---------------------------------------------------------------------------
  // Tokens

  /** `LexerToken` together with the token's object, for the two kinds that carry one. */
  datatype Token =
    | TObject(v: Value)     // OP_OBJECT: a literal (null, a bool, a number, a string)
    | TSymbol(name: string) // OP_SYMBOL: a key to look up
    | TNot | TAnd | TOr
    | TEqual | TNotEqual | TLess | TLessEqual | TGreater | TGreaterEqual
    | TLeftParen | TRightParen
    | TEof

  /** The tokens `PeekToken` keeps in its lookahead field; the others are consumed as they are peeked. */
  predicate Kept(t: Token) {
    !(t.TObject? || t.TSymbol? || t.TEof?)
  }

  predicate IsComparison(t: Token) {
    t.TEqual? || t.TNotEqual? || t.TLess? || t.TLessEqual? || t.TGreater? || t.TGreaterEqual?
  }

  /** The characters that end a bare word: `"&|<>!=()"`. */
  predicate IsOperatorChar(c: char) {
    c == '&' || c == '|' || c == '<' || c == '>' || c == '!' || c == '=' || c == '(' || c == ')'
  }

  /** `char.IsNumber`, restricted to the ASCII digits. */
  predicate IsNumberChar(c: char) { IsDigit(c) }

  // ---------------------------------------------------------------------------
  // The lexer as functions of the unread text

  /** `SkipSpace`: the text after its leading white space. */
  function SkipSpaces(s: string): (r: string)
    ensures |r| <= |s|
    ensures r == [] || !IsWhiteSpace(r[0])
  {
    if s != [] && IsWhiteSpace(s[0]) then SkipSpaces(s[1..]) else s
  }

  /** The number of leading digits and dots: how far a number token runs past its first character. */
  function NumberRun(s: string): (n: nat)
    ensures n <= |s|
    ensures forall i :: 0 <= i < n ==> IsNumberChar(s[i]) || s[i] == '.'
    ensures n < |s| ==> !(IsNumberChar(s[n]) || s[n] == '.')
  {
    if s != [] && (IsNumberChar(s[0]) || s[0] == '.') then 1 + NumberRun(s[1..]) else 0
  }

  /** The text of a number token read as `double.Parse` (with a dot) or `int.Parse` (without). */
  function NumberValue(text: string): (r: Outcome<Value>)
    ensures r.Ok? && '.' !in text ==> r.value.Int? && InInt32(r.value.i)
    ensures r.Ok? && '.' in text ==> r.value.Double?
  {
    if '.' in text then
      match ParseDecimal(text)
      case None => Fault
      case Some(v) => Ok(v)
    else
      match ParseInteger(text)
      case None => Fault
      case Some(n) => if InInt32(n) then Ok(Int(n)) else Fault
  }

  /** The index of the first `"` in `s`, or `|s|` when there is none. */
  function QuoteIndex(s: string): (n: nat)
    ensures n <= |s| && '"' !in s[..n]
    ensures n < |s| ==> s[n] == '"'
  {
    if s == [] then 0
    else if s[0] == '"' then 0
    else
      var n := 1 + QuoteIndex(s[1..]);
      assert s[..n] == [s[0]] + s[1..][..n - 1];
      n
  }

  /**
   * A bare word and what follows it: characters up to an operator character or
   * white space, with the white space after each character skipped, so that
   * `a b` reads as `ab`.
   */
  function Word(s: string): (r: (string, string))
    ensures |r.1| <= |s|
    ensures r.1 == [] || IsOperatorChar(r.1[0]) || IsWhiteSpace(r.1[0])
    decreases |s|
  {
    if s == [] || IsOperatorChar(s[0]) || IsWhiteSpace(s[0]) then ([], s)
    else
      var w := Word(SkipSpaces(s[1..]));
      ([s[0]] + w.0, w.1)
  }

  /** The object a bare word stands for: the literals `null`, `true`, `false`, the empty word; else a key. */
  function WordToken(w: string): Token {
    if w == "null" then TObject(Null)
    else if w == "true" then TObject(Bool(true))
    else if w == "false" then TObject(Bool(false))
    else if w == "" then TObject(Bool(false))
    else TSymbol(w)
  }

  /** The second character that makes a two-character operator out of `c`. */
  function Follow(c: char): char {
    if c == '&' then '&' else if c == '|' then '|' else '='
  }

  /** The token of the operator character `c`, alone or followed by `Follow(c)`. */
  function OperatorToken(c: char, paired: bool): Token {
    match c
    case '&' => if paired then TAnd else TObject(Null)
    case '|' => if paired then TOr else TObject(Null)
    case '<' => if paired then TLessEqual else TLess
    case '>' => if paired then TGreaterEqual else TGreater
    case '!' => if paired then TNotEqual else TNot
    case '=' => if paired then TEqual else TObject(Null)
    case '(' => TLeftParen
    case _ => TRightParen
  }

  /** The operator cases of `PeekToken`: a parenthesis, or a character that may pair with the next. */
  function LexOperator(s: string): (r: (Token, string))
    requires s != [] && IsOperatorChar(s[0])
    ensures |r.1| < |s|
  {
    var c := s[0];
    var paired := c != '(' && c != ')' && |s| >= 2 && s[1] == Follow(c);
    (OperatorToken(c, paired), if paired then s[2..] else s[1..])
  }

  /** A number token: the first character, a digit or `-`, then every digit and dot. */
  function LexNumber(s: string): (r: Outcome<(Token, string)>)
    requires s != []
    ensures r.Ok? ==> r.value.0.TObject? && |r.value.1| < |s|
  {
    var n := 1 + NumberRun(s[1..]);
    match NumberValue(s[..n])
    case Fault => Fault
    case Ok(v) => Ok((TObject(v), s[n..]))
  }

  /** A string token: everything after the opening quote up to the next quote or the end. */
  function LexString(s: string): (r: (Token, string))
    requires s != []
    ensures r.0.TObject? && |r.1| < |s|
  {
    var q := s[1..];
    var n := QuoteIndex(q);
    (TObject(Str(q[..n])), if n < |q| then q[n + 1..] else q[n..])
  }

  /** The token at the start of `s`, which does not start with white space. */
  function LexAt(s: string): (r: Outcome<(Token, string)>)
    ensures r.Ok? ==> |r.value.1| <= |s|
    ensures r.Ok? && Kept(r.value.0) ==> |r.value.1| < |s|
    ensures r.Ok? && r.value.0.TEof? ==> r.value.1 == s
  {
    if s == [] then Ok((TEof, s))
    else if IsOperatorChar(s[0]) then Ok(LexOperator(s))
    else if IsNumberChar(s[0]) || s[0] == '-' then LexNumber(s)
    else if s[0] == '"' then Ok(LexString(s))
    else
      var w := Word(s);
      Ok((WordToken(w.0), w.1))
  }

  /**
   * `PeekToken` with an empty lookahead: the next token and the unread text after
   * it, or `Fault` when `int.Parse`/`double.Parse` rejects a number token.
   */
  function Lex(s: string): (r: Outcome<(Token, string)>)
    ensures r.Ok? ==> |r.value.1| <= |s|
    ensures r.Ok? && Kept(r.value.0) ==> |r.value.1| < |s|
  {
    LexAt(SkipSpaces(s))
  }

  /**
   * The lexer's state: the text the reader has not consumed, and the token kept
   * in `lex_value` when there is one.
   */
  datatype LexState = LexState(rest: string, ahead: Option<Token>)

  /** What is left to parse: the unread characters, plus one for a kept token. */
  function Size(st: LexState): nat {
    |st.rest| + if st.ahead.Some? then 1 else 0
  }

  /** `PeekToken`: the kept token, or the next one lexed (and kept when it is an operator). */
  function Peek(st: LexState): (r: Outcome<(Token, LexState)>)
    ensures r.Ok? ==> Size(r.value.1) <= Size(st)
    ensures r.Ok? && Kept(r.value.0) ==> r.value.1.ahead == Some(r.value.0)
    ensures r.Ok? && st.ahead.None? && !Kept(r.value.0) ==> r.value.1.ahead.None?
    ensures st.ahead.Some? ==> r == Ok((st.ahead.value, st))
  {
    if st.ahead.Some? then Ok((st.ahead.value, st))
    else match Lex(st.rest)
      case Fault => Fault
      case Ok(l) => Ok((l.0, LexState(l.1, if Kept(l.0) then Some(l.0) else None)))
  }

  /** `ParseToken` after a peek returned a kept token: forget it. */
  function Drop(st: LexState): (r: LexState)
    requires st.ahead.Some?
    ensures Size(r) < Size(st)
  {
    LexState(st.rest, None)
  }

  // ---------------------------------------------------------------------------
  // Lexer properties

  /** Text that starts with something other than white space is lexed where it starts. */
  lemma LexHere(s: string)
    requires s != [] && !IsWhiteSpace(s[0])
    ensures Lex(s) == LexAt(s)
  {
  }

  /**
   * `&&`, `||`, `==`, `!=`, `<=` and `>=` lex as one two-character token; `<`,
   * `>` and `!` alone are one-character tokens; a lone `&`, `|` or `=` is
   * consumed and reads as the null literal.
   */
  lemma LexOperators(c: char, t: string)
    requires c in "&|<>!="
    ensures Lex([c, Follow(c)] + t) == Ok((OperatorToken(c, true), t))
    ensures t == [] || t[0] != Follow(c) ==> Lex([c] + t) == Ok((OperatorToken(c, false), t))
    ensures OperatorToken(c, true) == (if c == '&' then TAnd else if c == '|' then TOr else if c == '<' then TLessEqual
      else if c == '>' then TGreaterEqual else if c == '!' then TNotEqual else TEqual)
    ensures OperatorToken(c, false) == (if c == '<' then TLess else if c == '>' then TGreater
      else if c == '!' then TNot else TObject(Null))
  {
    var p := [c, Follow(c)] + t;
    assert IsOperatorChar(c) && !IsWhiteSpace(c);
    LexHere(p);
    assert p[1] == Follow(c) && p[2..] == t;
    assert LexOperator(p) == (OperatorToken(c, true), t);
    var q := [c] + t;
    LexHere(q);
    assert q[1..] == t;
  }

  /** A bare word always has its first character: the empty-word literal is never produced. */
  lemma WordNeverEmpty(s: string)
    requires s != [] && !IsOperatorChar(s[0]) && !IsWhiteSpace(s[0])
    ensures Word(s).0 != [] && Word(s).0[0] == s[0]
  {
  }

  /** White space between word characters is dropped: `a b` is the key `ab`. */
  lemma SpacedWord(a: char, b: char, t: string)
    requires !IsOperatorChar(a) && !IsWhiteSpace(a) && !IsDigit(a) && a != '-' && a != '"'
    requires !IsOperatorChar(b) && !IsWhiteSpace(b)
    requires t == [] || IsOperatorChar(t[0])
    ensures Lex([a, ' ', b] + t) == Ok((TSymbol([a, b]), t))
  {
    var s := [a, ' ', b] + t;
    LexHere(s);
    var bt := [b] + t;
    assert s[1..] == [' '] + bt && ([' '] + bt)[1..] == bt;
    assert SkipSpaces(s[1..]) == bt;
    assert bt[1..] == t;
    assert SkipSpaces(t) == t;
    WordStops(t);
    assert [b] + [] == [b];
    assert Word(bt) == ([b], t);
    assert s[0] == a && !IsOperatorChar(s[0]) && !IsWhiteSpace(s[0]);
    assert Word(s) == ([a] + Word(SkipSpaces(s[1..])).0, Word(SkipSpaces(s[1..])).1);
    assert [a] + [b] == [a, b];
  }

  lemma WordStops(u: string)
    requires u == [] || IsOperatorChar(u[0]) || IsWhiteSpace(u[0])
    ensures Word(u) == ([], u)
  {
  }

  /** A number token without a dot is an `int` literal: the digits read back as the number. */
  lemma IntLiteral(n: nat, t: string)
    requires InInt32(n)
    requires t == [] || !(IsNumberChar(t[0]) || t[0] == '.')
    ensures Lex(Digits(n) + t) == Ok((TObject(Int(n)), t))
  {
    var d := Digits(n);
    var s := d + t;
    assert s[0] == d[0] && IsDigit(s[0]);
    LexHere(s);
    NumberRunOver(d, t);
    assert s[..|d|] == d && s[|d|..] == t;
    assert '.' !in d;
    IntToStringRoundTrip(n);
  }

  lemma {:induction false} NumberRunOver(d: string, t: string)
    requires d != [] && forall i :: 0 <= i < |d| ==> IsDigit(d[i])
    requires t == [] || !(IsNumberChar(t[0]) || t[0] == '.')
    ensures 1 + NumberRun((d + t)[1..]) == |d|
  {
    assert (d + t)[1..] == d[1..] + t;
    if |d| > 1 {
      NumberRunOver(d[1..], t);
      assert (d[1..] + t)[1..] == (d + t)[2..];
    }
  }

  /** A quoted string runs to the next `"`, with no escapes; the closing quote is consumed. */
  lemma QuotedString(body: string, t: string)
    requires '"' !in body
    ensures Lex("\"" + body + "\"" + t) == Ok((TObject(Str(body)), t))
    ensures Lex("\"" + body) == Ok((TObject(Str(body)), []))
  {
    var s := "\"" + body + "\"" + t;
    assert s[1..] == body + ("\"" + t);
    QuoteIndexOver(body, "\"" + t);
    assert (body + ("\"" + t))[..|body|] == body;
    assert (body + ("\"" + t))[|body| + 1..] == t;
    var u := "\"" + body;
    assert u[1..] == body;
    QuoteIndexOver(body, []);
    assert body + [] == body;
  }

  lemma {:induction false} QuoteIndexOver(body: string, t: string)
    requires '"' !in body
    requires t == [] || t[0] == '"'
    ensures QuoteIndex(body + t) == |body|
  {
    if body != [] {
      assert (body + t)[1..] == body[1..] + t;
      QuoteIndexOver(body[1..], t);
    } else {
      assert body + t == t;
    }
  }

  // ---------------------------------------------------------------------------
  // The parser

  /** A parsed condition: what the closure `ParseTop` returns computes. */
  datatype Expr =
    | Const(v: Value)                         // `(dataBinder) => token` for a literal
    | Symbol(name: string)                    // `(dataBinder) => token` for a key
    | Not(e: Expr)                            // `!value`
    | Compare(op: Token, left: Expr, right: Expr)
    | And(first: Expr, rest: seq<Expr>)       // `first && rest[0] && ...`, `rest` non-empty
    | Or(first: Expr, rest: seq<Expr>)

  /**
   * `ParseValue`: `!` and a value, a parenthesised condition (the closing
   * parenthesis consumed only when it is there), or a literal or key.  Any other
   * token is left where it is and stands for the null literal.
   */
  function ParsedValue(st: LexState): (r: Outcome<(Expr, LexState)>)
    ensures r.Ok? ==> Size(r.value.1) <= Size(st)
    decreases Size(st), 0
  {
    match Peek(st)
    case Fault => Fault
    case Ok(p) =>
      var tok := p.0;
      if tok.TNot? then
        match ParsedValue(Drop(p.1))
        case Fault => Fault
        case Ok(q) => Ok((Not(q.0), q.1))
      else if tok.TLeftParen? then
        match ParsedOr(Drop(p.1))
        case Fault => Fault
        case Ok(q) =>
          match Peek(q.1)
          case Fault => Fault
          case Ok(c) => Ok((q.0, if c.0.TRightParen? then Drop(c.1) else c.1))
      else if tok.TObject? then Ok((Const(tok.v), p.1))
      else if tok.TSymbol? then Ok((Symbol(tok.name), p.1))
      else Ok((Const(Null), p.1))
  }

  /** `ParseComparableToken`: consume a comparison operator if one comes next. */
  function ParsedComparable(st: LexState): (r: Outcome<(Option<Token>, LexState)>)
    ensures r.Ok? ==> Size(r.value.1) <= Size(st)
    ensures r.Ok? && r.value.0.Some? ==> IsComparison(r.value.0.value)
  {
    match Peek(st)
    case Fault => Fault
    case Ok(p) => if IsComparison(p.0) then Ok((Some(p.0), Drop(p.1))) else Ok((None, p.1))
  }

  /** `ParseCondition`: a value, optionally compared with one more value (comparisons do not chain). */
  function ParsedCondition(st: LexState): (r: Outcome<(Expr, LexState)>)
    ensures r.Ok? ==> Size(r.value.1) <= Size(st)
    decreases Size(st), 1
  {
    match ParsedValue(st)
    case Fault => Fault
    case Ok(l) =>
      match ParsedComparable(l.1)
      case Fault => Fault
      case Ok(c) =>
        if c.0.None? then Ok((l.0, c.1))
        else match ParsedValue(c.1)
          case Fault => Fault
          case Ok(r) => Ok((Compare(c.0.value, l.0, r.0), r.1))
  }

  /** The `while (PeekToken() is &&)` loop of `ParseAnd`: the conditions after each `&&`. */
  function AndTail(st: LexState): (r: Outcome<(seq<Expr>, LexState)>)
    ensures r.Ok? ==> Size(r.value.1) <= Size(st)
    decreases Size(st), 2
  {
    match Peek(st)
    case Fault => Fault
    case Ok(p) =>
      if !p.0.TAnd? then Ok(([], p.1))
      else match ParsedCondition(Drop(p.1))
        case Fault => Fault
        case Ok(e) =>
          match AndTail(e.1)
          case Fault => Fault
          case Ok(t) => Ok(([e.0] + t.0, t.1))
  }

  /** `ParseAnd`: conditions joined by `&&`; a single condition is returned as it is. */
  function ParsedAnd(st: LexState): (r: Outcome<(Expr, LexState)>)
    ensures r.Ok? ==> Size(r.value.1) <= Size(st)
    decreases Size(st), 3
  {
    match ParsedCondition(st)
    case Fault => Fault
    case Ok(top) =>
      match AndTail(top.1)
      case Fault => Fault
      case Ok(t) => Ok((if t.0 == [] then top.0 else And(top.0, t.0), t.1))
  }

  /** The `while (PeekToken() is ||)` loop of `ParseOr`. */
  function OrTail(st: LexState): (r: Outcome<(seq<Expr>, LexState)>)
    ensures r.Ok? ==> Size(r.value.1) <= Size(st)
    decreases Size(st), 4
  {
    match Peek(st)
    case Fault => Fault
    case Ok(p) =>
      if !p.0.TOr? then Ok(([], p.1))
      else match ParsedAnd(Drop(p.1))
        case Fault => Fault
        case Ok(e) =>
          match OrTail(e.1)
          case Fault => Fault
          case Ok(t) => Ok(([e.0] + t.0, t.1))
  }

  /** `ParseOr` (= `ParseTop`): `&&`-groups joined by `||`. */
  function ParsedOr(st: LexState): (r: Outcome<(Expr, LexState)>)
    ensures r.Ok? ==> Size(r.value.1) <= Size(st)
    decreases Size(st), 5
  {
    match ParsedAnd(st)
    case Fault => Fault
    case Ok(top) =>
      match OrTail(top.1)
      case Fault => Fault
      case Ok(t) => Ok((if t.0 == [] then top.0 else Or(top.0, t.0), t.1))
  }

  /** The conditions of a `&&` or `||` loop, with those parsed before put in front. */
  function Prepended(list: seq<Expr>, o: Outcome<(seq<Expr>, LexState)>): Outcome<(seq<Expr>, LexState)> {
    match o
    case Fault => Fault
    case Ok(t) => Ok((list + t.0, t.1))
  }

  lemma PrependedNothing(o: Outcome<(seq<Expr>, LexState)>)
    ensures Prepended([], o) == o
  {
    if o.Ok? {
      assert [] + o.value.0 == o.value.0;
    }
  }

  lemma PrependedTwice(a: seq<Expr>, b: seq<Expr>, o: Outcome<(seq<Expr>, LexState)>)
    ensures Prepended(a, Prepended(b, o)) == Prepended(a + b, o)
  {
    if o.Ok? {
      assert a + (b + o.value.0) == (a + b) + o.value.0;
    }
  }

  /**
   * `new ConditionParser(condition).Parse()`: the tree, or `Fault` when a number
   * token raises.  Whatever follows the parsed condition is ignored.
   */
  function Parsed(condition: string): Outcome<Expr> {
    match ParsedOr(LexState(condition, None))
    case Fault => Fault
    case Ok(p) => Ok(p.0)
  }

  // ---------------------------------------------------------------------------
  // Parser properties

  /** A character that starts a bare word (a key, or a word literal). */
  predicate KeyStart(a: char) {
    !IsOperatorChar(a) && !IsWhiteSpace(a) && !IsDigit(a) && a != '-' && a != '"'
  }

  /** A one-letter key ends at an operator or at the end of the text. */
  lemma BareKey(a: char, t: string)
    requires KeyStart(a)
    requires t == [] || IsOperatorChar(t[0])
    ensures Lex([a] + t) == Ok((TSymbol([a]), t))
  {
    var s := [a] + t;
    LexHere(s);
    assert s[1..] == t;
    assert SkipSpaces(t) == t;
    WordStops(t);
    assert [a] + [] == [a];
    assert Word(s) == ([a], t);
  }

  lemma ValueKey(a: char, t: string)
    requires KeyStart(a)
    requires t == [] || IsOperatorChar(t[0])
    ensures ParsedValue(LexState([a] + t, None)) == Ok((Symbol([a]), LexState(t, None)))
  {
    BareKey(a, t);
  }

  lemma EndOfText()
    ensures Peek(LexState([], None)) == Ok((TEof, LexState([], None)))
    ensures AndTail(LexState([], None)) == Ok(([], LexState([], None)))
    ensures OrTail(LexState([], None)) == Ok(([], LexState([], None)))
  {
    assert Lex([]) == Ok((TEof, []));
  }

  /** A key followed by `&&` or `||`: the condition is the key, and the operator is kept. */
  lemma KeyBeforeJoin(a: char, c: char, t: string)
    requires KeyStart(a) && (c == '&' || c == '|')
    ensures ParsedCondition(LexState([a, c, c] + t, None))
         == Ok((Symbol([a]), LexState(t, Some(OperatorToken(c, true)))))
  {
    var ct := [c, c] + t;
    assert [a, c, c] + t == [a] + ct;
    ValueKey(a, ct);
    LexOperators(c, t);
    assert [c, Follow(c)] + t == ct;
  }

  /** A key at the end of the text. */
  lemma KeyAtEnd(a: char)
    requires KeyStart(a)
    ensures ParsedCondition(LexState([a], None)) == Ok((Symbol([a]), LexState([], None)))
  {
    ValueKey(a, []);
    assert [a] + [] == [a];
    EndOfText();
  }

  /** `!` followed by a key: the negated key. */
  lemma NotKey(a: char, t: string)
    requires KeyStart(a)
    requires t == [] || IsOperatorChar(t[0])
    ensures ParsedValue(LexState(['!', a] + t, None)) == Ok((Not(Symbol([a])), LexState(t, None)))
  {
    assert ['!', a] + t == ['!'] + ([a] + t);
    LexOperators('!', [a] + t);
    ValueKey(a, t);
  }

  /** `==` followed by a key at the end of the text. */
  lemma EqualsKey(b: char)
    requires KeyStart(b)
    ensures ParsedComparable(LexState(['=', '=', b], None)) == Ok((Some(TEqual), LexState([b], None)))
    ensures ParsedValue(LexState([b], None)) == Ok((Symbol([b]), LexState([], None)))
  {
    assert ['=', '=', b] == ['=', Follow('=')] + [b];
    LexOperators('=', [b]);
    KeyAtEnd(b);
  }

  /**
   * `!` binds tighter than a comparison: `!a==b` compares the negation of `a`
   * with `b`.
   */
  lemma NotBindsTighter(a: char, b: char)
    requires KeyStart(a) && KeyStart(b)
    ensures Parsed(['!', a, '=', '=', b]) == Ok(Compare(TEqual, Not(Symbol([a])), Symbol([b])))
  {
    var s := ['!', a, '=', '=', b];
    assert s == ['!', a] + ['=', '=', b];
    NotKey(a, ['=', '=', b]);
    EqualsKey(b);
    var st := LexState(s, None);
    var e := Compare(TEqual, Not(Symbol([a])), Symbol([b]));
    assert ParsedCondition(st) == Ok((e, LexState([], None)));
    EndOfText();
    assert ParsedAnd(st) == Ok((e, LexState([], None)));
  }

  /** `b&&c` at the end of the text. */
  lemma AndGroup(b: char, c: char)
    requires KeyStart(b) && KeyStart(c)
    ensures ParsedAnd(LexState([b, '&', '&', c], None))
         == Ok((And(Symbol([b]), [Symbol([c])]), LexState([], None)))
  {
    KeyBeforeJoin(b, '&', [c]);
    assert [b, '&', '&'] + [c] == [b, '&', '&', c];
    KeyAtEnd(c);
    EndOfText();
    var s2 := LexState([c], Some(TAnd));
    assert Peek(s2) == Ok((TAnd, s2));
    assert Drop(s2) == LexState([c], None);
    assert [Symbol([c])] + [] == [Symbol([c])];
    assert AndTail(s2) == Ok(([Symbol([c])], LexState([], None)));
  }

  /** `&&` binds tighter than `||`: `a||b&&c` is `a || (b && c)`. */
  lemma AndBindsTighter(a: char, b: char, c: char)
    requires KeyStart(a) && KeyStart(b) && KeyStart(c)
    ensures Parsed([a, '|', '|', b, '&', '&', c]) == Ok(Or(Symbol([a]), [And(Symbol([b]), [Symbol([c])])]))
  {
    var s := [a, '|', '|', b, '&', '&', c];
    var t1 := [b, '&', '&', c];
    assert s == [a, '|', '|'] + t1;
    var st := LexState(s, None);
    var s1 := LexState(t1, Some(TOr));
    KeyBeforeJoin(a, '|', t1);
    assert AndTail(s1) == Ok(([], s1));
    assert ParsedAnd(st) == Ok((Symbol([a]), s1));
    AndGroup(b, c);
    EndOfText();
    var group := And(Symbol([b]), [Symbol([c])]);
    assert Peek(s1) == Ok((TOr, s1));
    assert Drop(s1) == LexState(t1, None);
    assert [group] + [] == [group];
    assert OrTail(s1) == Ok(([And(Symbol([b]), [Symbol([c])])], LexState([], None)));
  }

  // ---------------------------------------------------------------------------
  // Evaluation

  /** A call evaluation makes into `DataBinding`, in the order it makes them. */
  datatype Event = Registered(key: string) | Read(key: string)

  /**
   * What evaluation reads: `lookup(key)` is what `DataBinding.GetValue(key,
   * gameObject)` returns against the current store (`Fault` when the walk
   * raises), and `heap` holds the containers values point to.
   */
  datatype Env = Env(heap: Heap, lookup: string -> Outcome<Value>)

  function ExprSize(e: Expr): (n: nat)
    ensures n >= 1
  {
    match e
    case Const(_) => 1
    case Symbol(_) => 1
    case Not(x) => 1 + ExprSize(x)
    case Compare(_, l, r) => 1 + ExprSize(l) + ExprSize(r)
    case And(f, rest) => 1 + ExprSize(f) + ListSize(rest)
    case Or(f, rest) => 1 + ExprSize(f) + ListSize(rest)
  }

  function ListSize(es: seq<Expr>): nat {
    if es == [] then 0 else ExprSize(es[0]) + ListSize(es[1..])
  }

  /** The sign of a comparison read through the operator, as the `switch` in `ParseCondition` does. */
  function Ordered(op: Token, c: int): bool {
    match op
    case TEqual => c == 0
    case TNotEqual => c != 0
    case TLess => c < 0
    case TLessEqual => c <= 0
    case TGreater => c > 0
    case TGreaterEqual => c >= 0
    case _ => false
  }

  /**
   * Two operands of one type (or one of them null): `IComparable` values by
   * `CompareTo`; anything else only by `==`/`!=`, which on `object` compare
   * references (for the values that get here, null and containers, that is
   * equality of `Value`).
   */
  function Relates(heap: Heap, op: Token, left: Value, right: Value): bool
    requires left == Null || right == Null || KindOf(heap, left) == KindOf(heap, right)
  {
    if Comparable(left) then Ordered(op, CompareTo(left, right))
    else if op.TEqual? then left == right
    else if op.TNotEqual? then left != right
    else false
  }

  /**
   * The closure of a comparison, on the two values: when both are non-null and of
   * different types, the right one is first converted to the left one's type,
   * and a conversion that raises makes the comparison false, whatever the operator.
   */
  function Compared(heap: Heap, op: Token, left: Value, right: Value): bool {
    if left != Null && right != Null && KindOf(heap, left) != KindOf(heap, right) then
      match ChangeType(heap, right, KindOf(heap, left))
      case Converted(w) => Relates(heap, op, left, w)
      case _ => false
    else Relates(heap, op, left, right)
  }

  /** `DataBinding.GetValue<bool>(key, gameObject)` over the same store as `lookup`. */
  function BoolAt(env: Env, key: string): (r: Outcome<bool>) {
    match env.lookup(key)
    case Fault => Fault
    case Ok(v) =>
      match Bindings.ConvertOrDefault(env.heap, if v == Null then Str(key) else v, KBool)
      case Fault => Fault
      case Ok(w) => if w.Bool? then Ok(w.b) else Fault
  }

  /**
   * Calling the closure a tree stands for: the literal or key token it returns
   * and the calls it made.  `Fault` is an exception escaping the closure.
   */
  function Run(e: Expr, env: Env): (r: Outcome<(Token, seq<Event>)>)
    ensures r.Ok? ==> r.value.0.TObject? || r.value.0.TSymbol?
    decreases ExprSize(e), 0
  {
    match e
    case Const(v) => Ok((TObject(v), []))
    case Symbol(n) => Ok((TSymbol(n), []))
    case Not(x) =>
      (match EvalBoolean(x, env)
       case Fault => Fault
       case Ok(b) => Ok((TObject(Bool(!b.0)), b.1)))
    case Compare(op, l, rt) =>
      (match EvalValue(l, env)
       case Fault => Fault
       case Ok(a) =>
         match EvalValue(rt, env)
         case Fault => Fault
         case Ok(c) => Ok((TObject(Bool(Compared(env.heap, op, a.0, c.0))), a.1 + c.1)))
    case And(f, rest) =>
      assert ([f] + rest)[1..] == rest;
      (match AndAll([f] + rest, env)
       case Fault => Fault
       case Ok(b) => Ok((TObject(Bool(b.0)), b.1)))
    case Or(f, rest) =>
      assert ([f] + rest)[1..] == rest;
      (match OrAll([f] + rest, env)
       case Fault => Fault
       case Ok(b) => Ok((TObject(Bool(b.0)), b.1)))
  }

  /**
   * `EvalBooleanValue`: a literal must be a boxed `bool` (a null or any other
   * value makes the cast raise); a key is registered, then read as a `bool`.
   */
  function EvalBoolean(e: Expr, env: Env): (r: Outcome<(bool, seq<Event>)>)
    decreases ExprSize(e), 1
  {
    match Run(e, env)
    case Fault => Fault
    case Ok(p) =>
      if p.0.TObject? then (if p.0.v.Bool? then Ok((p.0.v.b, p.1)) else Fault)
      else
        match BoolAt(env, p.0.name)
        case Fault => Fault
        case Ok(b) => Ok((b, p.1 + [Registered(p.0.name), Read(p.0.name)]))
  }

  /** `EvalValue`: a literal as it is; a key is registered, then read. */
  function EvalValue(e: Expr, env: Env): (r: Outcome<(Value, seq<Event>)>)
    decreases ExprSize(e), 1
  {
    match Run(e, env)
    case Fault => Fault
    case Ok(p) =>
      if p.0.TObject? then Ok((p.0.v, p.1))
      else
        match env.lookup(p.0.name)
        case Fault => Fault
        case Ok(v) => Ok((v, p.1 + [Registered(p.0.name), Read(p.0.name)]))
  }

  /** The `&&` closure: operands in order, stopping at the first false one. */
  function AndAll(es: seq<Expr>, env: Env): (r: Outcome<(bool, seq<Event>)>)
    decreases ListSize(es), 2
  {
    if es == [] then Ok((true, []))
    else
      match EvalBoolean(es[0], env)
      case Fault => Fault
      case Ok(h) =>
        if !h.0 then Ok((false, h.1))
        else
          match AndAll(es[1..], env)
          case Fault => Fault
          case Ok(t) => Ok((t.0, h.1 + t.1))
  }

  /** The `||` closure: operands in order, stopping at the first true one. */
  function OrAll(es: seq<Expr>, env: Env): (r: Outcome<(bool, seq<Event>)>)
    decreases ListSize(es), 2
  {
    if es == [] then Ok((false, []))
    else
      match EvalBoolean(es[0], env)
      case Fault => Fault
      case Ok(h) =>
        if h.0 then Ok((true, h.1))
        else
          match OrAll(es[1..], env)
          case Fault => Fault
          case Ok(t) => Ok((t.0, h.1 + t.1))
  }

  // ---------------------------------------------------------------------------
  // What evaluation guarantees

  predicate Holds(e: Expr, env: Env) {
    EvalBoolean(e, env).Ok? && EvalBoolean(e, env).value.0
  }

  predicate Fails(e: Expr, env: Env) {
    EvalBoolean(e, env).Ok? && !EvalBoolean(e, env).value.0
  }

  /** The `&&` loop yields true exactly when every operand evaluates to true. */
  lemma {:induction false} AndAllTrue(es: seq<Expr>, env: Env)
    ensures (AndAll(es, env).Ok? && AndAll(es, env).value.0) <==> forall i :: 0 <= i < |es| ==> Holds(es[i], env)
  {
    if es != [] {
      AndAllTrue(es[1..], env);
      assert forall i :: 1 <= i < |es| ==> es[1..][i - 1] == es[i];
    }
  }

  /** The `||` loop yields false exactly when every operand evaluates to false. */
  lemma {:induction false} OrAllFalse(es: seq<Expr>, env: Env)
    ensures (OrAll(es, env).Ok? && !OrAll(es, env).value.0) <==> forall i :: 0 <= i < |es| ==> Fails(es[i], env)
  {
    if es != [] {
      OrAllFalse(es[1..], env);
      assert forall i :: 1 <= i < |es| ==> es[1..][i - 1] == es[i];
    }
  }

  /** A condition of `&&`s holds exactly when each of its operands does. */
  lemma AndHolds(first: Expr, rest: seq<Expr>, env: Env)
    ensures Holds(And(first, rest), env) <==> Holds(first, env) && forall i :: 0 <= i < |rest| ==> Holds(rest[i], env)
  {
    var es := [first] + rest;
    AndAllTrue(es, env);
    assert es[1..] == rest;
    assert EvalBoolean(And(first, rest), env) == AndAll(es, env);
    assert es[0] == first;
    assert forall i :: 0 <= i < |rest| ==> es[i + 1] == rest[i];
  }

  /** A condition of `||`s fails exactly when each of its operands does. */
  lemma OrFails(first: Expr, rest: seq<Expr>, env: Env)
    ensures Fails(Or(first, rest), env) <==> Fails(first, env) && forall i :: 0 <= i < |rest| ==> Fails(rest[i], env)
  {
    var es := [first] + rest;
    OrAllFalse(es, env);
    assert es[1..] == rest;
    assert EvalBoolean(Or(first, rest), env) == OrAll(es, env);
    assert es[0] == first;
    assert forall i :: 0 <= i < |rest| ==> es[i + 1] == rest[i];
  }

  /**
   * Short-circuit: once an operand of `&&` is false the ones after it are never
   * evaluated, so neither their values, nor the keys they would register, nor
   * the exceptions they would raise change anything.
   */
  lemma {:induction false} AndStops(es: seq<Expr>, tail: seq<Expr>, env: Env)
    requires AndAll(es, env).Ok? && !AndAll(es, env).value.0
    ensures AndAll(es + tail, env) == AndAll(es, env)
  {
    assert (es + tail)[0] == es[0];
    assert (es + tail)[1..] == es[1..] + tail;
    if EvalBoolean(es[0], env).value.0 {
      AndStops(es[1..], tail, env);
    }
  }

  /** Short-circuit of `||`: nothing after the first true operand is evaluated. */
  lemma {:induction false} OrStops(es: seq<Expr>, tail: seq<Expr>, env: Env)
    requires OrAll(es, env).Ok? && OrAll(es, env).value.0
    ensures OrAll(es + tail, env) == OrAll(es, env)
  {
    assert (es + tail)[0] == es[0];
    assert (es + tail)[1..] == es[1..] + tail;
    if !EvalBoolean(es[0], env).value.0 {
      OrStops(es[1..], tail, env);
    }
  }

  /** Every read of a key comes right after the registration of that key. */
  predicate RegisteredFirst(tr: seq<Event>) {
    forall i :: 0 <= i < |tr| && tr[i].Read? ==> 0 < i && tr[i - 1] == Registered(tr[i].key)
  }

  lemma RegisteredFirstJoin(a: seq<Event>, b: seq<Event>)
    requires RegisteredFirst(a) && RegisteredFirst(b)
    ensures RegisteredFirst(a + b)
  {
    forall i | 0 <= i < |a + b| && (a + b)[i].Read?
      ensures 0 < i && (a + b)[i - 1] == Registered((a + b)[i].key)
    {
      if i >= |a| {
        assert (a + b)[i] == b[i - |a|];
        assert (a + b)[i - 1] == b[i - |a| - 1];
      }
    }
  }

  lemma RegisteredFirstRead(a: seq<Event>, key: string)
    requires RegisteredFirst(a)
    ensures RegisteredFirst(a + [Registered(key), Read(key)])
  {
    RegisteredFirstJoin(a, [Registered(key), Read(key)]);
  }

  /**
   * Evaluation registers a key with the binder immediately before each read of it
   * (`DataBinding.Register` then `DataBinding.GetValue`), so the binder hears of
   * every key its condition depends on.
   */
  lemma {:induction false} RegistersBeforeReading(e: Expr, env: Env)
    ensures Run(e, env).Ok? ==> RegisteredFirst(Run(e, env).value.1)
    ensures EvalBoolean(e, env).Ok? ==> RegisteredFirst(EvalBoolean(e, env).value.1)
    ensures EvalValue(e, env).Ok? ==> RegisteredFirst(EvalValue(e, env).value.1)
    decreases ExprSize(e), 1
  {
    match e
    case Const(_) =>
    case Symbol(n) =>
      RegisteredFirstRead([], n);
    case Not(x) =>
      RegistersBeforeReading(x, env);
    case Compare(_, l, rt) =>
      RegistersBeforeReading(l, env);
      RegistersBeforeReading(rt, env);
      if EvalValue(l, env).Ok? && EvalValue(rt, env).Ok? {
        RegisteredFirstJoin(EvalValue(l, env).value.1, EvalValue(rt, env).value.1);
      }
    case And(f, rest) =>
      assert ([f] + rest)[1..] == rest;
      AllRegisterBeforeReading([f] + rest, env);
    case Or(f, rest) =>
      assert ([f] + rest)[1..] == rest;
      AllRegisterBeforeReading([f] + rest, env);
  }

  lemma {:induction false} AllRegisterBeforeReading(es: seq<Expr>, env: Env)
    ensures AndAll(es, env).Ok? ==> RegisteredFirst(AndAll(es, env).value.1)
    ensures OrAll(es, env).Ok? ==> RegisteredFirst(OrAll(es, env).value.1)
    decreases ListSize(es), 2
  {
    if es != [] {
      RegistersBeforeReading(es[0], env);
      AllRegisterBeforeReading(es[1..], env);
      if EvalBoolean(es[0], env).Ok? && AndAll(es[1..], env).Ok? {
        RegisteredFirstJoin(EvalBoolean(es[0], env).value.1, AndAll(es[1..], env).value.1);
      }
      if EvalBoolean(es[0], env).Ok? && OrAll(es[1..], env).Ok? {
        RegisteredFirstJoin(EvalBoolean(es[0], env).value.1, OrAll(es[1..], env).value.1);
      }
    }
  }

  /** Swapping two operands of one scalar type mirrors the ordering operators. */
  lemma SwappedOperands(heap: Heap, a: Value, b: Value)
    requires Comparable(a) && SameScalarKind(a, b)
    ensures Compared(heap, TLess, a, b) <==> Compared(heap, TGreater, b, a)
    ensures Compared(heap, TLessEqual, a, b) <==> Compared(heap, TGreaterEqual, b, a)
    ensures Compared(heap, TEqual, a, b) <==> Compared(heap, TEqual, b, a)
  {
    CompareToAntisymmetric(a, b);
  }

  /** An `int` equals its own decimal text, whichever side of `==` the text is on. */
  lemma NumberEqualsItsText(heap: Heap, n: int)
    requires InInt32(n)
    ensures Compared(heap, TEqual, Int(n), Str(IntToString(n)))
    ensures Compared(heap, TEqual, Str(IntToString(n)), Int(n))
  {
    IntStringRoundTrip(heap, n);
  }

  /**
   * Equality is not symmetric across numeric types, because the right operand is
   * converted to the left one's type: `1 == 1.4` rounds 1.4 to the `int` 1 and
   * holds, while `1.4 == 1` compares 1.4 with the `double` 1 and does not.
   */
  lemma EqualityNotSymmetric(heap: Heap, one: Value, onePointFour: Value)
    requires one == Int(1) && onePointFour == Double(14, 1)
    ensures Compared(heap, TEqual, one, onePointFour)
    ensures !Compared(heap, TEqual, onePointFour, one)
  {
    assert RoundHalfEven(14, 1) == 1 by {
      assert Pow10(1) == 10;
    }
  }

  /**
   * When the right operand cannot be converted to the left one's type the
   * comparison is false for every operator: such operands are neither equal
   * nor unequal.
   */
  lemma MismatchNeitherEqualNorUnequal(heap: Heap, n: int, s: string)
    requires ParseInteger(s).None?
    ensures !Compared(heap, TEqual, Int(n), Str(s))
    ensures !Compared(heap, TNotEqual, Int(n), Str(s))
  {
    IntFromText(heap, s);
  }

  // ---------------------------------------------------------------------------
  // The lexer as the source runs it: a reader cursor and a lookahead field

  lemma {:induction false} NumberRunIs(s: string, k: nat)
    requires k <= |s| && forall i :: 0 <= i < k ==> IsNumberChar(s[i]) || s[i] == '.'
    requires k == |s| || !(IsNumberChar(s[k]) || s[k] == '.')
    ensures NumberRun(s) == k
  {
    if k > 0 {
      NumberRunIs(s[1..], k - 1);
    }
  }

  /** `LexNumber` reads up to the first character that is neither a digit nor a dot. */
  lemma LexNumberEnds(s: string, k: nat)
    requires 1 <= k <= |s| && forall i :: 1 <= i < k ==> IsNumberChar(s[i]) || s[i] == '.'
    requires k == |s| || !(IsNumberChar(s[k]) || s[k] == '.')
    ensures LexNumber(s) ==
      match NumberValue(s[..k])
      case Fault => Fault
      case Ok(v) => Ok((TObject(v), s[k..]))
  {
    NumberRunIs(s[1..], k - 1);
  }

  lemma {:induction false} QuoteIndexIs(s: string, k: nat)
    requires k <= |s| && '"' !in s[..k]
    requires k == |s| || s[k] == '"'
    ensures QuoteIndex(s) == k
  {
    if k > 0 {
      assert s[0] == s[..k][0];
      assert s[1..][..k - 1] == s[1..k];
      QuoteIndexIs(s[1..], k - 1);
    }
  }

  /**
   * `ConditionParser`'s lexer: the `StringReader` over the condition text (its
   * position `pos`) and the lookahead field `lex_value`.
   */
  class ConditionParser {
    const text: string
    var pos: nat
    var lexValue: Option<Token>

    ghost predicate Valid()
      reads this
    {
      pos <= |text|
    }

    /** The lexer's state as the functions above see it. */
    ghost function State(): LexState
      reads this
      requires Valid()
    {
      LexState(text[pos..], lexValue)
    }

    /** `new ConditionParser(condition)`: the reader at the start, nothing kept. */
    constructor (condition: string)
      ensures Valid() && text == condition && pos == 0 && lexValue.None?
    {
      text := condition;
      pos := 0;
      lexValue := None;
    }

    /** `Peek()`: the next character, or none at the end. */
    method PeekChar() returns (c: Option<char>)
      requires Valid()
      ensures c == if pos < |text| then Some(text[pos]) else None
    {
      if pos < |text| {
        c := Some(text[pos]);
      } else {
        c := None;
      }
    }

    /** `Read()`: consume the next character, if any. */
    method Read()
      requires Valid()
      modifies this`pos
      ensures Valid() && pos == if old(pos) < |text| then old(pos) + 1 else old(pos)
    {
      if pos < |text| {
        pos := pos + 1;
      }
    }

    /** `Read(ch)`: consume the next character only when it is `ch`. */
    method ReadIf(ch: char) returns (r: bool)
      requires Valid()
      modifies this`pos
      ensures Valid()
      ensures r <==> old(pos) < |text| && text[old(pos)] == ch
      ensures pos == if r then old(pos) + 1 else old(pos)
    {
      r := pos < |text| && text[pos] == ch;
      if r {
        pos := pos + 1;
      }
    }

    /** `SkipSpace()`: consume white space. */
    method SkipSpace()
      requires Valid()
      modifies this`pos
      ensures Valid() && old(pos) <= pos && text[pos..] == SkipSpaces(old(text[pos..]))
    {
      while pos < |text| && IsWhiteSpace(text[pos])
        invariant old(pos) <= pos <= |text|
        invariant SkipSpaces(text[pos..]) == SkipSpaces(old(text[pos..]))
        decreases |text| - pos
      {
        assert text[pos..][1..] == text[pos + 1..];
        pos := pos + 1;
      }
    }

    /** The operator cases of `PeekToken`: consume one or two characters, keep the token. */
    method ReadOperator() returns (t: Token)
      requires Valid() && pos < |text| && IsOperatorChar(text[pos])
      modifies this`pos, this`lexValue
      ensures Valid()
      ensures (t, text[pos..]) == LexOperator(old(text[pos..]))
      ensures lexValue == if Kept(t) then Some(t) else old(lexValue)
    {
      ghost var s := text[pos..];
      var c := text[pos];
      Read();
      var paired := false;
      if c != '(' && c != ')' {
        paired := ReadIf(Follow(c));
      }
      assert paired <==> c != '(' && c != ')' && |s| >= 2 && s[1] == Follow(c);
      assert text[pos..] == if paired then s[2..] else s[1..];
      t := OperatorToken(c, paired);
      if Kept(t) {
        lexValue := Some(t);
      }
    }

    /** A number token: the first character, then digits and dots, read by `int.Parse` or `double.Parse`. */
    method ReadNumber() returns (r: Outcome<Token>)
      requires Valid() && pos < |text|
      modifies this`pos
      ensures Valid()
      ensures r.Fault? <==> LexNumber(old(text[pos..])).Fault?
      ensures r.Ok? ==> (r.value, text[pos..]) == LexNumber(old(text[pos..])).value
    {
      ghost var s := text[pos..];
      var start := pos;
      Read();
      while pos < |text| && (IsNumberChar(text[pos]) || text[pos] == '.')
        invariant start + 1 <= pos <= |text|
        invariant forall i :: start + 1 <= i < pos ==> IsNumberChar(text[i]) || text[i] == '.'
        decreases |text| - pos
      {
        Read();
      }
      var word := text[start..pos];
      assert word == s[..pos - start];
      assert text[pos..] == s[pos - start..];
      LexNumberEnds(s, pos - start);
      var v := NumberValue(word);
      if v.Fault? {
        return Fault;
      }
      r := Ok(TObject(v.value));
    }

    /** A string token: everything up to the next quote, which is consumed when there is one. */
    method ReadString() returns (t: Token)
      requires Valid() && pos < |text|
      modifies this`pos
      ensures Valid()
      ensures (t, text[pos..]) == LexString(old(text[pos..]))
    {
      ghost var s := text[pos..];
      Read();
      var start := pos;
      while pos < |text| && text[pos] != '"'
        invariant start <= pos <= |text|
        invariant '"' !in text[start..pos]
        decreases |text| - pos
      {
        assert text[start..pos + 1] == text[start..pos] + [text[pos]];
        Read();
      }
      var body := text[start..pos];
      ghost var q := s[1..];
      assert q == text[start..];
      assert q[..pos - start] == body;
      QuoteIndexIs(q, pos - start);
      ghost var k := pos - start;
      assert q[k..] == text[pos..];
      if pos < |text| {
        assert q[k + 1..] == text[pos + 1..];
      }
      Read();
      t := TObject(Str(body));
    }

    /** A bare word: characters up to an operator or white space, skipping the white space after each. */
    method ReadWord() returns (t: Token)
      requires Valid()
      modifies this`pos
      ensures Valid()
      ensures t == WordToken(Word(old(text[pos..])).0) && text[pos..] == Word(old(text[pos..])).1
    {
      ghost var s := text[pos..];
      var word := "";
      assert word + Word(s).0 == Word(s).0;
      while pos < |text| && !IsOperatorChar(text[pos]) && !IsWhiteSpace(text[pos])
        invariant pos <= |text|
        invariant Word(s) == (word + Word(text[pos..]).0, Word(text[pos..]).1)
        decreases |text| - pos
      {
        ghost var here := text[pos..];
        var c := text[pos];
        ghost var before := word;
        Read();
        word := word + [c];
        assert here[1..] == text[pos..];
        SkipSpace();
        assert Word(here) == ([c] + Word(text[pos..]).0, Word(text[pos..]).1);
        assert before + ([c] + Word(text[pos..]).0) == word + Word(text[pos..]).0;
      }
      assert Word(text[pos..]) == ([], text[pos..]);
      assert word + [] == word;
      t := WordToken(word);
    }

    /**
     * `PeekToken()`: the kept token if there is one; otherwise skip white space
     * and lex the next token, keeping it when it is an operator or parenthesis.
     */
    method PeekToken() returns (r: Outcome<Token>)
      requires Valid()
      modifies this`pos, this`lexValue
      ensures Valid()
      ensures r.Fault? <==> Peek(old(State())).Fault?
      ensures r.Ok? ==> (r.value, State()) == Peek(old(State())).value
    {
      if lexValue.Some? {
        return Ok(lexValue.value);
      }
      SkipSpace();
      ghost var s := text[pos..];
      var lex := PeekChar();
      if lex.None? {
        return Ok(TEof);
      }
      var c := lex.value;
      if IsOperatorChar(c) {
        var t := ReadOperator();
        r := Ok(t);
      } else if IsNumberChar(c) || c == '-' {
        r := ReadNumber();
      } else if c == '"' {
        var t := ReadString();
        r := Ok(t);
      } else {
        var t := ReadWord();
        r := Ok(t);
      }
      assert Lex(old(text[pos..])) == LexAt(s);
    }

    /** `ParseToken()`: peek, then forget the kept token. */
    method ParseToken() returns (r: Outcome<Token>)
      requires Valid()
      modifies this`pos, this`lexValue
      ensures Valid() && lexValue.None?
      ensures r.Fault? <==> Peek(old(State())).Fault?
      ensures r.Ok? ==> r.value == Peek(old(State())).value.0 && text[pos..] == Peek(old(State())).value.1.rest
    {
      r := PeekToken();
      lexValue := None;
    }

    /** `ParseValue`, proved to do what `ParsedValue` says. */
    method ParseValue() returns (r: Outcome<Expr>)
      requires Valid()
      modifies this`pos, this`lexValue
      ensures Valid()
      ensures r.Fault? <==> ParsedValue(old(State())).Fault?
      ensures r.Ok? ==> (r.value, State()) == ParsedValue(old(State())).value
      decreases Size(State()), 0
    {
      var token := PeekToken();
      if token.Fault? {
        return Fault;
      }
      ghost var st1 := State();
      if token.value.TNot? {
        var dropped := ParseToken();
        var result := ParseValue();
        if result.Fault? {
          return Fault;
        }
        r := Ok(Not(result.value));
      } else if token.value.TLeftParen? {
        var dropped := ParseToken();
        r := ParseOr();
        if r.Fault? {
          return Fault;
        }
        var token2 := PeekToken();
        if token2.Fault? {
          return Fault;
        }
        if token2.value.TRightParen? {
          dropped := ParseToken();
        }
      } else if token.value.TObject? {
        r := Ok(Const(token.value.v));
      } else if token.value.TSymbol? {
        r := Ok(Symbol(token.value.name));
      } else {
        r := Ok(Const(Null));
      }
    }

    /** `ParseComparableToken`. */
    method ParseComparableToken() returns (r: Outcome<Option<Token>>)
      requires Valid()
      modifies this`pos, this`lexValue
      ensures Valid()
      ensures r.Fault? <==> ParsedComparable(old(State())).Fault?
      ensures r.Ok? ==> (r.value, State()) == ParsedComparable(old(State())).value
    {
      var token := PeekToken();
      if token.Fault? {
        return Fault;
      }
      if IsComparison(token.value) {
        var dropped := ParseToken();
        return Ok(Some(token.value));
      }
      return Ok(None);
    }

    /** `ParseCondition`. */
    method ParseCondition() returns (r: Outcome<Expr>)
      requires Valid()
      modifies this`pos, this`lexValue
      ensures Valid()
      ensures r.Fault? <==> ParsedCondition(old(State())).Fault?
      ensures r.Ok? ==> (r.value, State()) == ParsedCondition(old(State())).value
      decreases Size(State()), 1
    {
      var left := ParseValue();
      if left.Fault? {
        return Fault;
      }
      var token := ParseComparableToken();
      if token.Fault? {
        return Fault;
      }
      if token.value.None? {
        return left;
      }
      var right := ParseValue();
      if right.Fault? {
        return Fault;
      }
      r := Ok(Compare(token.value.value, left.value, right.value));
    }

    /** `ParseAnd`: the `while` loop collects the conditions after each `&&`. */
    method ParseAnd() returns (r: Outcome<Expr>)
      requires Valid()
      modifies this`pos, this`lexValue
      ensures Valid()
      ensures r.Fault? <==> ParsedAnd(old(State())).Fault?
      ensures r.Ok? ==> (r.value, State()) == ParsedAnd(old(State())).value
      decreases Size(State()), 3
    {
      ghost var st0 := State();
      var top := ParseCondition();
      if top.Fault? {
        return Fault;
      }
      ghost var st1 := State();
      var list: seq<Expr> := [];
      ghost var before := State();
      PrependedNothing(AndTail(before));
      var token := PeekToken();
      while token.Ok? && token.value.TAnd?
        invariant Valid() && Size(before) <= Size(st1) <= Size(st0)
        invariant token.Fault? <==> Peek(before).Fault?
        invariant token.Ok? ==> (token.value, State()) == Peek(before).value
        invariant AndTail(st1) == Prepended(list, AndTail(before))
        decreases Size(State())
      {
        ghost var size := Size(State());
        var dropped := ParseToken();
        assert Size(State()) < size;
        var e := ParseCondition();
        if e.Fault? {
          return Fault;
        }
        assert Size(State()) < size;
        assert AndTail(before) == Prepended([e.value], AndTail(State()));
        PrependedTwice(list, [e.value], AndTail(State()));
        list := list + [e.value];
        before := State();
        token := PeekToken();
        if token.Fault? {
          return Fault;
        }
      }
      if token.Fault? {
        return Fault;
      }
      assert AndTail(before) == Ok(([], State()));
      assert list + [] == list;
      assert AndTail(st1) == Ok((list, State()));
      r := Ok(if list == [] then top.value else And(top.value, list));
      assert ParsedAnd(st0) == Ok((r.value, State()));
    }

    /** `ParseOr` (and `ParseTop`): the `while` loop collects the groups after each `||`. */
    method ParseOr() returns (r: Outcome<Expr>)
      requires Valid()
      modifies this`pos, this`lexValue
      ensures Valid()
      ensures r.Fault? <==> ParsedOr(old(State())).Fault?
      ensures r.Ok? ==> (r.value, State()) == ParsedOr(old(State())).value
      decreases Size(State()), 5
    {
      ghost var st0 := State();
      var top := ParseAnd();
      if top.Fault? {
        return Fault;
      }
      ghost var st1 := State();
      var list: seq<Expr> := [];
      ghost var before := State();
      PrependedNothing(OrTail(before));
      var token := PeekToken();
      while token.Ok? && token.value.TOr?
        invariant Valid() && Size(before) <= Size(st1) <= Size(st0)
        invariant token.Fault? <==> Peek(before).Fault?
        invariant token.Ok? ==> (token.value, State()) == Peek(before).value
        invariant OrTail(st1) == Prepended(list, OrTail(before))
        decreases Size(State())
      {
        ghost var size := Size(State());
        var dropped := ParseToken();
        assert Size(State()) < size;
        var e := ParseAnd();
        if e.Fault? {
          return Fault;
        }
        assert Size(State()) < size;
        assert OrTail(before) == Prepended([e.value], OrTail(State()));
        PrependedTwice(list, [e.value], OrTail(State()));
        list := list + [e.value];
        before := State();
        token := PeekToken();
        if token.Fault? {
          return Fault;
        }
      }
      if token.Fault? {
        return Fault;
      }
      assert OrTail(before) == Ok(([], State()));
      assert list + [] == list;
      assert OrTail(st1) == Ok((list, State()));
      r := Ok(if list == [] then top.value else Or(top.value, list));
      assert ParsedOr(st0) == Ok((r.value, State()));
    }

    /** `Parse()` on a fresh parser: the tree of the whole text. */
    method Parse() returns (r: Outcome<Expr>)
      requires Valid() && pos == 0 && lexValue.None?
      modifies this`pos, this`lexValue
      ensures r == Parsed(text)
    {
      assert State() == LexState(text, None);
      r := ParseOr();
    }
  }

  // ---------------------------------------------------------------------------
  // ConditionBinding.Parse

  /** A call's events, after the registration of the whole condition text when there is a binder. */
  function AfterRegistering(condition: string, hasBinder: bool, o: Outcome<(bool, seq<Event>)>)
    : Outcome<(bool, seq<Event>)>
  {
    match o
    case Fault => Fault
    case Ok(p) => Ok((p.0, (if hasBinder then [Registered(condition)] else []) + p.1))
  }

  /**
   * What one call of `ConditionBinding.Parse(condition, dataBinder)` returns,
   * with nothing cached: the condition parsed afresh and evaluated as a `bool`.
   */
  function Evaluate(condition: string, hasBinder: bool, env: Env): Outcome<(bool, seq<Event>)> {
    match Parsed(condition)
    case Fault => Fault
    case Ok(e) => AfterRegistering(condition, hasBinder, EvalBoolean(e, env))
  }

  /** `ConditionBinding`: the process-wide cache of parsed conditions. */
  class ConditionBinding {
    /** `cacheParser`: the tree of every condition text parsed so far. */
    var cache: map<string, Expr>

    /** Every cached tree is the one parsing its text gives. */
    ghost predicate Valid()
      reads this
    {
      forall c :: c in cache ==> Parsed(c) == Ok(cache[c])
    }

    constructor ()
      ensures Valid() && cache == map[]
    {
      cache := map[];
    }

    /**
     * `Parse(condition, dataBinder)`: with a binder, the whole condition text is
     * registered first; a cached tree is evaluated as it is, otherwise the text is
     * parsed, cached (before it is evaluated, so an evaluation that raises still
     * leaves it cached) and evaluated.  A parse that raises caches nothing.  The
     * cache never changes the result: it is always what parsing afresh gives.
     */
    method Parse(condition: string, hasBinder: bool, env: Env) returns (r: Outcome<(bool, seq<Event>)>)
      requires Valid()
      modifies this
      ensures Valid()
      ensures r == Evaluate(condition, hasBinder, env)
      ensures cache.Keys == old(cache.Keys) + if Parsed(condition).Ok? then {condition} else {}
      ensures forall c :: c in old(cache) ==> cache[c] == old(cache)[c]
    {
      if condition in cache {
        r := AfterRegistering(condition, hasBinder, EvalBoolean(cache[condition], env));
        return;
      }
      var parser := new ConditionParser(condition);
      var value := parser.Parse();
      if value.Fault? {
        return Fault;
      }
      cache := cache[condition := value.value];
      r := AfterRegistering(condition, hasBinder, EvalBoolean(value.value, env));
    }
  }
}
