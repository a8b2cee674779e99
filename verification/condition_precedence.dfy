/**
 * Operator precedence of the condition language, stated for whole texts.
 *
 * The texts here are the unparenthesised, unspaced fragment of the language:
 * operands are a bare word with any number of `!` in front; a condition is an
 * operand or two operands around one comparison operator; conditions are
 * joined by `&&` into groups and groups by `||`.  `OrText` prints such a
 * structure and `OrExpr` is the tree the precedence rules give it, and
 * `PrecedenceRoundTrip` proves that `Parsed` reads every printed text back as
 * that tree: `!` binds tighter than a comparison, a comparison tighter than
 * `&&`, and `&&` tighter than `||`.
 */
module ConditionPrecedence {
  import opened Wrappers
  import opened Text
  import opened Values
  import opened Conditions

  // ---------------------------------------------------------------------------
  // The fragment and its printer

  /** The six comparison operators. */
  datatype CmpOp = Eq | Ne | Lt | Le | Gt | Ge

  function OpText(op: CmpOp): string {
    match op
    case Eq => "=="
    case Ne => "!="
    case Lt => "<"
    case Le => "<="
    case Gt => ">"
    case Ge => ">="
  }

  function OpToken(op: CmpOp): (r: Token)
    ensures IsComparison(r) && Kept(r)
  {
    match op
    case Eq => TEqual
    case Ne => TNotEqual
    case Lt => TLess
    case Le => TLessEqual
    case Gt => TGreater
    case Ge => TGreaterEqual
  }

  /** `nots` times `!`, then a bare word. */
  datatype Operand = Operand(nots: nat, word: string)

  /** An operand alone, or two operands around a comparison operator. */
  datatype Cond = Single(operand: Operand) | Comparison(op: CmpOp, left: Operand, right: Operand)

  /** A bare word: starts like a key, and holds no operator character and no white space. */
  predicate IsWord(w: string) {
    w != [] && KeyStart(w[0]) && forall i :: 0 <= i < |w| ==> !IsOperatorChar(w[i]) && !IsWhiteSpace(w[i])
  }

  predicate ValidCond(c: Cond) {
    match c
    case Single(o) => IsWord(o.word)
    case Comparison(_, l, r) => IsWord(l.word) && IsWord(r.word)
  }

  /** A non-empty `&&` group of well-formed conditions. */
  predicate ValidGroup(cs: seq<Cond>) {
    cs != [] && forall i :: 0 <= i < |cs| ==> ValidCond(cs[i])
  }

  predicate ValidGroups(gs: seq<seq<Cond>>) {
    forall i :: 0 <= i < |gs| ==> ValidGroup(gs[i])
  }

  function Bangs(n: nat): string {
    if n == 0 then [] else "!" + Bangs(n - 1)
  }

  function OperandText(o: Operand): string {
    Bangs(o.nots) + o.word
  }

  function CondText(c: Cond): string {
    match c
    case Single(o) => OperandText(o)
    case Comparison(op, l, r) => OperandText(l) + OpText(op) + OperandText(r)
  }

  /** `&&c1&&c2...`: the conditions of a group after its first, each behind its `&&`. */
  function AndJoined(cs: seq<Cond>): string {
    if cs == [] then [] else "&&" + CondText(cs[0]) + AndJoined(cs[1..])
  }

  function AndText(cs: seq<Cond>): string
    requires cs != []
  {
    CondText(cs[0]) + AndJoined(cs[1..])
  }

  /** `||g1||g2...`: the groups after the first, each behind its `||`. */
  function OrJoined(gs: seq<seq<Cond>>): string
    requires forall i :: 0 <= i < |gs| ==> gs[i] != []
  {
    if gs == [] then [] else "||" + AndText(gs[0]) + OrJoined(gs[1..])
  }

  function OrText(gs: seq<seq<Cond>>): string
    requires gs != [] && forall i :: 0 <= i < |gs| ==> gs[i] != []
  {
    AndText(gs[0]) + OrJoined(gs[1..])
  }

  // ---------------------------------------------------------------------------
  // The tree the precedence rules give

  /** A bare word as an operand: one of the word literals, else a key. */
  function Atom(w: string): Expr {
    var t := WordToken(w);
    if t.TObject? then Const(t.v) else Symbol(w)
  }

  function Negated(n: nat, e: Expr): Expr {
    if n == 0 then e else Not(Negated(n - 1, e))
  }

  function OperandExpr(o: Operand): Expr {
    Negated(o.nots, Atom(o.word))
  }

  function CondExpr(c: Cond): Expr {
    match c
    case Single(o) => OperandExpr(o)
    case Comparison(op, l, r) => Compare(OpToken(op), OperandExpr(l), OperandExpr(r))
  }

  function CondExprs(cs: seq<Cond>): seq<Expr> {
    if cs == [] then [] else [CondExpr(cs[0])] + CondExprs(cs[1..])
  }

  /** A group of one condition is that condition; a longer one is an `And`. */
  function AndExpr(cs: seq<Cond>): Expr
    requires cs != []
  {
    if |cs| == 1 then CondExpr(cs[0]) else And(CondExpr(cs[0]), CondExprs(cs[1..]))
  }

  function AndExprs(gs: seq<seq<Cond>>): seq<Expr>
    requires forall i :: 0 <= i < |gs| ==> gs[i] != []
  {
    if gs == [] then [] else [AndExpr(gs[0])] + AndExprs(gs[1..])
  }

  function OrExpr(gs: seq<seq<Cond>>): Expr
    requires gs != [] && forall i :: 0 <= i < |gs| ==> gs[i] != []
  {
    if |gs| == 1 then AndExpr(gs[0]) else Or(AndExpr(gs[0]), AndExprs(gs[1..]))
  }

  // ---------------------------------------------------------------------------
  // Lexing the fragment

  lemma SkipNone(s: string)
    requires s == [] || !IsWhiteSpace(s[0])
    ensures SkipSpaces(s) == s
  {
  }

  /** A bare word runs up to the operator character after it. */
  lemma {:induction false} WordOver(w: string, t: string)
    requires forall i :: 0 <= i < |w| ==> !IsOperatorChar(w[i]) && !IsWhiteSpace(w[i])
    requires t == [] || IsOperatorChar(t[0])
    ensures Word(w + t) == (w, t)
    decreases |w|
  {
    if w == [] {
      assert w + t == t;
      WordStops(t);
    } else {
      var s := w + t;
      assert s[0] == w[0] && s[1..] == w[1..] + t;
      SkipNone(w[1..] + t);
      WordOver(w[1..], t);
      assert [w[0]] + w[1..] == w;
    }
  }

  /** A bare word before an operator character or the end is one word token. */
  lemma LexWord(w: string, t: string)
    requires IsWord(w)
    requires t == [] || IsOperatorChar(t[0])
    ensures Lex(w + t) == Ok((WordToken(w), t))
  {
    var s := w + t;
    assert s[0] == w[0];
    LexHere(s);
    WordOver(w, t);
  }

  /** A comparison operator lexes as its token when no `=` follows it. */
  lemma LexOp(op: CmpOp, u: string)
    requires u == [] || u[0] != '='
    ensures Lex(OpText(op) + u) == Ok((OpToken(op), u))
  {
    match op
    case Eq => LexOperators('=', u);
    case Ne => LexOperators('!', u);
    case Lt => LexOperators('<', u);
    case Le => LexOperators('<', u);
    case Gt => LexOperators('>', u);
    case Ge => LexOperators('>', u);
  }

  /** `&&` and `||` lex as one joining token. */
  lemma LexJoin(c: char, u: string)
    requires c == '&' || c == '|'
    ensures Lex([c, c] + u) == Ok((if c == '&' then TAnd else TOr, u))
  {
    LexOperators(c, u);
  }

  lemma OperandStart(o: Operand, t: string)
    requires IsWord(o.word)
    ensures var s := OperandText(o) + t; s != [] && (s[0] == '!' || KeyStart(s[0]))
  {
    if o.nots > 0 {
      assert (OperandText(o) + t)[0] == '!';
    } else {
      assert OperandText(o) + t == o.word + t;
    }
  }

  // ---------------------------------------------------------------------------
  // Parsing the fragment

  /** `ParseValue` reads an operand with its `!`s as that many `Not`s around the word. */
  lemma {:induction false} OperandParses(o: Operand, t: string)
    requires IsWord(o.word)
    requires t == [] || IsOperatorChar(t[0])
    ensures ParsedValue(LexState(OperandText(o) + t, None)) == Ok((OperandExpr(o), LexState(t, None)))
    decreases o.nots
  {
    if o.nots == 0 {
      assert OperandText(o) + t == o.word + t;
      LexWord(o.word, t);
    } else {
      var inner := Operand(o.nots - 1, o.word);
      var rest := OperandText(inner) + t;
      assert OperandText(o) + t == "!" + rest;
      OperandStart(inner, t);
      LexOperators('!', rest);
      assert ['!'] + rest == "!" + rest;
      OperandParses(inner, t);
    }
  }

  /** A text the `&&` and `||` loops can stop or go on at: the end, or a join. */
  predicate Joins(t: string) {
    t == [] || (|t| >= 2 && t[0] == t[1] && (t[0] == '&' || t[0] == '|'))
  }

  /** A text at which the `&&` loop stops: the end, or `||`. */
  predicate OrJoins(t: string) {
    t == [] || (|t| >= 2 && t[0] == '|' && t[1] == '|')
  }

  /** Peeking at a join: the end, or the join token kept in the lookahead; peeking again sees the same. */
  lemma PeekJoin(t: string)
    requires Joins(t)
    ensures Peek(LexState(t, None)).Ok?
    ensures var p := Peek(LexState(t, None)).value;
      Peek(p.1) == Ok(p) && !IsComparison(p.0)
      && (p.0.TAnd? <==> t != [] && t[0] == '&')
      && (p.0.TOr? <==> t != [] && t[0] == '|')
  {
    if t == [] {
      EndOfText();
    } else {
      assert t == [t[0], t[0]] + t[2..];
      LexJoin(t[0], t[2..]);
    }
  }

  /**
   * `ParseCondition` on a printed condition before a join: the condition's tree,
   * in a state that peeks exactly as the join does.
   */
  lemma CondParses(c: Cond, t: string)
    requires ValidCond(c) && Joins(t)
    ensures var r := ParsedCondition(LexState(CondText(c) + t, None));
      r.Ok? && r.value.0 == CondExpr(c) && Peek(r.value.1) == Peek(LexState(t, None))
  {
    PeekJoin(t);
    match c
    case Single(o) =>
      OperandParses(o, t);
    case Comparison(op, l, r) =>
      ComparisonParses(op, l, r, t);
  }

  /** A printed comparison before an operator character or the end: the state after it is that text, unread. */
  lemma ComparisonParses(op: CmpOp, l: Operand, r: Operand, t: string)
    requires IsWord(l.word) && IsWord(r.word)
    requires t == [] || IsOperatorChar(t[0])
    ensures ParsedCondition(LexState(CondText(Comparison(op, l, r)) + t, None))
         == Ok((Compare(OpToken(op), OperandExpr(l), OperandExpr(r)), LexState(t, None)))
  {
    var right := OperandText(r) + t;
    var after := OpText(op) + right;
    assert CondText(Comparison(op, l, r)) + t == OperandText(l) + after;
    assert after[0] == OpText(op)[0];
    OperandParses(l, after);
    OperandStart(r, t);
    LexOp(op, right);
    OperandParses(r, t);
  }

  /**
   * The `&&` loop over `&&c1&&c2...` before `||` or the end: the conditions in
   * order, in a state that peeks as that `||` or end does.
   */
  lemma {:induction false} AndTailParses(st: LexState, cs: seq<Cond>, t: string)
    requires forall i :: 0 <= i < |cs| ==> ValidCond(cs[i])
    requires OrJoins(t)
    requires Peek(st) == Peek(LexState(AndJoined(cs) + t, None))
    ensures var r := AndTail(st);
      r.Ok? && r.value.0 == CondExprs(cs) && Peek(r.value.1) == Peek(LexState(t, None))
    decreases |cs|
  {
    if cs == [] {
      assert AndJoined(cs) + t == t;
      PeekJoin(t);
    } else {
      var next := AndJoined(cs[1..]) + t;
      var body := CondText(cs[0]) + next;
      AndJoinedStep(cs, t);
      PeekJoined('&', body);
      JoinsAfterGroup(cs[1..], t);
      CondParses(cs[0], next);
      var e := ParsedCondition(LexState(body, None)).value;
      AndTailParses(e.1, cs[1..], t);
      var rest := AndTail(e.1).value;
      assert AndTail(st) == Ok(([e.0] + rest.0, rest.1));
    }
  }

  lemma AndJoinedStep(cs: seq<Cond>, t: string)
    requires cs != []
    ensures AndJoined(cs) + t == ['&', '&'] + (CondText(cs[0]) + (AndJoined(cs[1..]) + t))
  {
  }

  /** What follows a condition inside a group: the next `&&`, or the `||` or end after the group. */
  lemma JoinsAfterGroup(cs: seq<Cond>, t: string)
    requires OrJoins(t)
    ensures Joins(AndJoined(cs) + t)
  {
    if cs != [] {
      AndJoinedStep(cs, t);
    }
  }

  /** `ParseAnd` on a printed group before `||` or the end: the group's tree. */
  lemma AndParses(cs: seq<Cond>, t: string)
    requires ValidGroup(cs) && OrJoins(t)
    ensures var r := ParsedAnd(LexState(AndText(cs) + t, None));
      r.Ok? && r.value.0 == AndExpr(cs) && Peek(r.value.1) == Peek(LexState(t, None))
  {
    var next := AndJoined(cs[1..]) + t;
    assert AndText(cs) + t == CondText(cs[0]) + next;
    JoinsAfterGroup(cs[1..], t);
    CondParses(cs[0], next);
    var e := ParsedCondition(LexState(CondText(cs[0]) + next, None)).value;
    AndTailParses(e.1, cs[1..], t);
    if |cs| == 1 {
      assert CondExprs(cs[1..]) == [];
    } else {
      assert CondExprs(cs[1..]) != [];
    }
  }

  /** The `||` loop over `||g1||g2...` at the end of the text: the groups in order. */
  lemma {:induction false} OrTailParses(st: LexState, gs: seq<seq<Cond>>)
    requires ValidGroups(gs)
    requires Peek(st) == Peek(LexState(OrJoined(gs), None))
    ensures OrTail(st).Ok? && OrTail(st).value.0 == AndExprs(gs)
    decreases |gs|
  {
    if gs == [] {
      PeekJoin([]);
    } else {
      var next := OrJoined(gs[1..]);
      var body := AndText(gs[0]) + next;
      OrJoinedStep(gs);
      PeekJoined('|', body);
      assert ValidGroups(gs[1..]);
      OrJoinsAfter(gs[1..]);
      AndParses(gs[0], next);
      var e := ParsedAnd(LexState(body, None)).value;
      OrTailParses(e.1, gs[1..]);
      var rest := OrTail(e.1).value;
      assert OrTail(st) == Ok(([e.0] + rest.0, rest.1));
    }
  }

  lemma OrJoinedStep(gs: seq<seq<Cond>>)
    requires gs != [] && forall i :: 0 <= i < |gs| ==> gs[i] != []
    ensures OrJoined(gs) == ['|', '|'] + (AndText(gs[0]) + OrJoined(gs[1..]))
  {
  }

  /** Before `&&` or `||`, the peek keeps the join token and leaves the text after it unread. */
  lemma PeekJoined(c: char, u: string)
    requires c == '&' || c == '|'
    ensures var tok := if c == '&' then TAnd else TOr;
      Peek(LexState([c, c] + u, None)) == Ok((tok, LexState(u, Some(tok))))
  {
    LexJoin(c, u);
  }

  /** What follows a group: the next `||`, or the end. */
  lemma OrJoinsAfter(gs: seq<seq<Cond>>)
    requires forall i :: 0 <= i < |gs| ==> gs[i] != []
    ensures OrJoins(OrJoined(gs))
  {
    if gs != [] {
      OrJoinedStep(gs);
    }
  }

  /**
   * Printing a precedence tree and parsing the text gives the tree back:
   * `Parsed` groups `&&` before `||`, comparisons before `&&`, and `!` before
   * comparisons, for any bare words.
   */
  lemma PrecedenceRoundTrip(gs: seq<seq<Cond>>)
    requires gs != [] && ValidGroups(gs)
    ensures Parsed(OrText(gs)) == Ok(OrExpr(gs))
  {
    var next := OrJoined(gs[1..]);
    OrJoinsAfter(gs[1..]);
    AndParses(gs[0], next);
    var e := ParsedAnd(LexState(AndText(gs[0]) + next, None)).value;
    OrTailParses(e.1, gs[1..]);
    if |gs| == 1 {
      assert AndExprs(gs[1..]) == [];
    } else {
      assert AndExprs(gs[1..]) != [];
    }
  }

  /** `c1||c2&&c3` is `c1 || (c2 && c3)`, whatever the three conditions. */
  lemma OrOfAnd(c1: Cond, c2: Cond, c3: Cond)
    requires ValidCond(c1) && ValidCond(c2) && ValidCond(c3)
    ensures Parsed(CondText(c1) + "||" + CondText(c2) + "&&" + CondText(c3))
         == Ok(Or(CondExpr(c1), [And(CondExpr(c2), [CondExpr(c3)])]))
  {
    GroupOfOne(c1);
    GroupOfTwo(c2, c3);
    TwoGroups([c1], [c2, c3]);
    Assoc("||", CondText(c2) + "&&", CondText(c3));
    Assoc(CondText(c1), "||" + (CondText(c2) + "&&"), CondText(c3));
    Assoc(CondText(c1), "||", CondText(c2) + "&&");
    Assoc(CondText(c1) + "||", CondText(c2), "&&");
    PrecedenceRoundTrip([[c1], [c2, c3]]);
  }

  /** `c1&&c2||c3` is `(c1 && c2) || c3`, whatever the three conditions. */
  lemma AndOfOr(c1: Cond, c2: Cond, c3: Cond)
    requires ValidCond(c1) && ValidCond(c2) && ValidCond(c3)
    ensures Parsed(CondText(c1) + "&&" + CondText(c2) + "||" + CondText(c3))
         == Ok(Or(And(CondExpr(c1), [CondExpr(c2)]), [CondExpr(c3)]))
  {
    GroupOfTwo(c1, c2);
    GroupOfOne(c3);
    TwoGroups([c1, c2], [c3]);
    Assoc(CondText(c1) + "&&" + CondText(c2), "||", CondText(c3));
    PrecedenceRoundTrip([[c1, c2], [c3]]);
  }

  lemma TwoGroups(g1: seq<Cond>, g2: seq<Cond>)
    requires g1 != [] && g2 != []
    ensures OrText([g1, g2]) == AndText(g1) + ("||" + AndText(g2))
    ensures OrExpr([g1, g2]) == Or(AndExpr(g1), [AndExpr(g2)])
  {
    var gs := [g1, g2];
    assert gs[1..] == [g2];
    OneGroupJoined(g2);
    assert AndExprs([g2]) == [AndExpr(g2)];
  }

  lemma OneGroupJoined(g: seq<Cond>)
    requires g != []
    ensures OrJoined([g]) == "||" + AndText(g)
  {
    assert [g][1..] == [];
    assert OrJoined([g]) == "||" + AndText(g) + [];
  }

  lemma Assoc(a: string, b: string, c: string)
    ensures a + (b + c) == a + b + c
  {
  }

  lemma GroupOfOne(c: Cond)
    ensures AndText([c]) == CondText(c) && AndExpr([c]) == CondExpr(c)
  {
    assert [c][1..] == [];
  }

  lemma GroupOfTwo(c1: Cond, c2: Cond)
    ensures AndText([c1, c2]) == CondText(c1) + "&&" + CondText(c2)
    ensures AndExpr([c1, c2]) == And(CondExpr(c1), [CondExpr(c2)])
  {
    var cs := [c1, c2];
    assert cs[1..] == [c2] && cs[1..][1..] == [];
    assert AndJoined([c2]) == "&&" + CondText(c2);
    assert CondExprs([c2]) == [CondExpr(c2)];
  }

  /** `!` binds tighter than a comparison for any word: `!!a<b` compares `!!a` with `b`. */
  lemma NotBeforeComparison(n: nat, a: string, op: CmpOp, b: string)
    requires IsWord(a) && IsWord(b)
    ensures Parsed(Bangs(n) + a + OpText(op) + b)
         == Ok(Compare(OpToken(op), Negated(n, Atom(a)), Atom(b)))
  {
    var c := Comparison(op, Operand(n, a), Operand(0, b));
    assert OperandText(Operand(0, b)) == b;
    assert CondText(c) == Bangs(n) + a + OpText(op) + b;
    GroupOfOne(c);
    assert OrText([[c]]) == CondText(c) by {
      assert [[c]][1..] == [];
    }
    assert OrExpr([[c]]) == CondExpr(c);
    PrecedenceRoundTrip([[c]]);
  }

  /**
   * Comparisons do not chain: after `l op r` a second comparison operator ends
   * the parse, and what follows it is ignored.
   */
  lemma ComparisonsDoNotChain(op: CmpOp, l: Operand, r: Operand, op2: CmpOp, o: Operand)
    requires IsWord(l.word) && IsWord(r.word) && IsWord(o.word)
    ensures Parsed(CondText(Comparison(op, l, r)) + OpText(op2) + OperandText(o))
         == Ok(Compare(OpToken(op), OperandExpr(l), OperandExpr(r)))
  {
    var u := OpText(op2) + OperandText(o);
    var text := CondText(Comparison(op, l, r)) + u;
    assert CondText(Comparison(op, l, r)) + OpText(op2) + OperandText(o) == text;
    assert u[0] == OpText(op2)[0];
    ComparisonParses(op, l, r, u);
    OperatorKept(op2, o);
    var kept := LexState(OperandText(o), Some(OpToken(op2)));
    var e := CondExpr(Comparison(op, l, r));
    assert AndTail(LexState(u, None)) == Ok(([], kept));
    assert ParsedAnd(LexState(text, None)) == Ok((e, kept));
    assert OrTail(kept) == Ok(([], kept));
    assert ParsedOr(LexState(text, None)) == Ok((e, kept));
  }

  /** A comparison operator before an operand is peeked as itself and kept in the lookahead. */
  lemma OperatorKept(op: CmpOp, o: Operand)
    requires IsWord(o.word)
    ensures Peek(LexState(OpText(op) + OperandText(o), None))
         == Ok((OpToken(op), LexState(OperandText(o), Some(OpToken(op)))))
  {
    OperandStart(o, []);
    assert OperandText(o) + [] == OperandText(o);
    LexOp(op, OperandText(o));
  }
}
