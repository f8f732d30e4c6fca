/**
  What texts mean when they are put together with the words and signs that both filter languages
  share: parentheses, `and` or `&&`, `or` or `||`, `not` or `!`, with blanks or without.
 */
module Phrases {
  import opened Words
  import opened Lexing
  import G = Grammar

  /** The expression a text stands for, if it is one. */
  function Denotes<L(!new), P(!new)>(x: Lexer<L>, g: G.Language<L, P>, text: string): Option<G.Expr<P>> {
    match Outcome(Tokens(x, text, 0))
    case Lexed(ts) => G.ParseAll(g, ts)
    case _ => None
  }

  /** The lexer knows the shared words and signs, and blanks and parentheses stick to nothing. */
  ghost predicate Connects<L(!new)>(x: Lexer<L>) {
    && x.spells("(", G.LParen) && x.spells(")", G.RParen)
    && x.spells("and", G.AndOp) && x.spells("&&", G.AndOp)
    && x.spells("or", G.OrOp) && x.spells("||", G.OrOp)
    && x.spells("not", G.NotOp) && x.spells("!", G.NotOp)
    && (forall c :: !x.sticks("(", c)) && (forall c :: !x.sticks(")", c))
    && (forall w :: !x.sticks(w, ' ')) && (forall w :: !x.sticks(w, '(')) && (forall w :: !x.sticks(w, ')'))
  }

  ghost predicate Usable<L(!new), P(!new)>(x: Lexer<L>, g: G.Language<L, P>) {
    Lexing.Lawful(x) && G.Lawful(g) && Connects(x)
  }

  // ----- tokens -----

  /** A text in parentheses. */
  function Group(u: string): string {
    "(" + u + ")"
  }

  function Grouped<L>(ts: seq<G.Tok<L>>): seq<G.Tok<L>> {
    [G.LParen] + ts + [G.RParen]
  }

  lemma Associates<T>(a: seq<T>, b: seq<T>, c: seq<T>, d: seq<T>)
    ensures a + (b + (c + d)) == a + b + c + d
  {
  }

  lemma Regroup<T>(a: seq<T>, t: T, b: seq<T>)
    ensures a + ([t] + b) == a + [t] + b
  {
  }

  /** A text in parentheses, then the rest. */
  lemma GroupThen<L(!new)>(x: Lexer<L>, u: string, rest: string)
    requires Lexing.Lawful(x) && Connects(x) && Tokens(x, u, 0).Some? && Tokens(x, rest, 0).Some?
    ensures Tokens(x, Group(u) + rest, 0) == Some(Grouped(Tokens(x, u, 0).value) + Tokens(x, rest, 0).value)
  {
    hide Lexing.Lawful, Tokens;
    WordThen(x, ")", G.RParen, rest);
    TextThen(x, u, ")" + rest);
    WordThen(x, "(", G.LParen, u + (")" + rest));
    hide Connects;
    Associates("(", u, ")", rest);
    Associates([G.LParen], Tokens(x, u, 0).value, [G.RParen], Tokens(x, rest, 0).value);
  }

  lemma NoTokens<L>(x: Lexer<L>)
    ensures Tokens(x, "", 0) == Some([])
  {
  }

  /** A text in parentheses, by itself. */
  lemma GroupTokens<L(!new)>(x: Lexer<L>, u: string)
    requires Lexing.Lawful(x) && Connects(x) && Tokens(x, u, 0).Some?
    ensures Tokens(x, Group(u), 0) == Some(Grouped(Tokens(x, u, 0).value))
  {
    hide *;
    NoTokens(x);
    GroupThen(x, u, "");
    assert Group(u) + "" == Group(u);
    assert Grouped(Tokens(x, u, 0).value) + [] == Grouped(Tokens(x, u, 0).value);
  }

  /** An operator directly in front of a text in parentheses. */
  lemma OperatorGroup<L(!new)>(x: Lexer<L>, w: string, op: G.Tok<L>, u: string)
    requires Lexing.Lawful(x) && Connects(x) && Tokens(x, u, 0).Some? && |w| > 0 && x.spells(w, op)
    ensures Tokens(x, w + Group(u), 0) == Some([op] + Grouped(Tokens(x, u, 0).value))
  {
    GroupTokens(x, u);
    assert Group(u)[0] == '(';
    hide Lexing.Lawful, Tokens, Group, Grouped;
    WordThen(x, w, op, Group(u));
  }

  /** An operator between two texts in parentheses, with no blank. */
  lemma GroupOperatorGroup<L(!new)>(x: Lexer<L>, u: string, w: string, op: G.Tok<L>, v: string)
    requires Lexing.Lawful(x) && Connects(x) && |w| > 0 && x.spells(w, op)
    requires Tokens(x, u, 0).Some? && Tokens(x, v, 0).Some?
    ensures Tokens(x, Group(u) + (w + Group(v)), 0)
         == Some(Grouped(Tokens(x, u, 0).value) + [op] + Grouped(Tokens(x, v, 0).value))
  {
    hide *;
    OperatorGroup(x, w, op, v);
    GroupThen(x, u, w + Group(v));
    Regroup(Grouped(Tokens(x, u, 0).value), op, Grouped(Tokens(x, v, 0).value));
  }

  /** An operator, a blank, a text. */
  lemma OperatorText<L(!new)>(x: Lexer<L>, w: string, op: G.Tok<L>, u: string)
    requires Lexing.Lawful(x) && Connects(x) && Tokens(x, u, 0).Some? && |w| > 0 && x.spells(w, op)
    ensures Tokens(x, w + (" " + u), 0) == Some([op] + Tokens(x, u, 0).value)
  {
    hide Lexing.Lawful, Tokens;
    BlankThen(x, u);
    WordThen(x, w, op, " " + u);
  }

  /** A text, a blank, a text. */
  lemma TextBlankText<L(!new)>(x: Lexer<L>, u: string, v: string)
    requires Lexing.Lawful(x) && Connects(x) && Tokens(x, u, 0).Some? && Tokens(x, v, 0).Some?
    ensures Tokens(x, u + (" " + v), 0) == Some(Tokens(x, u, 0).value + Tokens(x, v, 0).value)
  {
    hide Lexing.Lawful, Tokens;
    BlankThen(x, v);
    TextThen(x, u, " " + v);
  }

  /** At most one blank. */
  predicate Gap(s: string) {
    s == "" || s == " "
  }

  lemma GapThen<L(!new)>(x: Lexer<L>, gap: string, v: string)
    requires Lexing.Lawful(x) && Gap(gap) && Tokens(x, v, 0).Some?
    ensures Tokens(x, gap + v, 0) == Tokens(x, v, 0)
  {
    hide Lexing.Lawful, Tokens;
    if gap == "" {
      assert gap + v == v;
    } else {
      BlankThen(x, v);
    }
  }

  /** A text, an operator and a text, with blanks between them. */
  lemma TextOperatorText<L(!new)>(x: Lexer<L>, u: string, w: string, op: G.Tok<L>, v: string)
    requires Lexing.Lawful(x) && Connects(x) && |w| > 0 && x.spells(w, op)
    requires Tokens(x, u, 0).Some? && Tokens(x, v, 0).Some?
    ensures Tokens(x, u + (" " + (w + (" " + v))), 0) == Some(Tokens(x, u, 0).value + [op] + Tokens(x, v, 0).value)
  {
    hide *;
    OperatorText(x, w, op, v);
    TextBlankText(x, u, w + (" " + v));
    Regroup(Tokens(x, u, 0).value, op, Tokens(x, v, 0).value);
  }

  // ----- expressions -----

  /** The text is derived by the grammar at that level or a tighter one, and stands for e. */
  ghost predicate Phrase<L(!new), P(!new)>(x: Lexer<L>, g: G.Language<L, P>, level: nat, text: string, e: G.Expr<P>) {
    exists c: G.Cst<P> :: Written(x, g, level, text, e, c)
  }

  ghost predicate Written<L(!new), P(!new)>(
      x: Lexer<L>, g: G.Language<L, P>, level: nat, text: string, e: G.Expr<P>, c: G.Cst<P>) {
    && c.Derives(g.valid) && c.Level() >= level && c.Strip() == e
    && Tokens(x, text, 0) == Some(c.Yield(g.words))
  }

  /** A tighter phrase may stand where a looser one may. */
  lemma Weaker<L(!new), P(!new)>(
      x: Lexer<L>, g: G.Language<L, P>, level: nat, less: nat, text: string, e: G.Expr<P>)
    requires less <= level && Phrase(x, g, level, text, e)
    ensures Phrase(x, g, less, text, e)
  {
    var c: G.Cst<P> :| Written(x, g, level, text, e, c);
    assert Written(x, g, less, text, e, c);
  }

  lemma DropEnd<T>(a: seq<G.Tok<T>>, b: seq<G.Tok<T>>)
    requires a + [G.End] == b + [G.End]
    ensures a == b
  {
    assert a == (a + [G.End])[..|a|] && b == (b + [G.End])[..|b|];
  }

  /** A text of fewer than 256 tokens stands for an expression exactly when it is a phrase for it. */
  lemma PhrasesDenote<L(!new), P(!new)>(x: Lexer<L>, g: G.Language<L, P>, text: string, e: G.Expr<P>)
    requires Lexing.Lawful(x) && G.Lawful(g) && Tokens(x, text, 0).Some? && |Tokens(x, text, 0).value| < 256
    ensures Denotes(x, g, text) == Some(e) <==> Phrase(x, g, 0, text, e)
  {
    var ts := Tokens(x, text, 0).value;
    StaysInsideUnless256(x, text);
    hide Lexing.Lawful, G.Lawful, Tokens;
    G.AcceptsExactlyTheGrammar(g, ts + [G.End], e);
    if Denotes(x, g, text) == Some(e) {
      var c: G.Cst<P> :| c.Derives(g.valid) && ts + [G.End] == c.Yield(g.words) + [G.End] && c.Strip() == e;
      DropEnd(ts, c.Yield(g.words));
      assert Written(x, g, 0, text, e, c);
    }
    if Phrase(x, g, 0, text, e) {
      var c: G.Cst<P> :| Written(x, g, 0, text, e, c);
      assert c.Derives(g.valid) && ts + [G.End] == c.Yield(g.words) + [G.End] && c.Strip() == e;
    }
  }

  /** Parentheses around a text change nothing but what it may stand next to. */
  lemma InParentheses<L(!new), P(!new)>(x: Lexer<L>, g: G.Language<L, P>, u: string, e: G.Expr<P>)
    requires Usable(x, g) && Phrase(x, g, 0, u, e)
    ensures Phrase(x, g, 2, Group(u), e)
  {
    var c: G.Cst<P> :| Written(x, g, 0, u, e, c);
    hide Lexing.Lawful, G.Lawful, Connects, Tokens;
    GroupTokens(x, u);
    assert Written(x, g, 2, Group(u), e, G.Paren(c));
  }

  /** `not` and `!` bind tighter than `and` and `or`. */
  lemma Negation<L(!new), P(!new)>(x: Lexer<L>, g: G.Language<L, P>, w: string, u: string, e: G.Expr<P>)
    requires Usable(x, g) && (w == "not" || w == "!") && Phrase(x, g, 2, u, e)
    ensures Phrase(x, g, 2, w + (" " + u), G.Not(e))
  {
    assert x.spells(w, G.NotOp) && |w| > 0;
    var c: G.Cst<P> :| Written(x, g, 2, u, e, c);
    hide Lexing.Lawful, G.Lawful, Connects, Tokens;
    OperatorText(x, w, G.NotOp, u);
    assert Written(x, g, 2, w + (" " + u), G.Not(e), G.NotNode(c));
  }

  /** `and` and `&&` group to the left. */
  lemma Conjunction<L(!new), P(!new)>(
      x: Lexer<L>, g: G.Language<L, P>, u: string, e: G.Expr<P>, w: string, v: string, f: G.Expr<P>)
    requires Usable(x, g) && (w == "and" || w == "&&") && Phrase(x, g, 1, u, e) && Phrase(x, g, 2, v, f)
    ensures Phrase(x, g, 1, u + (" " + (w + (" " + v))), G.And(e, f))
  {
    assert x.spells(w, G.AndOp) && |w| > 0;
    var c: G.Cst<P> :| Written(x, g, 1, u, e, c);
    var d: G.Cst<P> :| Written(x, g, 2, v, f, d);
    hide Lexing.Lawful, G.Lawful, Connects, Tokens;
    TextOperatorText(x, u, w, G.AndOp, v);
    assert Written(x, g, 1, u + (" " + (w + (" " + v))), G.And(e, f), G.AndNode(c, d));
  }

  /** `or` and `||` bind loosest and group to the left. */
  lemma Disjunction<L(!new), P(!new)>(
      x: Lexer<L>, g: G.Language<L, P>, u: string, e: G.Expr<P>, w: string, v: string, f: G.Expr<P>)
    requires Usable(x, g) && (w == "or" || w == "||") && Phrase(x, g, 0, u, e) && Phrase(x, g, 1, v, f)
    ensures Phrase(x, g, 0, u + (" " + (w + (" " + v))), G.Or(e, f))
  {
    assert x.spells(w, G.OrOp) && |w| > 0;
    var c: G.Cst<P> :| Written(x, g, 0, u, e, c);
    var d: G.Cst<P> :| Written(x, g, 1, v, f, d);
    hide Lexing.Lawful, G.Lawful, Connects, Tokens;
    TextOperatorText(x, u, w, G.OrOp, v);
    assert Written(x, g, 0, u + (" " + (w + (" " + v))), G.Or(e, f), G.OrNode(c, d));
  }

  lemma Wrapped<L(!new), P(!new)>(x: Lexer<L>, g: G.Language<L, P>, u: string, e: G.Expr<P>) returns (c: G.Cst<P>)
    requires Phrase(x, g, 0, u, e)
    ensures c.Derives(g.valid) && c.Level() == 2 && c.Strip() == e
    ensures Tokens(x, u, 0).Some? && c.Yield(g.words) == Grouped(Tokens(x, u, 0).value)
  {
    hide Tokens;
    var d: G.Cst<P> :| Written(x, g, 0, u, e, d);
    c := G.Paren(d);
  }

  /** Around parentheses no blank is needed. */
  lemma TightNegation<L(!new), P(!new)>(x: Lexer<L>, g: G.Language<L, P>, w: string, u: string, e: G.Expr<P>)
    requires Usable(x, g) && (w == "not" || w == "!") && Phrase(x, g, 0, u, e)
    ensures Phrase(x, g, 2, w + Group(u), G.Not(e))
  {
    assert x.spells(w, G.NotOp) && |w| > 0;
    var c := Wrapped(x, g, u, e);
    hide Lexing.Lawful, G.Lawful, Connects, Tokens, Group, Grouped;
    OperatorGroup(x, w, G.NotOp, u);
    assert Written(x, g, 2, w + Group(u), G.Not(e), G.NotNode(c));
  }

  lemma TightConjunction<L(!new), P(!new)>(
      x: Lexer<L>, g: G.Language<L, P>, u: string, e: G.Expr<P>, w: string, v: string, f: G.Expr<P>)
    requires Usable(x, g) && (w == "and" || w == "&&") && Phrase(x, g, 0, u, e) && Phrase(x, g, 0, v, f)
    ensures Phrase(x, g, 1, Group(u) + (w + Group(v)), G.And(e, f))
  {
    assert x.spells(w, G.AndOp) && |w| > 0;
    var c := Wrapped(x, g, u, e);
    var d := Wrapped(x, g, v, f);
    hide Lexing.Lawful, G.Lawful, Connects, Tokens, Group, Grouped;
    GroupOperatorGroup(x, u, w, G.AndOp, v);
    assert Written(x, g, 1, Group(u) + (w + Group(v)), G.And(e, f), G.AndNode(c, d));
  }

  lemma TightDisjunction<L(!new), P(!new)>(
      x: Lexer<L>, g: G.Language<L, P>, u: string, e: G.Expr<P>, w: string, v: string, f: G.Expr<P>)
    requires Usable(x, g) && (w == "or" || w == "||") && Phrase(x, g, 0, u, e) && Phrase(x, g, 0, v, f)
    ensures Phrase(x, g, 0, Group(u) + (w + Group(v)), G.Or(e, f))
  {
    assert x.spells(w, G.OrOp) && |w| > 0;
    var c := Wrapped(x, g, u, e);
    var d := Wrapped(x, g, v, f);
    hide Lexing.Lawful, G.Lawful, Connects, Tokens, Group, Grouped;
    GroupOperatorGroup(x, u, w, G.OrOp, v);
    assert Written(x, g, 0, Group(u) + (w + Group(v)), G.Or(e, f), G.OrNode(c, d));
  }

  /** Words that the language's reader takes as one primitive. */
  lemma PrimitivePhrase<L(!new), P(!new)>(x: Lexer<L>, g: G.Language<L, P>, text: string, ts: seq<G.Tok<L>>, p: P)
    requires G.Lawful(g) && Tokens(x, text, 0) == Some(ts) && g.read(ts, 0) == Some((p, |ts|))
    ensures Phrase(x, g, 2, text, G.Prim(p))
  {
    hide Tokens;
    var ws := g.words(p);
    assert g.valid(p) && |ts| == |ws| && G.At(ts, 0, G.Spell(ws));
    assert ts == ts[0..|ws|];
    assert Written(x, g, 2, text, G.Prim(p), G.PrimNode(p));
  }

  /** A text whose first word begins no primitive, parenthesis or negation stands for nothing. */
  lemma NoPhrase<L(!new), P(!new)>(x: Lexer<L>, g: G.Language<L, P>, text: string, ts: seq<G.Tok<L>>)
    requires Tokens(x, text, 0) == Some(ts) && |ts| > 0 && ts[0].Word? && g.read(ts + [G.End], 0) == None
    ensures Denotes(x, g, text) == None
  {
    hide Tokens;
    var all := ts + [G.End];
    assert all[0] == ts[0];
    assert G.ParseNot(g, all, 0) == None;
    assert G.ParseAnd(g, all, 0) == None;
    assert G.ParseExpr(g, all, 0) == None;
  }
}
