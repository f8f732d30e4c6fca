/**
  The expression grammar shared by the capture and the display filter: `or` over `and` over
  `not`, parentheses, and primitives that each language supplies. The parser here is the
  recursive-descent scheme of both files, on values; the relation to the documented grammar
  is an if-and-only-if.
 */
module Grammar {
  import opened Words

  /** Tokens: what both languages share, and everything else as a word of the language. */
  datatype Tok<L> = End | LParen | RParen | AndOp | OrOp | NotOp | Word(w: L)

  datatype Expr<P> =
    | And(left: Expr<P>, right: Expr<P>)
    | Or(left: Expr<P>, right: Expr<P>)
    | Not(operand: Expr<P>)
    | Prim(p: P)

  function Spell<L>(ws: seq<L>): (ts: seq<Tok<L>>)
    ensures |ts| == |ws|
  {
    seq(|ws|, i requires 0 <= i < |ws| => Word(ws[i]))
  }

  /** ys stands in ts at position i. */
  predicate At<T(==)>(ts: seq<T>, i: nat, ys: seq<T>) {
    i + |ys| <= |ts| && ts[i..i + |ys|] == ys
  }

  datatype Parsed<P> = Parsed(e: Expr<P>, next: nat)

  /** A language's primitives: how one is read from tokens and how it is written in words. */
  datatype Language<!L(==, !new), !P(!new)> = Language(
    read: (seq<Tok<L>>, nat) -> Option<(P, nat)>,
    words: P -> seq<L>,
    valid: P -> bool)

  /** Reading succeeds exactly on the words of a valid primitive, and consumes just those. */
  ghost predicate Lawful<L(!new), P(!new)>(g: Language<L, P>) {
    && (forall ts, i: nat :: g.read(ts, i).Some? ==>
          var (p, j) := g.read(ts, i).value;
          g.valid(p) && j == i + |g.words(p)| && At(ts, i, Spell(g.words(p))))
    && (forall ts, i: nat, p :: g.valid(p) && At(ts, i, Spell(g.words(p))) ==>
          g.read(ts, i) == Some((p, i + |g.words(p)|)))
    && (forall p :: g.valid(p) ==> |g.words(p)| > 0)
  }

  // ----- the parser -----

  /** parse_not: `not`, a parenthesized expression, or a primitive. */
  function ParseNot<L(!new), P(!new)>(g: Language<L, P>, ts: seq<Tok<L>>, i: nat): (r: Option<Parsed<P>>)
    ensures r.Some? ==> i < r.value.next <= |ts|
    decreases |ts| - i, 0
  {
    if i >= |ts| then None
    else match ts[i]
      case NotOp =>
        (match ParseNot(g, ts, i + 1)
         case None => None
         case Some(x) => Some(Parsed(Not(x.e), x.next)))
      case LParen =>
        (match ParseExpr(g, ts, i + 1)
         case None => None
         case Some(x) => if x.next < |ts| && ts[x.next] == RParen then Some(Parsed(x.e, x.next + 1)) else None)
      case _ =>
        (match g.read(ts, i)
         case None => None
         case Some(x) => if i < x.1 <= |ts| then Some(Parsed(Prim(x.0), x.1)) else None)
  }

  /** parse_and: operands joined by `and`, grouped to the left. */
  function ParseAnd<L(!new), P(!new)>(g: Language<L, P>, ts: seq<Tok<L>>, i: nat): (r: Option<Parsed<P>>)
    ensures r.Some? ==> i < r.value.next <= |ts|
    decreases |ts| - i, 1
  {
    match ParseNot(g, ts, i)
    case None => None
    case Some(x) => AndTail(g, ts, x)
  }

  /** The loop of parse_and after the operand `x`. */
  function AndTail<L(!new), P(!new)>(g: Language<L, P>, ts: seq<Tok<L>>, x: Parsed<P>): (r: Option<Parsed<P>>)
    ensures r.Some? ==> x.next <= r.value.next && (x.next <= |ts| ==> r.value.next <= |ts|)
    decreases |ts| - x.next, 1
  {
    if x.next < |ts| && ts[x.next] == AndOp then
      match ParseNot(g, ts, x.next + 1)
      case None => None
      case Some(y) => AndTail(g, ts, Parsed(And(x.e, y.e), y.next))
    else Some(x)
  }

  /** parse_expr: operands joined by `or`, grouped to the left. */
  function ParseExpr<L(!new), P(!new)>(g: Language<L, P>, ts: seq<Tok<L>>, i: nat): (r: Option<Parsed<P>>)
    ensures r.Some? ==> i < r.value.next <= |ts|
    decreases |ts| - i, 3
  {
    match ParseAnd(g, ts, i)
    case None => None
    case Some(x) => OrTail(g, ts, x)
  }

  /** The loop of parse_expr after the operand `x`. */
  function OrTail<L(!new), P(!new)>(g: Language<L, P>, ts: seq<Tok<L>>, x: Parsed<P>): (r: Option<Parsed<P>>)
    ensures r.Some? ==> x.next <= r.value.next && (x.next <= |ts| ==> r.value.next <= |ts|)
    decreases |ts| - x.next, 3
  {
    if x.next < |ts| && ts[x.next] == OrOp then
      match ParseAnd(g, ts, x.next + 1)
      case None => None
      case Some(y) => OrTail(g, ts, Parsed(Or(x.e, y.e), y.next))
    else Some(x)
  }

  /** The lexers' output: tokens closed by a single End. */
  predicate Closed<L>(ts: seq<Tok<L>>) {
    && ts != [] && ts[|ts| - 1].End?
    && forall i | 0 <= i < |ts| - 1 :: !ts[i].End?
  }

  /** A whole token list: an expression and nothing behind it. */
  function ParseAll<L(!new), P(!new)>(g: Language<L, P>, ts: seq<Tok<L>>): Option<Expr<P>> {
    match ParseExpr(g, ts, 0)
    case None => None
    case Some(x) => if x.next < |ts| && ts[x.next].End? then Some(x.e) else None
  }

  // ----- the documented grammar -----

  /** Derivations of the grammar in the headers, with explicit parentheses. */
  datatype Cst<P> =
    | OrNode(left: Cst<P>, right: Cst<P>)
    | AndNode(left: Cst<P>, right: Cst<P>)
    | NotNode(operand: Cst<P>)
    | Paren(inner: Cst<P>)
    | PrimNode(p: P)
  {
    /** 0 for or_expr, 1 for and_expr, 2 for not_expr. */
    function Level(): nat {
      match this
      case OrNode(_, _) => 0
      case AndNode(_, _) => 1
      case _ => 2
    }

    predicate Derives(valid: P -> bool) {
      match this
      case OrNode(l, r) => l.Derives(valid) && r.Derives(valid) && r.Level() >= 1
      case AndNode(l, r) => l.Derives(valid) && r.Derives(valid) && l.Level() >= 1 && r.Level() >= 2
      case NotNode(c) => c.Derives(valid) && c.Level() >= 2
      case Paren(c) => c.Derives(valid)
      case PrimNode(p) => valid(p)
    }

    /** The tree a derivation stands for. */
    function Strip(): Expr<P> {
      match this
      case OrNode(l, r) => Or(l.Strip(), r.Strip())
      case AndNode(l, r) => And(l.Strip(), r.Strip())
      case NotNode(c) => Not(c.Strip())
      case Paren(c) => c.Strip()
      case PrimNode(p) => Prim(p)
    }

    function Yield<L>(words: P -> seq<L>): seq<Tok<L>> {
      match this
      case OrNode(l, r) => l.Yield(words) + [OrOp] + r.Yield(words)
      case AndNode(l, r) => l.Yield(words) + [AndOp] + r.Yield(words)
      case NotNode(c) => [NotOp] + c.Yield(words)
      case Paren(c) => [LParen] + c.Yield(words) + [RParen]
      case PrimNode(p) => Spell(words(p))
    }
  }

  lemma AtSplit<T>(ts: seq<T>, i: nat, a: seq<T>, b: seq<T>)
    requires At(ts, i, a + b)
    ensures At(ts, i, a) && At(ts, i + |a|, b)
  {
    var s := ts[i..i + |a + b|];
    assert ts[i..i + |a|] == s[..|a|];
    assert ts[i + |a|..i + |a| + |b|] == s[|a|..];
  }

  lemma AtJoin<T>(ts: seq<T>, i: nat, a: seq<T>, b: seq<T>)
    requires At(ts, i, a) && At(ts, i + |a|, b)
    ensures At(ts, i, a + b)
  {
  }

  lemma AtOne<T>(ts: seq<T>, i: nat, t: T)
    ensures At(ts, i, [t]) <==> i < |ts| && ts[i] == t
  {
    if i < |ts| {
      assert ts[i..i + 1] == [ts[i]];
    }
  }

  /** Two operands around an operator. */
  lemma AtInfix<T>(ts: seq<T>, i: nat, a: seq<T>, op: T, b: seq<T>)
    requires At(ts, i, a + [op] + b)
    ensures At(ts, i, a) && i + |a| < |ts| && ts[i + |a|] == op && At(ts, i + |a| + 1, b)
    ensures i + |a| + 1 + |b| == i + |a + [op] + b|
  {
    AtSplit(ts, i, a + [op], b);
    AtSplit(ts, i, a, [op]);
    AtOne(ts, i + |a|, op);
  }

  predicate NextIsNot<L(==)>(ts: seq<Tok<L>>, j: nat, t: Tok<L>) {
    j < |ts| ==> ts[j] != t
  }

  // Completeness: each level's parser reads back every derivation of that level.

  lemma {:induction false} NotReads<L(!new), P(!new)>(g: Language<L, P>, c: Cst<P>, ts: seq<Tok<L>>, i: nat)
    requires Lawful(g) && c.Derives(g.valid) && c.Level() == 2 && At(ts, i, c.Yield(g.words))
    ensures ParseNot(g, ts, i) == Some(Parsed(c.Strip(), i + |c.Yield(g.words)|))
    decreases c, 0
  {
    hide At, Lawful;
    match c
    case NotNode(d) =>
      AtSplit(ts, i, [NotOp], d.Yield(g.words));
      AtOne(ts, i, NotOp);
      NotReads(g, d, ts, i + 1);
    case Paren(d) =>
      var y := d.Yield(g.words);
      AtSplit(ts, i, [LParen] + y, [RParen]);
      AtSplit(ts, i, [LParen], y);
      AtOne(ts, i, LParen);
      AtOne(ts, i + 1 + |y|, RParen);
      ExprReads(g, d, ts, i + 1);
    case PrimNode(p) =>
      PrimReads(g, p, ts, i);
  }

  lemma PrimReads<L(!new), P(!new)>(g: Language<L, P>, p: P, ts: seq<Tok<L>>, i: nat)
    requires Lawful(g) && g.valid(p) && At(ts, i, Spell(g.words(p)))
    ensures ParseNot(g, ts, i) == Some(Parsed(Prim(p), i + |g.words(p)|))
  {
    assert g.read(ts, i) == Some((p, i + |g.words(p)|));
    assert ts[i..i + |g.words(p)|][0] == Spell(g.words(p))[0];
  }

  /** After an and_expr the parser is in parse_and's loop, holding that operand. */
  lemma {:induction false} AndReads<L(!new), P(!new)>(g: Language<L, P>, c: Cst<P>, ts: seq<Tok<L>>, i: nat)
    requires Lawful(g) && c.Derives(g.valid) && c.Level() >= 1 && At(ts, i, c.Yield(g.words))
    ensures ParseAnd(g, ts, i) == AndTail(g, ts, Parsed(c.Strip(), i + |c.Yield(g.words)|))
    decreases c, 1
  {
    hide At, Lawful, ParseNot, AndTail;
    if c.AndNode? {
      var a, b := c.left.Yield(g.words), c.right.Yield(g.words);
      AtInfix(ts, i, a, AndOp, b);
      AndReads(g, c.left, ts, i);
      NotReads(g, c.right, ts, i + |a| + 1);
      AndTurn(g, ts, Parsed(c.left.Strip(), i + |a|), Parsed(c.right.Strip(), i + |a| + 1 + |b|));
    } else {
      NotReads(g, c, ts, i);
    }
  }

  lemma AndTurn<L(!new), P(!new)>(g: Language<L, P>, ts: seq<Tok<L>>, x: Parsed<P>, y: Parsed<P>)
    requires x.next < |ts| && ts[x.next] == AndOp && ParseNot(g, ts, x.next + 1) == Some(y)
    ensures AndTail(g, ts, x) == AndTail(g, ts, Parsed(And(x.e, y.e), y.next))
  {
    hide ParseNot;
  }

  /** After an or_expr the parser is in parse_expr's loop, holding that operand. */
  lemma {:induction false} OrReads<L(!new), P(!new)>(g: Language<L, P>, c: Cst<P>, ts: seq<Tok<L>>, i: nat)
    requires Lawful(g) && c.Derives(g.valid) && At(ts, i, c.Yield(g.words))
    requires NextIsNot(ts, i + |c.Yield(g.words)|, AndOp)
    ensures ParseExpr(g, ts, i) == OrTail(g, ts, Parsed(c.Strip(), i + |c.Yield(g.words)|))
    decreases c, 2
  {
    hide At, Lawful, ParseExpr, ParseAnd, OrTail, AndTail;
    if c.OrNode? {
      var a, b := c.left.Yield(g.words), c.right.Yield(g.words);
      AtInfix(ts, i, a, OrOp, b);
      OrReads(g, c.left, ts, i);
      AndReads(g, c.right, ts, i + |a| + 1);
      OrTurn(g, ts, Parsed(c.left.Strip(), i + |a|), Parsed(c.right.Strip(), i + |a| + 1 + |b|));
    } else {
      AndReads(g, c, ts, i);
      LoneOperand(g, ts, i, Parsed(c.Strip(), i + |c.Yield(g.words)|));
    }
  }

  /** parse_and's loop stops at once in front of anything but `and`. */
  lemma LoneOperand<L(!new), P(!new)>(g: Language<L, P>, ts: seq<Tok<L>>, i: nat, x: Parsed<P>)
    requires ParseAnd(g, ts, i) == AndTail(g, ts, x) && NextIsNot(ts, x.next, AndOp)
    ensures ParseAnd(g, ts, i) == Some(x) && ParseExpr(g, ts, i) == OrTail(g, ts, x)
  {
  }

  lemma OrTurn<L(!new), P(!new)>(g: Language<L, P>, ts: seq<Tok<L>>, x: Parsed<P>, y: Parsed<P>)
    requires x.next < |ts| && ts[x.next] == OrOp
    requires ParseAnd(g, ts, x.next + 1) == AndTail(g, ts, y) && NextIsNot(ts, y.next, AndOp)
    ensures OrTail(g, ts, x) == OrTail(g, ts, Parsed(Or(x.e, y.e), y.next))
  {
    hide ParseAnd, ParseExpr;
    LoneOperand(g, ts, x.next + 1, y);
  }

  lemma {:induction false} ExprReads<L(!new), P(!new)>(g: Language<L, P>, c: Cst<P>, ts: seq<Tok<L>>, i: nat)
    requires Lawful(g) && c.Derives(g.valid) && At(ts, i, c.Yield(g.words))
    requires NextIsNot(ts, i + |c.Yield(g.words)|, AndOp) && NextIsNot(ts, i + |c.Yield(g.words)|, OrOp)
    ensures ParseExpr(g, ts, i) == Some(Parsed(c.Strip(), i + |c.Yield(g.words)|))
    decreases c, 3
  {
    OrReads(g, c, ts, i);
  }

  // Soundness: whatever is parsed has a derivation.

  /** c derives what x was parsed from, starting at i, at the given level. */
  ghost predicate Justifies<L(!new), P(!new)>(g: Language<L, P>, c: Cst<P>, ts: seq<Tok<L>>, i: nat,
                                              x: Parsed<P>, level: nat)
  {
    && c.Derives(g.valid) && c.Level() >= level && c.Strip() == x.e
    && At(ts, i, c.Yield(g.words)) && x.next == i + |c.Yield(g.words)|
  }

  lemma {:induction false} NotSound<L(!new), P(!new)>(g: Language<L, P>, ts: seq<Tok<L>>, i: nat) returns (c: Cst<P>)
    requires Lawful(g) && ParseNot(g, ts, i).Some?
    ensures Justifies(g, c, ts, i, ParseNot(g, ts, i).value, 2)
    decreases |ts| - i, 0
  {
    hide At, Lawful;
    match ts[i]
    case NotOp =>
      var d := NotSound(g, ts, i + 1);
      c := NotNode(d);
      AtOne(ts, i, NotOp);
      AtJoin(ts, i, [NotOp], d.Yield(g.words));
    case LParen =>
      var d := ExprSound(g, ts, i + 1);
      c := Paren(d);
      var y := d.Yield(g.words);
      AtOne(ts, i, LParen);
      AtOne(ts, i + 1 + |y|, RParen);
      AtJoin(ts, i, [LParen], y);
      AtJoin(ts, i, [LParen] + y, [RParen]);
    case _ =>
      c := PrimSound(g, ts, i);
  }

  lemma PrimSound<L(!new), P(!new)>(g: Language<L, P>, ts: seq<Tok<L>>, i: nat) returns (c: Cst<P>)
    requires Lawful(g) && i < |ts| && !ts[i].NotOp? && !ts[i].LParen? && ParseNot(g, ts, i).Some?
    ensures Justifies(g, c, ts, i, ParseNot(g, ts, i).value, 2)
  {
    var (p, j) := g.read(ts, i).value;
    c := PrimNode(p);
  }

  lemma {:induction false} AndSound<L(!new), P(!new)>(g: Language<L, P>, ts: seq<Tok<L>>, i: nat) returns (c: Cst<P>)
    requires Lawful(g) && ParseAnd(g, ts, i).Some?
    ensures Justifies(g, c, ts, i, ParseAnd(g, ts, i).value, 1)
    decreases |ts| - i, 1
  {
    var d := NotSound(g, ts, i);
    c := AndTailSound(g, ts, i, ParseNot(g, ts, i).value, d);
  }

  lemma {:induction false} AndTailSound<L(!new), P(!new)>(g: Language<L, P>, ts: seq<Tok<L>>, i: nat,
                                              x: Parsed<P>, d: Cst<P>)
    returns (c: Cst<P>)
    requires Lawful(g) && i < x.next && Justifies(g, d, ts, i, x, 1) && AndTail(g, ts, x).Some?
    ensures Justifies(g, c, ts, i, AndTail(g, ts, x).value, 1)
    decreases |ts| - x.next, 1
  {
    hide At, Lawful;
    c := d;
    if x.next < |ts| && ts[x.next] == AndOp {
      var r := NotSound(g, ts, x.next + 1);
      var y := ParseNot(g, ts, x.next + 1).value;
      JoinSound(ts, i, d.Yield(g.words), AndOp, r.Yield(g.words));
      c := AndTailSound(g, ts, i, Parsed(And(x.e, y.e), y.next), AndNode(d, r));
    }
  }

  lemma {:induction false} ExprSound<L(!new), P(!new)>(g: Language<L, P>, ts: seq<Tok<L>>, i: nat) returns (c: Cst<P>)
    requires Lawful(g) && ParseExpr(g, ts, i).Some?
    ensures Justifies(g, c, ts, i, ParseExpr(g, ts, i).value, 0)
    decreases |ts| - i, 3
  {
    var d := AndSound(g, ts, i);
    c := OrTailSound(g, ts, i, ParseAnd(g, ts, i).value, d);
  }

  lemma {:induction false} OrTailSound<L(!new), P(!new)>(g: Language<L, P>, ts: seq<Tok<L>>, i: nat,
                                              x: Parsed<P>, d: Cst<P>)
    returns (c: Cst<P>)
    requires Lawful(g) && i < x.next && Justifies(g, d, ts, i, x, 0) && OrTail(g, ts, x).Some?
    ensures Justifies(g, c, ts, i, OrTail(g, ts, x).value, 0)
    decreases |ts| - x.next, 3
  {
    hide At, Lawful;
    c := d;
    if x.next < |ts| && ts[x.next] == OrOp {
      var r := AndSound(g, ts, x.next + 1);
      var y := ParseAnd(g, ts, x.next + 1).value;
      JoinSound(ts, i, d.Yield(g.words), OrOp, r.Yield(g.words));
      c := OrTailSound(g, ts, i, Parsed(Or(x.e, y.e), y.next), OrNode(d, r));
    }
  }

  lemma JoinSound<T>(ts: seq<T>, i: nat, a: seq<T>, op: T, b: seq<T>)
    requires At(ts, i, a) && i + |a| < |ts| && ts[i + |a|] == op && At(ts, i + |a| + 1, b)
    ensures At(ts, i, a + [op] + b)
  {
    AtOne(ts, i + |a|, op);
    AtJoin(ts, i, a, [op]);
    AtJoin(ts, i, a + [op], b);
  }

  lemma {:induction false} YieldHasNoEnd<L(!new), P(!new)>(g: Language<L, P>, c: Cst<P>)
    ensures forall k | 0 <= k < |c.Yield(g.words)| :: !c.Yield(g.words)[k].End?
  {
    match c
    case OrNode(l, r) => YieldHasNoEnd(g, l); YieldHasNoEnd(g, r);
    case AndNode(l, r) => YieldHasNoEnd(g, l); YieldHasNoEnd(g, r);
    case NotNode(d) => YieldHasNoEnd(g, d);
    case Paren(d) => YieldHasNoEnd(g, d);
    case PrimNode(_) =>
  }

  /** The parser accepts exactly the documented grammar, and returns the tree of the derivation. */
  lemma AcceptsExactlyTheGrammar<L(!new), P(!new)>(g: Language<L, P>, ts: seq<Tok<L>>, e: Expr<P>)
    requires Lawful(g) && Closed(ts)
    ensures ParseAll(g, ts) == Some(e) <==>
            exists c: Cst<P> :: c.Derives(g.valid) && ts == c.Yield(g.words) + [End] && c.Strip() == e
  {
    if ParseAll(g, ts) == Some(e) {
      var c := ExprSound(g, ts, 0);
      var j := |c.Yield(g.words)|;
      assert j == |ts| - 1;
      assert ts == ts[..j] + [ts[j]];
      assert c.Derives(g.valid) && ts == c.Yield(g.words) + [End] && c.Strip() == e;
    }
    forall c: Cst<P> | c.Derives(g.valid) && ts == c.Yield(g.words) + [End]
      ensures ParseAll(g, ts) == Some(c.Strip())
    {
      var j := |c.Yield(g.words)|;
      assert ts[0..j] == c.Yield(g.words) && ts[j] == End;
      ExprReads(g, c, ts, 0);
    }
  }

  // ----- printing -----

  /** The derivation of e with parentheses only where the levels demand them. */
  function Printed<P>(e: Expr<P>): (c: Cst<P>)
    ensures c.Strip() == e
    decreases e, 0
  {
    match e
    case Or(l, r) => OrNode(Printed(l), Fitted(r, 1))
    case And(l, r) => AndNode(Fitted(l, 1), Fitted(r, 2))
    case Not(x) => NotNode(Fitted(x, 2))
    case Prim(p) => PrimNode(p)
  }

  function Fitted<P>(e: Expr<P>, level: nat): (c: Cst<P>)
    requires level <= 2
    ensures c.Strip() == e && c.Level() >= level
    decreases e, 1
  {
    if Printed(e).Level() >= level then Printed(e) else Paren(Printed(e))
  }

  predicate AllValid<P>(e: Expr<P>, valid: P -> bool) {
    match e
    case And(l, r) => AllValid(l, valid) && AllValid(r, valid)
    case Or(l, r) => AllValid(l, valid) && AllValid(r, valid)
    case Not(x) => AllValid(x, valid)
    case Prim(p) => valid(p)
  }

  lemma {:induction false} PrintedDerives<P>(e: Expr<P>, valid: P -> bool)
    requires AllValid(e, valid)
    ensures Printed(e).Derives(valid)
  {
    match e
    case Or(l, r) => PrintedDerives(l, valid); PrintedDerives(r, valid);
    case And(l, r) => PrintedDerives(l, valid); PrintedDerives(r, valid);
    case Not(x) => PrintedDerives(x, valid);
    case Prim(_) =>
  }

  /** Printing a tree with minimal parentheses and parsing the tokens gives the tree back. */
  lemma PrintThenParse<L(!new), P(!new)>(g: Language<L, P>, e: Expr<P>)
    requires Lawful(g) && AllValid(e, g.valid)
    ensures ParseAll(g, Printed(e).Yield(g.words) + [End]) == Some(e)
  {
    PrintedDerives(e, g.valid);
    YieldHasNoEnd(g, Printed(e));
    AcceptsExactlyTheGrammar(g, Printed(e).Yield(g.words) + [End], e);
  }

  /** No derivation of the same tree at that level is shorter than the printed one. */
  lemma {:induction false} PrintedIsShortest<L, P>(c: Cst<P>, level: nat, valid: P -> bool, words: P -> seq<L>)
    requires level <= 2 && c.Level() >= level && c.Derives(valid)
    ensures |Fitted(c.Strip(), level).Yield(words)| <= |c.Yield(words)|
  {
    match c
    case OrNode(l, r) => PrintedIsShortest(l, 0, valid, words); PrintedIsShortest(r, 1, valid, words);
    case AndNode(l, r) => PrintedIsShortest(l, 1, valid, words); PrintedIsShortest(r, 2, valid, words);
    case NotNode(d) => PrintedIsShortest(d, 2, valid, words);
    case Paren(d) => PrintedIsShortest(d, 0, valid, words);
    case PrimNode(_) =>
  }

  lemma {:induction false} StripIsValid<P>(c: Cst<P>, valid: P -> bool)
    requires c.Derives(valid)
    ensures AllValid(c.Strip(), valid)
  {
    match c
    case OrNode(l, r) => StripIsValid(l, valid); StripIsValid(r, valid);
    case AndNode(l, r) => StripIsValid(l, valid); StripIsValid(r, valid);
    case NotNode(d) => StripIsValid(d, valid);
    case Paren(d) => StripIsValid(d, valid);
    case PrimNode(_) =>
  }

  /** Only valid primitives come out of the parser. */
  lemma ParsedIsValid<L(!new), P(!new)>(g: Language<L, P>, ts: seq<Tok<L>>)
    requires Lawful(g) && ParseAll(g, ts).Some?
    ensures AllValid(ParseAll(g, ts).value, g.valid)
  {
    var c := ExprSound(g, ts, 0);
    StripIsValid(c, g.valid);
  }
}
