/** The display filter: compilation and evaluation over decoded fields (src/c/dispfilter.c). */
module DispFilter {
  import opened Words
  import opened Literals
  import opened DispLanguage
  import opened Lexing
  import DispLexer
  import DispParser
  import Phrases
  import G = Grammar

  /** dispfilter_fields_t */
  datatype Fields = Fields(
    ethSrc: Bytes6, ethDst: Bytes6,
    hasIp: bool, ipSrc: Bytes4, ipDst: Bytes4,
    hasIpv6: bool, ipv6Src: Bytes16, ipv6Dst: Bytes16,
    hasTcp: bool, tcpSrc: u16, tcpDst: u16,
    hasUdp: bool, udpSrc: u16, udpDst: u16)

  /** The value at the asked side or sides equals the literal. */
  predicate SideIs<T(==)>(side: Side, src: T, dst: T, v: T) {
    match side
    case Source => src == v
    case Destination => dst == v
    case Either => src == v || dst == v
  }

  predicate HasLayer(f: Fields, layer: Layer) {
    match layer
    case Eth => true
    case Ipv4L => f.hasIp
    case Ipv6L => f.hasIpv6
    case Tcp => f.hasTcp
    case Udp => f.hasUdp
  }

  /** The `eq` of eval_cmp; reading the literal needs the union member the parser wrote. */
  predicate FieldEquals(c: Comparison, f: Fields)
    requires Typed(c)
  {
    match c.field.layer
    case Eth => SideIs(c.field.side, f.ethSrc, f.ethDst, c.value.mac)
    case Ipv4L => f.hasIp && SideIs(c.field.side, f.ipSrc, f.ipDst, c.value.ipv4)
    case Ipv6L => f.hasIpv6 && SideIs(c.field.side, f.ipv6Src, f.ipv6Dst, c.value.ipv6)
    case Tcp => f.hasTcp && SideIs(c.field.side, f.tcpSrc, f.tcpDst, c.value.port)
    case Udp => f.hasUdp && SideIs(c.field.side, f.udpSrc, f.udpDst, c.value.port)
  }

  /** eval_cmp */
  predicate EvalCmp(c: Comparison, f: Fields)
    requires Typed(c)
  {
    if c.equal then FieldEquals(c, f) else !FieldEquals(c, f)
  }

  /** eval_node */
  predicate Eval(e: Filter, f: Fields)
    requires WellTyped(e)
  {
    match e
    case And(l, r) => Eval(l, f) && Eval(r, f)
    case Or(l, r) => Eval(l, f) || Eval(r, f)
    case Not(x) => !Eval(x, f)
    case Prim(c) => EvalCmp(c, f)
  }

  /** `!=` on an absent layer is true, although the header promises that it is false ... */
  lemma NotEqualOnAbsentLayer(f: Fields)
    requires !f.hasTcp
    ensures EvalCmp(Comparison(Field(Tcp, Either), false, PortValue(443)), f)
  {
  }

  /** ... a comparison on an absent layer is false exactly when it asks for equality. */
  lemma AbsentLayerIsFalseOnlyForEqual(c: Comparison, f: Fields)
    requires Typed(c) && !HasLayer(f, c.field.layer)
    ensures !EvalCmp(c, f) <==> c.equal
  {
  }

  /** dispfilter_t, an error, or the lexer's overrun; an empty text matches everything. */
  datatype Result = MatchAll | Matcher(root: Filter) | Rejected | OverranTokens

  function FilterOf(text: string): Option<Filter> {
    Phrases.Denotes(DispLexer.LEXER, DISPLAY, text)
  }

  function CompileSpec(text: Option<string>): Result {
    if text.None? || text.value == "" then MatchAll
    else if Outcome(Tokens(DispLexer.LEXER, text.value, 0)).Overrun? then OverranTokens
    else match FilterOf(text.value)
      case None => Rejected
      case Some(e) => if Nodes(e) > DispParser.MAX_NODES then Rejected else Matcher(e)
  }

  /** Whatever compiles is well typed, so evaluating it reads only what the parser wrote. */
  lemma CompiledIsWellTyped(text: Option<string>)
    requires CompileSpec(text).Matcher?
    ensures WellTyped(CompileSpec(text).root)
  {
    DisplayIsLawful();
    G.ParsedIsValid(DISPLAY, Outcome(Tokens(DispLexer.LEXER, text.value, 0)).toks);
  }

  /** The expression that the pointers of an arena position lead to. */
  function TreeOf(pool: seq<DispParser.Slot>, i: int): Option<Filter>
    decreases i
  {
    if !(0 <= i < |pool|) then None
    else
      var slot := pool[i];
      match slot.kind
      case KCmp(c) => Some(G.Prim(c))
      case KNot =>
        if slot.left >= i then None
        else (match TreeOf(pool, slot.left)
              case None => None
              case Some(x) => Some(G.Not(x)))
      case _ =>
        if slot.left >= i || slot.right >= i then None
        else (match (TreeOf(pool, slot.left), TreeOf(pool, slot.right))
              case (Some(l), Some(r)) => Some(if slot.kind == DispParser.KAnd then G.And(l, r) else G.Or(l, r))
              case _ => None)
  }

  lemma {:induction false} TreeIsHeld(pool: seq<DispParser.Slot>, i: int, e: Filter)
    requires DispParser.Holds(pool, i, e)
    ensures TreeOf(pool, i) == Some(e)
    decreases e
  {
    match e
    case And(l, r) => TreeIsHeld(pool, pool[i].left, l); TreeIsHeld(pool, pool[i].right, r);
    case Or(l, r) => TreeIsHeld(pool, pool[i].left, l); TreeIsHeld(pool, pool[i].right, r);
    case Not(x) => TreeIsHeld(pool, pool[i].left, x);
    case Prim(_) =>
  }

  /** dispfilter_compile */
  method Compile(text: Option<string>) returns (r: Result)
    ensures r == CompileSpec(text)
    ensures r == MatchAll <==> text == None || text == Some("")
    ensures r == OverranTokens <==>
            && text.Some? && Tokens(DispLexer.LEXER, text.value, 0).Some?
            && |Tokens(DispLexer.LEXER, text.value, 0).value| == 256
  {
    ResultsExactlyWhen(text);
    if text.None? || text.value == "" {
      return MatchAll;
    }
    var lexed := DispLexer.Lex(text.value);
    DispLexer.LexerIsLawful();
    StaysInsideUnless256(DispLexer.LEXER, text.value);
    if lexed.Overrun? {
      return OverranTokens;
    }
    if lexed.BadInput? {
      return Rejected;
    }
    var ts := lexed.toks;
    var parser := new DispParser.Parser(ts);
    var root := parser.ParseExpr();
    if !parser.failed && !ts[parser.pos].End? {
      parser.failed := true;
    }
    if parser.failed {
      return Rejected;
    }
    TreeIsHeld(parser.pool, root, G.ParseExpr(DISPLAY, ts, 0).value.e);
    return Matcher(TreeOf(parser.pool, root).value);
  }

  /** dispfilter_matches */
  predicate Matches(filter: Result, f: Fields)
    requires filter.Matcher? ==> WellTyped(filter.root)
  {
    filter.Matcher? ==> Eval(filter.root, f)
  }

  // ----- text -----

  function FilterTokens(e: Filter): (ts: seq<Token>)
    ensures Writable(ts)
  {
    G.YieldHasNoEnd(DISPLAY, G.Printed(e));
    G.Printed(e).Yield(DISPLAY.words)
  }

  /** A filter written out: minimal parentheses, one blank behind each token. */
  function FilterText(e: Filter): string {
    Render(DispLexer.LEXER, FilterTokens(e))
  }

  /** Every well-typed filter within the token limit is denoted by its own text. */
  lemma TextDenotesFilter(e: Filter)
    requires WellTyped(e) && |FilterTokens(e)| <= 255
    ensures FilterOf(FilterText(e)) == Some(e)
  {
    DispLexer.LexerIsLawful();
    RenderLexes(DispLexer.LEXER, FilterText(e), 0, FilterTokens(e));
    DisplayIsLawful();
    G.PrintThenParse(DISPLAY, e);
  }

  /** Every node has a token of its own, so the arena holds what the token buffer held. */
  lemma {:induction false} NodesHaveTokens(c: G.Cst<Comparison>)
    ensures Nodes(c.Strip()) <= |c.Yield(ComparisonWords)|
  {
    match c
    case OrNode(l, r) => NodesHaveTokens(l); NodesHaveTokens(r);
    case AndNode(l, r) => NodesHaveTokens(l); NodesHaveTokens(r);
    case NotNode(d) => NodesHaveTokens(d);
    case Paren(d) => NodesHaveTokens(d);
    case PrimNode(_) =>
  }

  /** So every well-typed filter within the token limit compiles from its own text. */
  lemma TextCompiles(e: Filter)
    requires WellTyped(e) && |FilterTokens(e)| <= 255
    ensures CompileSpec(Some(FilterText(e))) == Matcher(e)
  {
    TextDenotesFilter(e);
    EmptyTextIsNoFilter();
    NodesHaveTokens(G.Printed(e));
  }

  /** The arena is never the reason to reject a text. */
  lemma ParsedFits(text: string)
    requires FilterOf(text).Some?
    ensures Nodes(FilterOf(text).value) <= 255
  {
    var ts := Tokens(DispLexer.LEXER, text, 0).value;
    TextIsGrammatical(text, FilterOf(text).value);
    var c: G.Cst<Comparison> :| c.Derives(Typed) && ts == c.Yield(ComparisonWords) && c.Strip() == FilterOf(text).value;
    NodesHaveTokens(c);
  }

  /** Every result, by the text alone. */
  lemma ResultsExactlyWhen(text: Option<string>)
    ensures CompileSpec(text) == MatchAll <==> text == None || text == Some("")
    ensures CompileSpec(text) == OverranTokens <==>
            && text.Some? && Tokens(DispLexer.LEXER, text.value, 0).Some?
            && |Tokens(DispLexer.LEXER, text.value, 0).value| == 256
    ensures CompileSpec(text).Matcher? <==> text.Some? && FilterOf(text.value).Some?
    ensures CompileSpec(text).Matcher? ==> CompileSpec(text).root == FilterOf(text.value).value
    ensures CompileSpec(text) == Rejected <==>
            && text.Some? && text != Some("")
            && var ts := Tokens(DispLexer.LEXER, text.value, 0);
               ts.None? || |ts.value| > 256 || (|ts.value| <= 255 && FilterOf(text.value).None?)
  {
    assert Tokens(DispLexer.LEXER, "", 0) == Some([]);
    EmptyTextIsNoFilter();
    if text.Some? && FilterOf(text.value).Some? {
      ParsedFits(text.value);
    }
    hide Tokens, G.ParseAll;
  }

  lemma EmptyTextIsNoFilter()
    ensures FilterOf("").None?
  {
  }

  /** A text is a filter exactly when its tokens are a derivation of the documented grammar. */
  lemma TextIsGrammatical(text: string, e: Filter)
    requires Outcome(Tokens(DispLexer.LEXER, text, 0)).Lexed?
    ensures FilterOf(text) == Some(e) <==>
            exists c: G.Cst<Comparison> ::
              && c.Derives(Typed)
              && Tokens(DispLexer.LEXER, text, 0).value == c.Yield(ComparisonWords)
              && c.Strip() == e
  {
    var ts := Tokens(DispLexer.LEXER, text, 0).value;
    DispLexer.LexerIsLawful();
    StaysInsideUnless256(DispLexer.LEXER, text);
    DisplayIsLawful();
    G.AcceptsExactlyTheGrammar(DISPLAY, ts + [G.End], e);
    forall c: G.Cst<Comparison>
      ensures ts + [G.End] == c.Yield(DISPLAY.words) + [G.End] <==> ts == c.Yield(ComparisonWords)
    {
      var y := c.Yield(ComparisonWords);
      if ts + [G.End] == y + [G.End] {
        assert ts == (ts + [G.End])[..|ts|] && y == (y + [G.End])[..|y|];
      }
    }
  }
}
