/** The capture filter from text to bytecode (src/c/capfilter.c, capfilter_compile). */
module CapFilter {
  import opened Words
  import opened Bpf
  import opened CapAst
  import opened CapLanguage
  import opened Lexing
  import CapLexer
  import CapParser
  import Codegen
  import CompilerCorrectness
  import Generator
  import Phrases
  import G = Grammar

  /** What capfilter_compile returns: nothing to attach, a program, an error, or the lexer's overrun. */
  datatype Result = AcceptAll | Program(insns: seq<Insn>) | Rejected | OverranTokens

  /** The bytecode a result stands for; an absent program accepts everything. */
  function Bytecode(r: Result): seq<Insn>
    requires r.AcceptAll? || r.Program?
  {
    if r.AcceptAll? then [] else r.insns
  }

  /** The filter a text denotes, if it is one. */
  function FilterOf(text: string): Option<Filter> {
    Phrases.Denotes(CapLexer.LEXER, CAPTURE, text)
  }

  predicate Overruns(text: string) {
    Outcome(Tokens(CapLexer.LEXER, text, 0)).Overrun?
  }

  function CompileSpec(text: Option<string>): Result {
    if text.None? || text.value == "" then AcceptAll
    else if Overruns(text.value) then OverranTokens
    else match FilterOf(text.value)
      case None => Rejected
      case Some(e) =>
        var n := Lowered(e);
        if n.Nodes() > MAX_NODES then Rejected
        else match CompilerCorrectness.Program(n)
          case None => Rejected
          case Some(p) => Program(p)
  }

  /** The tree that the pointers of an arena position lead to. */
  function TreeOf(pool: seq<CapParser.Slot>, i: int): Option<Node>
    decreases i
  {
    if !(0 <= i < |pool|) then None
    else
      var slot := pool[i];
      match slot.kind
      case KLeaf(leaf) => Some(Test(leaf))
      case KNot =>
        if slot.left >= i then None
        else (match TreeOf(pool, slot.left)
              case None => None
              case Some(x) => Some(Not(x)))
      case _ =>
        if slot.left >= i || slot.right >= i then None
        else (match (TreeOf(pool, slot.left), TreeOf(pool, slot.right))
              case (Some(l), Some(r)) => Some(if slot.kind == CapParser.KAnd then And(l, r) else Or(l, r))
              case _ => None)
  }

  lemma {:induction false} TreeIsHeld(pool: seq<CapParser.Slot>, i: int, t: Node)
    requires CapParser.Holds(pool, i, t)
    ensures TreeOf(pool, i) == Some(t)
    decreases t
  {
    match t
    case And(l, r) => TreeIsHeld(pool, pool[i].left, l); TreeIsHeld(pool, pool[i].right, r);
    case Or(l, r) => TreeIsHeld(pool, pool[i].left, l); TreeIsHeld(pool, pool[i].right, r);
    case Not(x) => TreeIsHeld(pool, pool[i].left, x);
    case Test(_) =>
  }

  /** The front half of capfilter_compile: tokens to a tree in the arena. */
  method ParseTokens(ts: seq<Token>) returns (root: Option<Node>)
    requires G.Closed(ts)
    ensures root == match G.ParseAll(CAPTURE, ts)
                    case None => None
                    case Some(e) => if Lowered(e).Nodes() > MAX_NODES then None else Some(Lowered(e))
  {
    var parser := new CapParser.Parser(ts);
    var r := parser.ParseExpr();
    if !parser.failed && !ts[parser.pos].End? {
      parser.failed := true;
    }
    if parser.failed {
      return None;
    }
    TreeIsHeld(parser.pool, r, Lowered(G.ParseExpr(CAPTURE, ts, 0).value.e));
    return TreeOf(parser.pool, r);
  }

  /** capfilter_compile */
  method Compile(text: Option<string>) returns (r: Result)
    ensures r == CompileSpec(text)
    ensures r == AcceptAll <==> text == None || text == Some("")
    ensures r == OverranTokens <==>
            && text.Some? && Tokens(CapLexer.LEXER, text.value, 0).Some?
            && |Tokens(CapLexer.LEXER, text.value, 0).value| == 256
    ensures forall pkt :: text == None || text == Some("") ==> Run(Bytecode(r), pkt) == Returned(65535)
  {
    ResultsExactlyWhen(text);
    if text.None? || text.value == "" {
      return AcceptAll;
    }
    var lexed := CapLexer.Lex(text.value);
    CapLexer.LexerIsLawful();
    StaysInsideUnless256(CapLexer.LEXER, text.value);
    if lexed.Overrun? {
      return OverranTokens;
    }
    if lexed.BadInput? {
      return Rejected;
    }
    var root := ParseTokens(lexed.toks);
    if root.None? {
      return Rejected;
    }
    var gen := new Generator.CfGen();
    CompilerCorrectness.CapacityBounds(root.value);
    var program := gen.Generate(root.value);
    return if program.None? then Rejected else Program(program.value);
  }

  /**
    The whole compiler is correct: on every frame, the program compiled from a text returns
    65535 exactly when the filter the text denotes is true of the frame, and 0 when it is
    false or the frame is too short for a field it needs.
   */
  lemma CompiledTextCorrect(text: string, pkt: Packet)
    requires CompileSpec(Some(text)).Program?
    ensures FilterOf(text).Some?
    ensures Run(CompileSpec(Some(text)).insns, pkt)
         == Returned(if Meaning(Lowered(FilterOf(text).value), pkt) == True then 65535 else 0)
  {
    CompilerCorrectness.CompiledFilterCorrect(Lowered(FilterOf(text).value), pkt);
  }

  /** An absent or empty text accepts every frame. */
  lemma EmptyTextAccepts(text: Option<string>, pkt: Packet)
    requires text == None || text == Some("")
    ensures CompileSpec(text).AcceptAll? || CompileSpec(text).Program?
    ensures Run(Bytecode(CompileSpec(text)), pkt) == Returned(65535)
  {
  }

  /** Exactly which texts compile: grammatical, short enough, and with every jump in range. */
  lemma CompilesExactlyWhen(text: string)
    ensures CompileSpec(Some(text)).Program? <==>
            && Tokens(CapLexer.LEXER, text, 0).Some? && |Tokens(CapLexer.LEXER, text, 0).value| <= 255
            && FilterOf(text).Some?
            && Lowered(FilterOf(text).value).Nodes() <= 256
            && Codegen.Fits(Lowered(FilterOf(text).value), Codegen.Len(Lowered(FilterOf(text).value)),
                            Codegen.Len(Lowered(FilterOf(text).value)) + 1)
  {
    EmptyTextIsNoFilter();
    hide Tokens, G.ParseAll, Lowered, CompilerCorrectness.Program, Codegen.Fits, Codegen.Len;
    if FilterOf(text).Some? {
      CompilerCorrectness.ProgramIsDirect(Lowered(FilterOf(text).value));
    }
  }

  /** Every result, by the text alone. */
  lemma ResultsExactlyWhen(text: Option<string>)
    ensures CompileSpec(text) == AcceptAll <==> text == None || text == Some("")
    ensures CompileSpec(text) == OverranTokens <==>
            && text.Some? && Tokens(CapLexer.LEXER, text.value, 0).Some?
            && |Tokens(CapLexer.LEXER, text.value, 0).value| == 256
    ensures CompileSpec(text) == Rejected <==>
            && text.Some? && text != Some("")
            && var ts := Tokens(CapLexer.LEXER, text.value, 0);
               || ts.None? || |ts.value| > 256
               || (|ts.value| <= 255
                   && (|| FilterOf(text.value).None?
                       || Lowered(FilterOf(text.value).value).Nodes() > 256
                       || CompilerCorrectness.Program(Lowered(FilterOf(text.value).value)).None?))
  {
    assert Tokens(CapLexer.LEXER, "", 0) == Some([]);
    hide Tokens, G.ParseAll, Lowered, CompilerCorrectness.Program;
  }

  lemma EmptyTextIsNoFilter()
    ensures FilterOf("").None?
  {
  }

  /** A filter written out: minimal parentheses, one blank behind each token. */
  function FilterText(e: Filter): string {
    Render(CapLexer.LEXER, FilterTokens(e))
  }

  function FilterTokens(e: Filter): (ts: seq<Token>)
    ensures Writable(ts)
  {
    G.YieldHasNoEnd(CAPTURE, G.Printed(e));
    G.Printed(e).Yield(CAPTURE.words)
  }

  /** Every valid filter within the token limit is denoted by its own text. */
  lemma TextDenotesFilter(e: Filter)
    requires ValidFilter(e) && |FilterTokens(e)| <= 255
    ensures FilterOf(FilterText(e)) == Some(e)
  {
    CapLexer.LexerIsLawful();
    RenderLexes(CapLexer.LEXER, FilterText(e), 0, FilterTokens(e));
    CaptureIsLawful();
    G.PrintThenParse(CAPTURE, e);
  }

  /** A text is a filter exactly when its tokens are a derivation of the documented grammar. */
  lemma TextIsGrammatical(text: string, e: Filter)
    requires Outcome(Tokens(CapLexer.LEXER, text, 0)).Lexed?
    ensures FilterOf(text) == Some(e) <==>
            exists c: G.Cst<Primitive> ::
              && c.Derives(ValidPrimitive)
              && Tokens(CapLexer.LEXER, text, 0).value == c.Yield(PrimitiveWords)
              && c.Strip() == e
  {
    var ts := Tokens(CapLexer.LEXER, text, 0).value;
    CapLexer.LexerIsLawful();
    StaysInsideUnless256(CapLexer.LEXER, text);
    CaptureIsLawful();
    G.AcceptsExactlyTheGrammar(CAPTURE, ts + [G.End], e);
    forall c: G.Cst<Primitive>
      ensures ts + [G.End] == c.Yield(CAPTURE.words) + [G.End] <==> ts == c.Yield(PrimitiveWords)
    {
      var y := c.Yield(PrimitiveWords);
      if ts + [G.End] == y + [G.End] {
        assert ts == (ts + [G.End])[..|ts|] && y == (y + [G.End])[..|y|];
      }
    }
  }
}
