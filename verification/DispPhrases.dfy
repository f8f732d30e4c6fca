/**
  The display filter's texts, word for word (src/c/dispfilter.h): which token each word and sign is,
  and which comparison a field name, an operator and a literal make, for all literals.
 */
module DispPhrases {
  import opened Words
  import opened Text
  import opened Lexing
  import opened DispLanguage
  import opened Literals
  import opened Phrases
  import DispFilter
  import DispLexer
  import I6 = Ipv6Literal
  import G = Grammar

  // ----- words -----

  lemma SignsAreSpelled()
    ensures DispLexer.Spells("(", G.LParen) && DispLexer.Spells(")", G.RParen) && DispLexer.Spells("!", G.NotOp)
    ensures DispLexer.Spells("&&", G.AndOp) && DispLexer.Spells("||", G.OrOp)
    ensures DispLexer.Spells("==", G.Word(EqOp)) && DispLexer.Spells("!=", G.Word(NeOp))
  {
    var signs := DispLexer.SYMBOLS;
    assert signs[0] == ("(", G.LParen) && signs[1] == (")", G.RParen) && signs[2] == ("!", G.NotOp);
    assert signs[3] == ("&&", G.AndOp) && signs[4] == ("||", G.OrOp);
    assert signs[5] == ("==", G.Word(EqOp)) && signs[6] == ("!=", G.Word(NeOp));
  }

  lemma OperatorsAreSpelled()
    ensures DispLexer.Spells("and", G.AndOp) && DispLexer.Spells("or", G.OrOp) && DispLexer.Spells("not", G.NotOp)
  {
    var words := DispLexer.KEYWORDS;
    assert words[0] == ("and", G.AndOp) && words[1] == ("or", G.OrOp) && words[2] == ("not", G.NotOp);
  }

  /** The fields by name: the layer, a dot, and which end. */
  function FieldText(f: Field): string {
    match f
    case Field(Eth, Source) => "eth.src"
    case Field(Eth, Destination) => "eth.dst"
    case Field(Eth, Either) => "eth.addr"
    case Field(Ipv4L, Source) => "ip.src"
    case Field(Ipv4L, Destination) => "ip.dst"
    case Field(Ipv4L, Either) => "ip.addr"
    case Field(Ipv6L, Source) => "ipv6.src"
    case Field(Ipv6L, Destination) => "ipv6.dst"
    case Field(Ipv6L, Either) => "ipv6.addr"
    case Field(Tcp, Source) => "tcp.srcport"
    case Field(Tcp, Destination) => "tcp.dstport"
    case Field(Tcp, Either) => "tcp.port"
    case Field(Udp, Source) => "udp.srcport"
    case Field(Udp, Destination) => "udp.dstport"
    case Field(Udp, Either) => "udp.port"
  }

  lemma AddressFieldsAreSpelled(f: Field)
    requires f.layer.Eth? || f.layer.Ipv4L?
    ensures DispLexer.Spells(FieldText(f), G.Word(FieldName(f)))
  {
    var words := DispLexer.KEYWORDS;
    assert words[3].0 == "eth.src" && words[4].0 == "eth.dst" && words[5].0 == "eth.addr";
    assert words[6].0 == "ip.src" && words[7].0 == "ip.dst" && words[8].0 == "ip.addr";
    var k := (if f.layer.Eth? then 3 else 6) + (match f.side case Source => 0 case Destination => 1 case Either => 2);
    assert words[k] == (FieldText(f), G.Word(FieldName(f)));
  }

  lemma Ipv6FieldsAreSpelled(f: Field)
    requires f.layer.Ipv6L?
    ensures DispLexer.Spells(FieldText(f), G.Word(FieldName(f)))
  {
    var words := DispLexer.KEYWORDS;
    assert words[9].0 == "ipv6.src" && words[10].0 == "ipv6.dst" && words[11].0 == "ipv6.addr";
    var k := 9 + (match f.side case Source => 0 case Destination => 1 case Either => 2);
    assert words[k] == (FieldText(f), G.Word(FieldName(f)));
  }

  lemma PortFieldsAreSpelled(f: Field)
    requires f.layer.Tcp? || f.layer.Udp?
    ensures DispLexer.Spells(FieldText(f), G.Word(FieldName(f)))
  {
    var words := DispLexer.KEYWORDS;
    assert words[12].0 == "tcp.srcport" && words[13].0 == "tcp.dstport" && words[14].0 == "tcp.port";
    assert words[15].0 == "udp.srcport" && words[16].0 == "udp.dstport" && words[17].0 == "udp.port";
    var k := (if f.layer.Tcp? then 12 else 15) + (match f.side case Source => 0 case Destination => 1 case Either => 2);
    assert words[k] == (FieldText(f), G.Word(FieldName(f)));
  }

  lemma FieldIsSpelled(f: Field)
    ensures DispLexer.Spells(FieldText(f), G.Word(FieldName(f)))
  {
    hide *;
    match f.layer
    case Eth => AddressFieldsAreSpelled(f);
    case Ipv4L => AddressFieldsAreSpelled(f);
    case Ipv6L => Ipv6FieldsAreSpelled(f);
    case _ => PortFieldsAreSpelled(f);
  }

  lemma Lone(w: string, t: Token)
    requires |w| > 0 && DispLexer.Spells(w, t)
    ensures Tokens(DispLexer.LEXER, w, 0) == Some([t])
  {
    DispLexer.LexerIsLawful();
    hide Lexing.Lawful, DispLexer.Spells;
    LoneSpelling(DispLexer.LEXER, w, t);
  }

  /** The words and signs of the language other than field names. */
  lemma WordsMean()
    ensures Tokens(DispLexer.LEXER, "and", 0) == Some([G.AndOp])
    ensures Tokens(DispLexer.LEXER, "or", 0) == Some([G.OrOp])
    ensures Tokens(DispLexer.LEXER, "not", 0) == Some([G.NotOp])
    ensures Tokens(DispLexer.LEXER, "(", 0) == Some([G.LParen])
    ensures Tokens(DispLexer.LEXER, ")", 0) == Some([G.RParen])
    ensures Tokens(DispLexer.LEXER, "!", 0) == Some([G.NotOp])
    ensures Tokens(DispLexer.LEXER, "&&", 0) == Some([G.AndOp])
    ensures Tokens(DispLexer.LEXER, "||", 0) == Some([G.OrOp])
    ensures Tokens(DispLexer.LEXER, "==", 0) == Some([G.Word(EqOp)])
    ensures Tokens(DispLexer.LEXER, "!=", 0) == Some([G.Word(NeOp)])
  {
    OperatorsAreSpelled();
    SignsAreSpelled();
    hide *;
    Lone("and", G.AndOp); Lone("or", G.OrOp); Lone("not", G.NotOp);
    Lone("(", G.LParen); Lone(")", G.RParen); Lone("!", G.NotOp);
    Lone("&&", G.AndOp); Lone("||", G.OrOp);
    Lone("==", G.Word(EqOp)); Lone("!=", G.Word(NeOp));
  }

  lemma FieldStarts(f: Field)
    ensures |FieldText(f)| > 0 && 'a' <= FieldText(f)[0] <= 'z'
  {
  }

  /** Every field name is its field's token. */
  lemma FieldsMean(f: Field)
    ensures Tokens(DispLexer.LEXER, FieldText(f), 0) == Some([G.Word(FieldName(f))])
  {
    hide *;
    FieldStarts(f);
    FieldIsSpelled(f);
    Lone(FieldText(f), G.Word(FieldName(f)));
  }

  /** Letters, digits, dots and underscores, not beginning with a digit. */
  predicate IsName(w: string) {
    && |w| > 0 && !('0' <= w[0] <= '9')
    && forall k | 0 <= k < |w| :: 'a' <= w[k] <= 'z' || 'A' <= w[k] <= 'Z' || '0' <= w[k] <= '9' || w[k] in "_."
  }

  ghost predicate IsWord(w: string) {
    w == "and" || w == "or" || w == "not" || exists f :: w == FieldText(f)
  }

  lemma KeywordIsWord(k: nat)
    requires k < |DispLexer.KEYWORDS|
    ensures IsWord(DispLexer.KEYWORDS[k].0)
  {
    if k >= 3 {
      var layer := match (k - 3) / 3 case 0 => Eth case 1 => Ipv4L case 2 => Ipv6L case 3 => Tcp case _ => Udp;
      var side := match (k - 3) % 3 case 0 => Source case 1 => Destination case _ => Either;
      assert DispLexer.KEYWORDS[k].0 == FieldText(Field(layer, side));
    }
  }

  /** There are no other words: a name outside these eighteen does not lex. */
  lemma NoOtherNames(w: string)
    requires IsName(w) && !IsWord(w)
    ensures Tokens(DispLexer.LEXER, w, 0) == None
  {
    hide IsWord, Tokens, DispLexer.LEXER, DispLexer.KEYWORDS, DispLexer.NameToken;
    if DispLexer.NameToken(w).Some? {
      DispLexer.NameIsListed(w);
      var k: nat :| k < |DispLexer.KEYWORDS| && DispLexer.KEYWORDS[k] == (w, DispLexer.NameToken(w).value);
      KeywordIsWord(k);
    }
    DispLexer.WholeName(w);
  }

  lemma DisplayConnects()
    ensures Usable(DispLexer.LEXER, DISPLAY)
  {
    SignsAreSpelled();
    OperatorsAreSpelled();
    DispLexer.LexerIsLawful();
    DisplayIsLawful();
    hide DispLexer.Spells, Lexing.Lawful, G.Lawful, DispLexer.KEYWORDS, DispLexer.SYMBOLS;
  }

  // ----- comparisons -----

  /** The word is a literal for the value. */
  predicate Writes(w: string, v: Value) {
    match v
    case MacValue(m) => MacOf(w) == Some(m)
    case Ipv4Value(a) => Ipv4Of(w) == Some(a)
    case Ipv6Value(a) => I6.Ipv6Of(w) == Some(a)
    case PortValue(n) => |w| > 0 && AllDigits(w) && DecValue(w) == n
  }

  lemma LiteralIsSpelled(w: string, v: Value)
    requires Writes(w, v)
    ensures DispLexer.Spells(w, G.Word(ValueWord(v)))
  {
    hide DispLexer.KEYWORDS, DispLexer.SYMBOLS, MacOf, Ipv4Of, I6.Ipv6Of, DecValue;
  }

  lemma LiteralIsNotEmpty(w: string, v: Value)
    requires Writes(w, v)
    ensures |w| > 0
  {
    hide MacOf, Ipv4Of, I6.Ipv6Of, DecValue;
    match v
    case MacValue(m) => DispLexer.MacWord(w, m);
    case Ipv4Value(a) => Ipv4Letters(w);
    case Ipv6Value(a) => DispLexer.Ipv6Word(w, a);
    case PortValue(_) =>
  }

  lemma LiteralToken(w: string, v: Value)
    requires Writes(w, v)
    ensures Tokens(DispLexer.LEXER, w, 0) == Some([G.Word(ValueWord(v))])
  {
    hide *;
    LiteralIsNotEmpty(w, v);
    LiteralIsSpelled(w, v);
    Lone(w, G.Word(ValueWord(v)));
  }

  function OpText(equal: bool): string {
    if equal then "==" else "!="
  }

  function OpToken(equal: bool): Token {
    G.Word(if equal then EqOp else NeOp)
  }

  lemma OpIsSpelled(equal: bool)
    ensures |OpText(equal)| > 0 && DispLexer.Spells(OpText(equal), OpToken(equal))
    ensures forall c :: !DispLexer.Sticks(OpText(equal), c)
  {
    SignsAreSpelled();
    hide DispLexer.Spells;
  }

  /** An operator and a literal, with a blank between them or not. */
  lemma OpThenLiteral(equal: bool, gap: string, w: string, v: Value)
    requires Writes(w, v) && Gap(gap)
    ensures Tokens(DispLexer.LEXER, OpText(equal) + (gap + w), 0) == Some([OpToken(equal), G.Word(ValueWord(v))])
  {
    hide Writes, Tokens, OpText, OpToken, ValueWord, Gap, Lexing.Lawful, DispLexer.Sticks, DispLexer.Spells;
    DispLexer.LexerIsLawful();
    LiteralToken(w, v);
    GapThen(DispLexer.LEXER, gap, w);
    OpIsSpelled(equal);
    WordThen(DispLexer.LEXER, OpText(equal), OpToken(equal), gap + w);
    assert [OpToken(equal)] + [G.Word(ValueWord(v))] == [OpToken(equal), G.Word(ValueWord(v))];
  }

  lemma FieldEnds(f: Field, equal: bool, gap: string, rest: string)
    requires Gap(gap)
    ensures !DispLexer.Sticks(FieldText(f), (gap + (OpText(equal) + rest))[0])
  {
    FieldStarts(f);
    var c := (gap + (OpText(equal) + rest))[0];
    assert c == ' ' || c == '=' || c == '!';
  }

  /** A field name, an operator and a literal, with blanks around the operator or without. */
  function ComparisonText(f: Field, equal: bool, gap: string, w: string): string {
    FieldText(f) + (gap + (OpText(equal) + (gap + w)))
  }

  lemma ComparisonTokens(f: Field, equal: bool, gap: string, w: string, v: Value)
    requires Writes(w, v) && Gap(gap)
    ensures Tokens(DispLexer.LEXER, ComparisonText(f, equal, gap, w), 0)
         == Some([G.Word(FieldName(f)), OpToken(equal), G.Word(ValueWord(v))])
  {
    hide Writes, Tokens, OpText, OpToken, ValueWord, Gap, FieldText, Lexing.Lawful, DispLexer.Sticks, DispLexer.Spells;
    DispLexer.LexerIsLawful();
    OpThenLiteral(equal, gap, w, v);
    GapThen(DispLexer.LEXER, gap, OpText(equal) + (gap + w));
    FieldEnds(f, equal, gap, gap + w);
    FieldStarts(f);
    FieldIsSpelled(f);
    WordThen(DispLexer.LEXER, FieldText(f), G.Word(FieldName(f)), gap + (OpText(equal) + (gap + w)));
    var rest := [OpToken(equal), G.Word(ValueWord(v))];
    assert [G.Word(FieldName(f))] + rest == [G.Word(FieldName(f)), rest[0], rest[1]];
  }

  /** A text that is this comparison wherever a comparison may stand, and by itself is the filter. */
  ghost predicate Means(text: string, c: Comparison) {
    && Phrase(DispLexer.LEXER, DISPLAY, 2, text, G.Prim(c))
    && DispFilter.FilterOf(text) == Some(G.Prim(c))
  }

  lemma TokensMean(text: string, ts: seq<Token>, c: Comparison)
    requires Tokens(DispLexer.LEXER, text, 0) == Some(ts) && |ts| < 256 && ReadComparison(ts, 0) == Some((c, |ts|))
    ensures Means(text, c)
  {
    DisplayConnects();
    hide Lexing.Lawful, G.Lawful, Connects, Tokens, ReadComparison, Phrase, DispLexer.LEXER;
    PrimitivePhrase(DispLexer.LEXER, DISPLAY, text, ts, c);
    Weaker(DispLexer.LEXER, DISPLAY, 2, 0, text, G.Prim(c));
    PhrasesDenote(DispLexer.LEXER, DISPLAY, text, G.Prim(c));
  }

  /**
    A field name, an operator and a literal of the field's kind are that comparison; with a literal
    of another kind they are no filter.
   */
  lemma ComparisonMeans(f: Field, equal: bool, gap: string, w: string, v: Value)
    requires Writes(w, v) && Gap(gap)
    ensures Typed(Comparison(f, equal, v)) ==> Means(ComparisonText(f, equal, gap, w), Comparison(f, equal, v))
    ensures !Typed(Comparison(f, equal, v)) ==> DispFilter.FilterOf(ComparisonText(f, equal, gap, w)) == None
  {
    hide Writes, Gap, ComparisonText, Tokens, Means, DispLexer.LEXER;
    var text, ts := ComparisonText(f, equal, gap, w), [G.Word(FieldName(f)), OpToken(equal), G.Word(ValueWord(v))];
    ComparisonTokens(f, equal, gap, w, v);
    if Typed(Comparison(f, equal, v)) {
      TokensMean(text, ts, Comparison(f, equal, v));
    } else {
      NoPhrase(DispLexer.LEXER, DISPLAY, text, ts);
    }
  }
}
