/** The display filter's lexer (src/c/dispfilter.c, df_lex). */
module DispLexer {
  import opened Words
  import opened Text
  import opened Scanning
  import opened Lexing
  import opened DispLanguage
  import opened Literals
  import I6 = Ipv6Literal
  import Ipv6Forms
  import G = Grammar

  const KEYWORDS: seq<(string, Token)> := [
    ("and", G.AndOp), ("or", G.OrOp), ("not", G.NotOp),
    ("eth.src", G.Word(FieldName(Field(Eth, Source)))),
    ("eth.dst", G.Word(FieldName(Field(Eth, Destination)))),
    ("eth.addr", G.Word(FieldName(Field(Eth, Either)))),
    ("ip.src", G.Word(FieldName(Field(Ipv4L, Source)))),
    ("ip.dst", G.Word(FieldName(Field(Ipv4L, Destination)))),
    ("ip.addr", G.Word(FieldName(Field(Ipv4L, Either)))),
    ("ipv6.src", G.Word(FieldName(Field(Ipv6L, Source)))),
    ("ipv6.dst", G.Word(FieldName(Field(Ipv6L, Destination)))),
    ("ipv6.addr", G.Word(FieldName(Field(Ipv6L, Either)))),
    ("tcp.srcport", G.Word(FieldName(Field(Tcp, Source)))),
    ("tcp.dstport", G.Word(FieldName(Field(Tcp, Destination)))),
    ("tcp.port", G.Word(FieldName(Field(Tcp, Either)))),
    ("udp.srcport", G.Word(FieldName(Field(Udp, Source)))),
    ("udp.dstport", G.Word(FieldName(Field(Udp, Destination)))),
    ("udp.port", G.Word(FieldName(Field(Udp, Either))))
  ]

  predicate WordChar(c: char) {
    IsLetter(c) || IsDigit(c) || c == '_' || c == '.' || c == ':'
  }

  function NameToken(w: string): Option<Token> {
    Lookup(KEYWORDS, w, 0)
  }

  /** With a colon: a MAC address, else an IPv6 address. */
  function ColonToken(w: string): Option<Token> {
    match MacOf(w)
    case Some(m) => Some(G.Word(Mac(m)))
    case None =>
      match I6.Ipv6Of(w)
      case Some(a) => Some(G.Word(Ipv6(a)))
      case None => None
  }

  /** With a leading digit: an IPv4 address, else a 32-bit number. */
  function NumberToken(w: string): Option<Token> {
    match Ipv4Of(w)
    case Some(a) => Some(G.Word(Ipv4(a)))
    case None =>
      if !AllDigits(w) || DecValue(w) > 0xFFFF_FFFF then None else Some(G.Word(Number(DecValue(w))))
  }

  function WordToken(w: string): Option<Token>
    requires |w| > 0
  {
    if !Free(w, ':') then ColonToken(w)
    else if IsDigit(w[0]) then NumberToken(w)
    else NameToken(w)
  }

  /** The token that starts at a non-blank position, and where it ends. */
  function LexOne(s: string, i: nat): (r: Option<(Token, nat)>)
    ensures r.Some? ==> i < r.value.1 <= |s|
  {
    if i >= |s| then None
    else
      var c := s[i];
      var doubled := i + 1 < |s| && s[i + 1] == c;
      if c == '(' then Some((G.LParen, i + 1))
      else if c == ')' then Some((G.RParen, i + 1))
      else if c == '&' && doubled then Some((G.AndOp, i + 2))
      else if c == '|' && doubled then Some((G.OrOp, i + 2))
      else if c == '=' && doubled then Some((G.Word(EqOp), i + 2))
      else if c == '!' && i + 1 < |s| && s[i + 1] == '=' then Some((G.Word(NeOp), i + 2))
      else if c == '!' then Some((G.NotOp, i + 1))
      else if WordChar(c) then
        var j := SpanEnd(s, i, WordChar);
        match WordToken(s[i..j])
        case None => None
        case Some(t) => Some((t, j))
      else None
  }

  /** df_lex's colon branch */
  method LexColons(w: string) returns (t: Option<Token>)
    ensures t == ColonToken(w)
  {
    var mac := ParseMacWord(w);
    if mac.Some? {
      return Some(G.Word(Mac(mac.value)));
    }
    var ipv6 := I6.ParseIpv6Word(w);
    if ipv6.Some? {
      return Some(G.Word(Ipv6(ipv6.value)));
    }
    return None;
  }

  /** df_lex's number branch */
  method LexNumber(w: string) returns (t: Option<Token>)
    ensures t == NumberToken(w)
  {
    var addr := ParseIpv4Word(w);
    if addr.Some? {
      return Some(G.Word(Ipv4(addr.value)));
    }
    for j := 0 to |w|
      invariant forall k | 0 <= k < j :: IsDigit(w[k])
    {
      if !IsDigit(w[j]) {
        return None;
      }
    }
    var v := DecValue(w);
    if v > 0xFFFF_FFFF {
      return None;
    }
    return Some(G.Word(Number(v)));
  }

  /** df_lex's word branch */
  method LexWord(s: string, start: nat) returns (t: Option<Token>, i: nat)
    requires start < |s| && WordChar(s[start])
    ensures start < i <= |s| && i == SpanEnd(s, start, WordChar) && t == WordToken(s[start..i])
  {
    i := start;
    while i < |s| && WordChar(s[i])
      invariant start <= i <= |s| && (forall k | start <= k < i :: WordChar(s[k]))
    {
      i := i + 1;
    }
    SpanIs(s, start, i, WordChar);
    var w := s[start..i];
    var hasColon := false;
    for j := 0 to |w|
      invariant !hasColon && Free(w[..j], ':')
    {
      if w[j] == ':' {
        hasColon := true;
        break;
      }
      assert w[..j + 1] == w[..j] + [w[j]];
    }
    assert w[..|w|] == w;
    if hasColon {
      t := LexColons(w);
    } else if IsDigit(w[0]) {
      t := LexNumber(w);
    } else {
      t := LookupWord(KEYWORDS, w);
    }
  }

  /** One token of df_lex's loop */
  method LexToken(s: string, start: nat) returns (t: Option<Token>, i: nat)
    requires start < |s|
    ensures match LexOne(s, start)
            case None => t == None
            case Some((t', j)) => t == Some(t') && i == j
    ensures t.Some? ==> start < i <= |s|
  {
    hide WordToken;
    var c := s[start];
    var doubled := start + 1 < |s| && s[start + 1] == c;
    if c == '(' {
      return Some(G.LParen), start + 1;
    } else if c == ')' {
      return Some(G.RParen), start + 1;
    } else if c == '&' && doubled {
      return Some(G.AndOp), start + 2;
    } else if c == '|' && doubled {
      return Some(G.OrOp), start + 2;
    } else if c == '=' && doubled {
      return Some(G.Word(EqOp)), start + 2;
    } else if c == '!' && start + 1 < |s| && s[start + 1] == '=' {
      return Some(G.Word(NeOp)), start + 2;
    } else if c == '!' {
      return Some(G.NotOp), start + 1;
    } else if WordChar(c) {
      t, i := LexWord(s, start);
    } else {
      return None, start;
    }
  }

  /** df_lex; the closing End is stored without a bounds check, as in the capture filter's lexer. */
  method Lex(s: string) returns (r: LexResult<Token>)
    ensures r == Outcome(Tokens(LEXER, s, 0))
    ensures r == Overrun <==> Tokens(LEXER, s, 0).Some? && |Tokens(LEXER, s, 0).value| == 256
    ensures r.Lexed? <==> Tokens(LEXER, s, 0).Some? && |Tokens(LEXER, s, 0).value| <= 255
    ensures r.Lexed? ==> G.Closed(r.toks)
  {
    LexerIsLawful();
    StaysInsideUnless256(LEXER, s);
    hide LexOne, Lawful, G.Closed;
    var toks: seq<Token> := [];
    var i := 0;
    assert Tokens(LEXER, s, 0).Some? ==> toks + Tokens(LEXER, s, 0).value == Tokens(LEXER, s, 0).value;
    while i < |s|
      invariant 0 <= i <= |s| && |toks| <= MAX_TOKENS
      invariant Tokens(LEXER, s, 0) == Prefixed(toks, Tokens(LEXER, s, i))
      decreases |s| - i
    {
      if IsBlank(s[i]) {
        i := i + 1;
        continue;
      }
      if |toks| >= MAX_TOKENS {
        assert Tokens(LEXER, s, i).Some? ==> |Tokens(LEXER, s, i).value| > 0;
        return BadInput;
      }
      var t, j := LexToken(s, i);
      if t.None? {
        return BadInput;
      }
      PrefixedStep(toks, t.value, Tokens(LEXER, s, j));
      toks := toks + [t.value];
      i := j;
    }
    assert toks + [] == toks;
    if |toks| == MAX_TOKENS {
      return Overrun;
    }
    return Lexed(toks + [G.End]);
  }

  // ----- soundness -----

  lemma LexOneIsNotEnd(s: string, i: nat)
    requires i < |s| && LexOne(s, i).Some?
    ensures !LexOne(s, i).value.0.End?
  {
    hide NameToken;
    if WordChar(s[i]) {
      NameIsNotEnd(s[i..SpanEnd(s, i, WordChar)]);
    }
  }

  lemma NameIsNotEnd(w: string)
    ensures NameToken(w).Some? ==> !NameToken(w).value.End?
  {
    if NameToken(w).Some? { LookupIsNotEnd(w, 0); }
  }

  lemma {:induction false} LookupIsNotEnd(w: string, k: nat)
    requires k <= |KEYWORDS| && Lookup(KEYWORDS, w, k).Some?
    ensures !Lookup(KEYWORDS, w, k).value.End?
    decreases |KEYWORDS| - k
  {
    if KEYWORDS[k].0 != w { LookupIsNotEnd(w, k + 1); }
  }

  const SYMBOLS: seq<(string, Token)> := [
    ("(", G.LParen), (")", G.RParen), ("!", G.NotOp), ("&&", G.AndOp), ("||", G.OrOp),
    ("==", G.Word(EqOp)), ("!=", G.Word(NeOp))
  ]

  /** How a token may be written. */
  predicate Spells(w: string, t: Token) {
    || (w, t) in SYMBOLS
    || (w, t) in KEYWORDS
    || (t.Word? && t.w.Mac? && MacOf(w) == Some(t.w.mac))
    || (t.Word? && t.w.Ipv6? && I6.Ipv6Of(w) == Some(t.w.ipv6))
    || (t.Word? && t.w.Ipv4? && Ipv4Of(w) == Some(t.w.ipv4))
    || (t.Word? && t.w.Number? && AllDigits(w) && DecValue(w) == t.w.n)
  }

  /** Letters, digits and `_`, `.`, `:` go on with a word; an equals sign goes on with `!`. */
  predicate Sticks(w: string, c: char) {
    && |w| > 0
    && if 'a' <= w[0] <= 'z' || 'A' <= w[0] <= 'Z' || '0' <= w[0] <= '9' || w[0] in "_.:"
       then 'a' <= c <= 'z' || 'A' <= c <= 'Z' || '0' <= c <= '9' || c in "_.:"
       else w == "!" && c == '='
  }

  lemma WordSpells(w: string)
    requires |w| > 0 && WordToken(w).Some?
    ensures Spells(w, WordToken(w).value)
  {
    hide MacOf, I6.Ipv6Of, Ipv4Of, DecValue, AllDigits, NameToken;
    if NameToken(w).Some? { NameIsListed(w); }
  }

  lemma NameIsListed(w: string)
    requires NameToken(w).Some?
    ensures (w, NameToken(w).value) in KEYWORDS
  {
    FoundIsListed(KEYWORDS, w, 0);
  }

  lemma LexOneSpells(s: string, i: nat)
    requires i < |s| && LexOne(s, i).Some?
    ensures var (t, j) := LexOne(s, i).value; Spells(s[i..j], t) && (j < |s| ==> !Sticks(s[i..j], s[j]))
  {
    hide WordToken;
    var (t, j) := LexOne(s, i).value;
    var w := s[i..j];
    if WordChar(s[i]) {
      WordSpells(w);
    } else {
      assert w == if j == i + 1 then [s[i]] else [s[i], s[i + 1]];
      assert (w, t) in SYMBOLS;
    }
  }

  // ----- every spelling is read -----

  predicate WordText(w: string) {
    |w| > 0 && forall k | 0 <= k < |w| :: WordChar(w[k])
  }

  predicate Standing(s: string, i: nat, j: nat) {
    i < j <= |s| && (j < |s| ==> !Sticks(s[i..j], s[j]))
  }

  lemma SymbolLexes(s: string, i: nat, j: nat, t: Token)
    requires Standing(s, i, j) && (s[i..j], t) in SYMBOLS
    ensures !IsBlank(s[i]) && LexOne(s, i) == Some((t, j))
  {
    hide WordToken;
    var w := s[i..j];
    assert w[0] == s[i] && (|w| > 1 ==> w[1] == s[i + 1]);
    var k :| 0 <= k < |SYMBOLS| && SYMBOLS[k] == (w, t);
    assert k == 0 || k == 1 || k == 2 || k == 3 || k == 4 || k == 5 || k == 6;
  }

  /** A word of word characters is one token: whatever the word stands for. */
  lemma WordLexes(s: string, i: nat, j: nat, t: Token)
    requires Standing(s, i, j) && WordText(s[i..j]) && WordToken(s[i..j]) == Some(t)
    ensures !IsBlank(s[i]) && LexOne(s, i) == Some((t, j))
  {
    hide WordToken;
    var w := s[i..j];
    assert forall n | i <= n < j :: s[n] == w[n - i];
    SpanIs(s, i, j, WordChar);
  }

  lemma {:induction false} JoinIsWord(gs: seq<string>, sep: char)
    requires gs != [] && (sep == ':' || sep == '.') && forall k | 0 <= k < |gs| :: WordText(gs[k])
    ensures WordText(gs[0]) && WordText(Join(gs, sep)) && Join(gs, sep)[0] == gs[0][0]
    ensures |gs| > 1 ==> !Free(Join(gs, sep), sep)
  {
    var n := |gs| - 1;
    if n > 0 {
      JoinIsWord(gs[..n], sep);
      var a := Join(gs[..n], sep);
      assert Join(gs, sep) == a + [sep] + gs[n];
      assert Join(gs, sep)[|a|] == sep;
    }
  }

  lemma HexIsWord(w: string)
    requires |w| > 0 && AllHex(w)
    ensures WordText(w)
  {
  }

  lemma MacWord(w: string, m: Bytes6)
    requires MacOf(w) == Some(m)
    ensures WordText(w) && WordToken(w) == Some(G.Word(Mac(m)))
  {
    assert w[2] == ':' && !Free(w, ':') by { assert w[3 * 0 + 2] == ':'; }
    forall k | 0 <= k < |w| ensures WordChar(w[k]) {
      var g := k / 3;
      assert HexNibble(w[3 * g]) >= 0 && HexNibble(w[3 * g + 1]) >= 0;
      if k == 3 * g + 2 { assert w[3 * g + 2] == ':'; }
    }
  }

  lemma SideIsWord(gs: seq<string>)
    requires I6.AllHextets(gs)
    ensures forall k | 0 <= k < |Join(gs, ':')| :: WordChar(Join(gs, ':')[k])
    ensures |gs| > 1 ==> !Free(Join(gs, ':'), ':')
  {
    if gs != [] {
      forall k | 0 <= k < |gs| ensures WordText(gs[k]) { HexIsWord(gs[k]); }
      JoinIsWord(gs, ':');
    }
  }

  lemma Ipv6Word(w: string, a: Bytes16)
    requires I6.Ipv6Of(w) == Some(a)
    ensures WordText(w) && WordToken(w) == Some(G.Word(Ipv6(a)))
  {
    hide Join, I6.Values, I6.Ipv6Groups, MacOf, WordChar;
    var l, r := Ipv6Forms.AcceptedForms(w);
    SideIsWord(l);
    SideIsWord(r);
    assert WordChar(':') by { ColonIsWordChar(); }
    if w == Ipv6Forms.Compressed(l, r) {
      assert w[|Join(l, ':')|] == ':';
    }
    assert !Free(w, ':');
    if MacOf(w).Some? {
      Ipv6Forms.MacIsNotIpv6(w);
    }
  }

  lemma ColonIsWordChar()
    ensures WordChar(':')
  {
  }

  lemma NumberWord(w: string, t: Token)
    requires |w| > 0 && t.Word?
    requires (t.w.Ipv4? && Ipv4Of(w) == Some(t.w.ipv4)) || (t.w.Number? && AllDigits(w) && DecValue(w) == t.w.n)
    ensures WordText(w) && WordToken(w) == Some(t)
  {
    hide Ipv4Of, DecValue, ColonToken, NameToken;
    if t.w.Ipv4? {
      Ipv4Letters(w);
    } else {
      NoDotsNoAddress(w);
    }
    assert Free(w, ':');
  }

  lemma KeywordWord(w: string, t: Token)
    requires (w, t) in KEYWORDS
    ensures WordText(w) && WordToken(w) == Some(t)
  {
    var k :| 0 <= k < |KEYWORDS| && KEYWORDS[k] == (w, t);
    KeywordShape(k);
    KeywordFound(k);
    hide NameToken;
  }

  lemma SpelledWord(w: string, t: Token)
    requires |w| > 0 && Spells(w, t) && (w, t) !in SYMBOLS
    ensures WordText(w) && WordToken(w) == Some(t)
  {
    hide WordText, WordToken, MacOf, I6.Ipv6Of, Ipv4Of, DecValue;
    if (w, t) in KEYWORDS {
      KeywordWord(w, t);
    } else if t.w.Mac? {
      MacWord(w, t.w.mac);
    } else if t.w.Ipv6? {
      Ipv6Word(w, t.w.ipv6);
    } else {
      NumberWord(w, t);
    }
  }

  lemma SpellingLexes(s: string, i: nat, j: nat, t: Token)
    requires Standing(s, i, j) && Spells(s[i..j], t)
    ensures !IsBlank(s[i]) && LexOne(s, i) == Some((t, j))
  {
    hide LexOne, Spells, WordText, WordToken, Sticks;
    if (s[i..j], t) in SYMBOLS {
      SymbolLexes(s, i, j, t);
    } else {
      SpelledWord(s[i..j], t);
      WordLexes(s, i, j, t);
    }
  }

  // ----- writing tokens -----

  predicate IsKeyword(t: Token) {
    t.AndOp? || t.OrOp? || t.NotOp? || (t.Word? && t.w.FieldName?)
  }

  /** Where a keyword sits in the table. */
  function KeywordIndex(t: Token): (k: nat)
    requires IsKeyword(t)
    ensures k < |KEYWORDS| && KEYWORDS[k].1 == t
  {
    if t.AndOp? then 0
    else if t.OrOp? then 1
    else if t.NotOp? then 2
    else
      var base := match t.w.field.layer
                  case Eth => 3 case Ipv4L => 6 case Ipv6L => 9 case Tcp => 12 case Udp => 15;
      base + match t.w.field.side case Source => 0 case Destination => 1 case Either => 2
  }

  function TokenText(t: Token): string {
    if t.End? then ""
    else if t.LParen? then "("
    else if t.RParen? then ")"
    else if IsKeyword(t) then KEYWORDS[KeywordIndex(t)].0
    else
      match t.w
      case EqOp => "=="
      case NeOp => "!="
      case Number(n) => Dec(n)
      case Ipv4(a) => PrintIpv4(a)
      case Ipv6(a) => Ipv6Forms.PrintIpv6(a)
      case Mac(m) => PrintMac(m)
  }

  /** df_lex, as a lexer. */
  const LEXER: Lexer<DispWord> := Lexer(LexOne, TokenText, Spells, Sticks)

  predicate KeywordLike(w: string) {
    WordText(w) && Free(w, ':') && !IsDigit(w[0])
  }

  lemma KeywordShape(k: nat)
    requires k < |KEYWORDS|
    ensures KeywordLike(KEYWORDS[k].0)
  {
    if k < 6 { KeywordShapeLow(k); } else if k < 12 { KeywordShapeMiddle(k); } else { KeywordShapeHigh(k); }
  }

  lemma KeywordShapeLow(k: nat)
    requires k < 6
    ensures KeywordLike(KEYWORDS[k].0)
  {
    assert k == 0 || k == 1 || k == 2 || k == 3 || k == 4 || k == 5;
  }

  lemma KeywordShapeMiddle(k: nat)
    requires 6 <= k < 12
    ensures KeywordLike(KEYWORDS[k].0)
  {
    assert k == 6 || k == 7 || k == 8 || k == 9 || k == 10 || k == 11;
  }

  lemma KeywordShapeHigh(k: nat)
    requires 12 <= k < 18
    ensures KeywordLike(KEYWORDS[k].0)
  {
    assert k == 12 || k == 13 || k == 14 || k == 15 || k == 16 || k == 17;
  }

  lemma KeywordsDiffer()
    ensures forall i, j | 0 <= i < j < |KEYWORDS| :: KEYWORDS[i].0 != KEYWORDS[j].0
  {
  }

  lemma KeywordFound(k: nat)
    requires k < |KEYWORDS|
    ensures NameToken(KEYWORDS[k].0) == Some(KEYWORDS[k].1)
  {
    KeywordsDiffer();
    LookupFinds(KEYWORDS, k, 0);
  }

  lemma TextSpells(t: Token)
    requires !t.End?
    ensures |TokenText(t)| > 0 && Spells(TokenText(t), t) && !Sticks(TokenText(t), ' ')
  {
    if t.LParen? || t.RParen? || t == G.Word(EqOp) || t == G.Word(NeOp) {
      assert SYMBOLS[0] == ("(", G.LParen) && SYMBOLS[1] == (")", G.RParen);
      assert SYMBOLS[5] == ("==", G.Word(EqOp)) && SYMBOLS[6] == ("!=", G.Word(NeOp));
    } else if IsKeyword(t) {
      var k := KeywordIndex(t);
      KeywordShape(k);
      assert KEYWORDS[k] == (TokenText(t), t);
    } else {
      LiteralSpells(t.w);
    }
  }

  lemma LiteralSpells(w: DispWord)
    requires !w.FieldName? && !w.EqOp? && !w.NeOp?
    ensures var text := TokenText(G.Word(w)); |text| > 0 && Spells(text, G.Word(w)) && !Sticks(text, ' ')
  {
    hide KeywordIndex, PrintIpv4, PrintMac, Ipv6Forms.PrintIpv6, Ipv4Of, MacOf, I6.Ipv6Of, WordToken;
    match w
    case Number(n) => DecRoundTrip(n);
    case Ipv4(a) => Ipv4RoundTrip(a); Ipv4Letters(PrintIpv4(a));
    case Ipv6(a) =>
      Ipv6Forms.Ipv6RoundTrip(a);
      Ipv6Word(Ipv6Forms.PrintIpv6(a), a);
    case Mac(m) =>
      MacRoundTrip(m);
      MacWord(PrintMac(m), m);
  }

  /** What is read is spelled out, every spelling that stands apart is read, and tokens are written as spellings. */
  lemma LexerIsLawful()
    ensures Lawful(LEXER)
  {
    hide LexOne, Spells, Sticks, TokenText;
    assert ReadsSpellings(LEXER) by {
      forall s: string, i: nat | LEXER.read(s, i).Some?
        ensures var (t, j) := LEXER.read(s, i).value;
                i < j <= |s| && !t.End? && LEXER.spells(s[i..j], t) && Apart(LEXER, s, i, j)
      {
        LexOneIsNotEnd(s, i);
        LexOneSpells(s, i);
      }
    }
    assert SpellingsAreRead(LEXER) by {
      forall s: string, i: nat, j: nat, t: Token | i < j <= |s| && LEXER.spells(s[i..j], t) && Apart(LEXER, s, i, j)
        ensures !IsBlank(s[i]) && LEXER.read(s, i) == Some((t, j))
      {
        SpellingLexes(s, i, j, t);
      }
    }
    assert WritesSpellings(LEXER) by {
      forall t: Token | !t.End?
        ensures |LEXER.text(t)| > 0 && LEXER.spells(LEXER.text(t), t) && !LEXER.sticks(LEXER.text(t), ' ')
      {
        TextSpells(t);
      }
    }
  }

  // ----- printed addresses -----

  /** An address printed by eth_mac_to_str is one MAC token with the same bytes. */
  lemma MacTextLexes(m: Bytes6)
    ensures WordText(PrintMac(m)) && WordToken(PrintMac(m)) == Some(G.Word(Mac(m)))
    ensures Tokens(LEXER, PrintMac(m), 0) == Some([G.Word(Mac(m))])
  {
    MacRoundTrip(m);
    hide *;
    MacWord(PrintMac(m), m);
    LoneWord(PrintMac(m));
  }

  /** An address printed by ip_addr_to_str is one IPv4 token with the same bytes. */
  lemma Ipv4TextLexes(a: Bytes4)
    ensures WordText(PrintIpv4(a)) && WordToken(PrintIpv4(a)) == Some(G.Word(Ipv4(a)))
    ensures Tokens(LEXER, PrintIpv4(a), 0) == Some([G.Word(Ipv4(a))])
  {
    Ipv4RoundTrip(a);
    Ipv4Letters(PrintIpv4(a));
    hide *;
    NumberWord(PrintIpv4(a), G.Word(Ipv4(a)));
    LoneWord(PrintIpv4(a));
  }

  /** An address printed by ipv6_addr_to_str is one IPv6 token with the same bytes. */
  lemma Ipv6TextLexes(a: Bytes16)
    ensures WordText(Ipv6Forms.PrintIpv6(a)) && WordToken(Ipv6Forms.PrintIpv6(a)) == Some(G.Word(Ipv6(a)))
    ensures Tokens(LEXER, Ipv6Forms.PrintIpv6(a), 0) == Some([G.Word(Ipv6(a))])
  {
    hide *;
    Ipv6Forms.Ipv6RoundTrip(a);
    Ipv6Word(Ipv6Forms.PrintIpv6(a), a);
    LoneWord(Ipv6Forms.PrintIpv6(a));
  }

  /** A text that is a single word. */
  lemma LoneWord(w: string)
    requires WordText(w) && WordToken(w).Some?
    ensures Tokens(LEXER, w, 0) == Some([WordToken(w).value])
  {
    WordSpells(w);
    LexerIsLawful();
    hide Lawful, Spells, WordToken;
    LoneSpelling(LEXER, w, WordToken(w).value);
  }

  /** A text that is one name is the name's token, or does not lex. */
  lemma WholeName(w: string)
    requires |w| > 0 && !IsDigit(w[0]) && forall k | 0 <= k < |w| :: WordChar(w[k]) && w[k] != ':'
    ensures NameToken(w) == None ==> Tokens(LEXER, w, 0) == None
  {
    SpanIs(w, 0, |w|, WordChar);
    assert w[0..|w|] == w && Free(w, ':');
    hide NameToken, Tokens;
    assert NameToken(w) == None ==> LexOne(w, 0) == None;
  }
}
