/** The capture filter's lexer (src/c/capfilter.c, cf_lex). */
module CapLexer {
  import opened Words
  import opened Text
  import opened Scanning
  import opened Lexing
  import opened CapLanguage
  import Literals
  import G = Grammar

  const KEYWORDS: seq<(string, Token)> := [
    ("and", G.AndOp), ("or", G.OrOp), ("not", G.NotOp),
    ("src", G.Word(SrcKw)), ("dst", G.Word(DstKw)),
    ("host", G.Word(HostKw)), ("port", G.Word(PortKw)), ("net", G.Word(NetKw)),
    ("tcp", G.Word(ProtoKw(Tcp))), ("udp", G.Word(ProtoKw(Udp))), ("icmp", G.Word(ProtoKw(Icmp))),
    ("ip", G.Word(ProtoKw(Ip))), ("ip6", G.Word(ProtoKw(Ip6))), ("arp", G.Word(ProtoKw(Arp)))
  ]

  predicate NumberChar(c: char) {
    IsDigit(c) || c == '.'
  }

  predicate NameChar(c: char) {
    IsLetter(c) || IsDigit(c) || c == '_'
  }

  /** A word of digits and dots: an address, a 32-bit number, or an error. */
  function NumberToken(w: string): Option<Token>
    requires forall k | 0 <= k < |w| :: NumberChar(w[k])
  {
    match Literals.Ipv4Of(w)
    case Some(a) => Some(G.Word(Ipv4(a)))
    case None =>
      if !AllDigits(w) then None
      else if DecValue(w) > 0xFFFF_FFFF then None
      else Some(G.Word(Number(DecValue(w))))
  }

  /** A word of letters, digits and underscores: a keyword or an error. */
  function NameToken(w: string): Option<Token> {
    Lookup(KEYWORDS, w, 0)
  }

  /** The token that starts at a non-blank position, and where it ends. */
  function LexOne(s: string, i: nat): (r: Option<(Token, nat)>)
    ensures r.Some? ==> i < r.value.1 <= |s|
  {
    if i >= |s| then None
    else
      var c := s[i];
      var doubled := i + 1 < |s| && s[i + 1] == c;
      if c == '(' then Some((G.LParen, i + 1))
      else if c == ')' then Some((G.RParen, i + 1))
      else if c == '/' then Some((G.Word(Slash), i + 1))
      else if c == '!' then Some((G.NotOp, i + 1))
      else if c == '&' && doubled then Some((G.AndOp, i + 2))
      else if c == '|' && doubled then Some((G.OrOp, i + 2))
      else if IsDigit(c) then
        var j := SpanEnd(s, i, NumberChar);
        match NumberToken(s[i..j])
        case None => None
        case Some(t) => Some((t, j))
      else if IsLetter(c) then
        var j := SpanEnd(s, i, NameChar);
        match NameToken(s[i..j])
        case None => None
        case Some(t) => Some((t, j))
      else None
  }

  /** cf_lex's number branch */
  method LexNumber(s: string, start: nat) returns (t: Option<Token>, i: nat)
    requires start < |s| && IsDigit(s[start])
    ensures start < i <= |s| && i == SpanEnd(s, start, NumberChar) && t == NumberToken(s[start..i])
  {
    i := start;
    while i < |s| && NumberChar(s[i])
      invariant start <= i <= |s| && (forall k | start <= k < i :: NumberChar(s[k]))
    {
      i := i + 1;
    }
    SpanIs(s, start, i, NumberChar);
    var w := s[start..i];
    assert forall k | 0 <= k < |w| :: w[k] == s[start + k];
    var addr := Literals.ParseIpv4Word(w);
    if addr.Some? {
      return Some(G.Word(Ipv4(addr.value))), i;
    }
    var j := start;
    while j < i
      invariant start <= j <= i && (forall k | start <= k < j :: IsDigit(s[k]))
    {
      if s[j] == '.' {
        assert w[j - start] == '.';
        return None, i;
      }
      j := j + 1;
    }
    var v := DecValue(w);
    if v > 0xFFFF_FFFF {
      return None, i;
    }
    return Some(G.Word(Number(v))), i;
  }

  /** cf_lex's keyword branch */
  method LexName(s: string, start: nat) returns (t: Option<Token>, i: nat)
    requires start < |s| && IsLetter(s[start])
    ensures start < i <= |s| && i == SpanEnd(s, start, NameChar) && t == NameToken(s[start..i])
  {
    i := start;
    while i < |s| && NameChar(s[i])
      invariant start <= i <= |s| && (forall k | start <= k < i :: NameChar(s[k]))
    {
      i := i + 1;
    }
    SpanIs(s, start, i, NameChar);
    t := LookupWord(KEYWORDS, s[start..i]);
  }

  /** One token of cf_lex's loop */
  method LexToken(s: string, start: nat) returns (t: Option<Token>, i: nat)
    requires start < |s|
    ensures match LexOne(s, start)
            case None => t == None
            case Some((t', j)) => t == Some(t') && i == j
    ensures t.Some? ==> start < i <= |s|
  {
    var c := s[start];
    var doubled := start + 1 < |s| && s[start + 1] == c;
    if c == '(' {
      return Some(G.LParen), start + 1;
    } else if c == ')' {
      return Some(G.RParen), start + 1;
    } else if c == '/' {
      return Some(G.Word(Slash)), start + 1;
    } else if c == '!' {
      return Some(G.NotOp), start + 1;
    } else if c == '&' && doubled {
      return Some(G.AndOp), start + 2;
    } else if c == '|' && doubled {
      return Some(G.OrOp), start + 2;
    } else if IsDigit(c) {
      t, i := LexNumber(s, start);
    } else if IsLetter(c) {
      t, i := LexName(s, start);
    } else {
      return None, start;
    }
  }

  /**
    cf_lex. The bound is checked only when a token starts, and the closing End is stored
    without a check: with exactly 256 tokens it is written behind the buffer.
   */
  method Lex(s: string) returns (r: LexResult<Token>)
    ensures r == Outcome(Tokens(LEXER, s, 0))
    ensures r == Overrun <==> Tokens(LEXER, s, 0).Some? && |Tokens(LEXER, s, 0).value| == 256
    ensures r.Lexed? <==> Tokens(LEXER, s, 0).Some? && |Tokens(LEXER, s, 0).value| <= 255
    ensures r.Lexed? ==> G.Closed(r.toks)
  {
    LexerIsLawful();
    StaysInsideUnless256(LEXER, s);
    hide LexOne, Lawful, G.Closed;
    var toks: seq<Token> := [];
    var i := 0;
    assert Tokens(LEXER, s, 0).Some? ==> toks + Tokens(LEXER, s, 0).value == Tokens(LEXER, s, 0).value;
    while i < |s|
      invariant 0 <= i <= |s| && |toks| <= MAX_TOKENS
      invariant Tokens(LEXER, s, 0) == Prefixed(toks, Tokens(LEXER, s, i))
      decreases |s| - i
    {
      if IsBlank(s[i]) {
        i := i + 1;
        continue;
      }
      if |toks| >= MAX_TOKENS {
        assert Tokens(LEXER, s, i).Some? ==> |Tokens(LEXER, s, i).value| > 0;
        return BadInput;
      }
      var t, j := LexToken(s, i);
      if t.None? {
        return BadInput;
      }
      PrefixedStep(toks, t.value, Tokens(LEXER, s, j));
      toks := toks + [t.value];
      i := j;
    }
    assert toks + [] == toks;
    if |toks| == MAX_TOKENS {
      return Overrun;
    }
    return Lexed(toks + [G.End]);
  }

  // ----- the unchecked End -----

  function Parens(n: nat): string {
    seq(n, _ => '(')
  }

  lemma {:induction false} ParensLex(n: nat, i: nat)
    requires i <= n
    ensures Tokens(LEXER, Parens(n), i) == Some(seq(n - i, _ => G.LParen))
    decreases n - i
  {
    if i == n {
      assert seq<Token>(0, _ => G.LParen) == [];
    } else {
      ParensLex(n, i + 1);
      assert Parens(n)[i] == '(';
      assert LexOne(Parens(n), i) == Some((G.LParen, i + 1));
      assert [G.LParen] + seq(n - i - 1, _ => G.LParen) == seq<Token>(n - i, _ => G.LParen);
    }
  }

  /** The lexer does not always stay inside its buffer: 256 opening parentheses overrun it. */
  lemma ParensOverrun()
    ensures Outcome(Tokens(LEXER, Parens(256), 0)) == Overrun
  {
    ParensLex(256, 0);
  }

  lemma LexOneIsNotEnd(s: string, i: nat)
    requires i < |s| && LexOne(s, i).Some?
    ensures !LexOne(s, i).value.0.End?
  {
    if IsLetter(s[i]) {
      LookupIsNotEnd(s[i..SpanEnd(s, i, NameChar)], 0);
    }
  }

  lemma {:induction false} LookupIsNotEnd(w: string, k: nat)
    requires k <= |KEYWORDS| && Lookup(KEYWORDS, w, k).Some?
    ensures !Lookup(KEYWORDS, w, k).value.End?
    decreases |KEYWORDS| - k
  {
    if KEYWORDS[k].0 != w { LookupIsNotEnd(w, k + 1); }
  }

  // ----- soundness -----

  const SYMBOLS: seq<(string, Token)> := [
    ("(", G.LParen), (")", G.RParen), ("/", G.Word(Slash)), ("!", G.NotOp), ("&&", G.AndOp), ("||", G.OrOp)
  ]

  /** How a token may be written. */
  predicate Spells(w: string, t: Token) {
    || (w, t) in SYMBOLS
    || (w, t) in KEYWORDS
    || (t.Word? && t.w.Ipv4? && Literals.Ipv4Of(w) == Some(t.w.addr))
    || (t.Word? && t.w.Number? && AllDigits(w) && DecValue(w) == t.w.n)
  }

  /** Letters, digits and underscores go on with a name, digits and dots with a number. */
  predicate Sticks(w: string, c: char) {
    && |w| > 0
    && if 'a' <= w[0] <= 'z' || 'A' <= w[0] <= 'Z'
       then 'a' <= c <= 'z' || 'A' <= c <= 'Z' || '0' <= c <= '9' || c == '_'
       else '0' <= w[0] <= '9' && ('0' <= c <= '9' || c == '.')
  }

  lemma LexOneSpells(s: string, i: nat)
    requires i < |s| && LexOne(s, i).Some?
    ensures var (t, j) := LexOne(s, i).value; Spells(s[i..j], t) && (j < |s| ==> !Sticks(s[i..j], s[j]))
  {
    var (t, j) := LexOne(s, i).value;
    var w := s[i..j];
    if IsLetter(s[i]) {
      FoundIsListed(KEYWORDS, w, 0);
    } else if !IsDigit(s[i]) {
      assert w == if j == i + 1 then [s[i]] else [s[i], s[i]];
      assert (w, t) in SYMBOLS;
    }
  }

  // ----- writing tokens -----

  /** Where a token sits in the keyword table, if it is one. */
  function KeywordIndex(t: Token): (k: nat)
    requires !t.End? && !t.LParen? && !t.RParen?
    requires t.Word? ==> !t.w.Slash? && !t.w.Number? && !t.w.Ipv4?
    ensures k < |KEYWORDS| && KEYWORDS[k].1 == t
  {
    match t
    case AndOp => 0
    case OrOp => 1
    case NotOp => 2
    case Word(SrcKw) => 3
    case Word(DstKw) => 4
    case Word(HostKw) => 5
    case Word(PortKw) => 6
    case Word(NetKw) => 7
    case Word(ProtoKw(Tcp)) => 8
    case Word(ProtoKw(Udp)) => 9
    case Word(ProtoKw(Icmp)) => 10
    case Word(ProtoKw(Ip)) => 11
    case Word(ProtoKw(Ip6)) => 12
    case Word(ProtoKw(Arp)) => 13
  }

  function TokenText(t: Token): string {
    if t.End? then ""
    else if t.LParen? then "("
    else if t.RParen? then ")"
    else if t == G.Word(Slash) then "/"
    else if t.Word? && t.w.Number? then Dec(t.w.n)
    else if t.Word? && t.w.Ipv4? then Literals.PrintIpv4(t.w.addr)
    else KEYWORDS[KeywordIndex(t)].0
  }

  /** cf_lex, as a lexer. */
  const LEXER: Lexer<CapWord> := Lexer(LexOne, TokenText, Spells, Sticks)

  lemma KeywordShape(k: nat)
    requires k < |KEYWORDS|
    ensures var w := KEYWORDS[k].0; |w| > 0 && IsLetter(w[0]) && forall i | 0 <= i < |w| :: NameChar(w[i])
  {
    assert k == 0 || k == 1 || k == 2 || k == 3 || k == 4 || k == 5 || k == 6
        || k == 7 || k == 8 || k == 9 || k == 10 || k == 11 || k == 12 || k == 13;
  }

  lemma KeywordsDiffer()
    ensures forall i, j | 0 <= i < j < |KEYWORDS| :: KEYWORDS[i].0 != KEYWORDS[j].0
  {
  }

  lemma KeywordFound(k: nat)
    requires k < |KEYWORDS|
    ensures NameToken(KEYWORDS[k].0) == Some(KEYWORDS[k].1)
  {
    KeywordsDiffer();
    LookupFinds(KEYWORDS, k, 0);
  }

  // ----- every spelling is read -----

  predicate Standing(s: string, i: nat, j: nat) {
    i < j <= |s| && (j < |s| ==> !Sticks(s[i..j], s[j]))
  }

  lemma SymbolLexes(s: string, i: nat, j: nat, t: Token)
    requires Standing(s, i, j) && (s[i..j], t) in SYMBOLS
    ensures !IsBlank(s[i]) && LexOne(s, i) == Some((t, j))
  {
    var w := s[i..j];
    assert w[0] == s[i] && (|w| > 1 ==> w[1] == s[i + 1]);
    var k :| 0 <= k < |SYMBOLS| && SYMBOLS[k] == (w, t);
    assert k == 0 || k == 1 || k == 2 || k == 3 || k == 4 || k == 5;
  }

  lemma KeywordLexes(s: string, i: nat, j: nat, t: Token)
    requires Standing(s, i, j) && (s[i..j], t) in KEYWORDS
    ensures !IsBlank(s[i]) && LexOne(s, i) == Some((t, j))
  {
    var w := s[i..j];
    var k :| 0 <= k < |KEYWORDS| && KEYWORDS[k] == (w, t);
    KeywordShape(k);
    KeywordFound(k);
    hide *;
    NameLexes(s, i, j, t);
  }

  lemma NameLexes(s: string, i: nat, j: nat, t: Token)
    requires Standing(s, i, j) && NameToken(s[i..j]) == Some(t)
    requires IsLetter(s[i..j][0]) && forall k | 0 <= k < j - i :: NameChar(s[i..j][k])
    ensures !IsBlank(s[i]) && LexOne(s, i) == Some((t, j))
  {
    hide NameToken;
    var w := s[i..j];
    assert forall n | i <= n < j :: s[n] == w[n - i];
    SpanIs(s, i, j, NameChar);
  }

  lemma NumberLexes(s: string, i: nat, j: nat, t: Token)
    requires Standing(s, i, j) && IsDigit(s[i]) && forall k | i <= k < j :: NumberChar(s[k])
    requires (forall k | 0 <= k < j - i :: NumberChar(s[i..j][k])) && NumberToken(s[i..j]) == Some(t)
    ensures !IsBlank(s[i]) && LexOne(s, i) == Some((t, j))
  {
    hide NumberToken;
    assert s[i..j][0] == s[i];
    SpanIs(s, i, j, NumberChar);
  }

  lemma SpellingLexes(s: string, i: nat, j: nat, t: Token)
    requires Standing(s, i, j) && Spells(s[i..j], t)
    ensures !IsBlank(s[i]) && LexOne(s, i) == Some((t, j))
  {
    var w := s[i..j];
    if (w, t) in SYMBOLS {
      SymbolLexes(s, i, j, t);
    } else if (w, t) in KEYWORDS {
      KeywordLexes(s, i, j, t);
    } else {
      assert forall k | i <= k < j :: s[k] == w[k - i];
      if t.w.Ipv4? {
        Literals.Ipv4Letters(w);
      } else {
        Literals.NoDotsNoAddress(w);
      }
      hide LexOne, Literals.Ipv4Of, DecValue, Standing;
      NumberLexes(s, i, j, t);
    }
  }

  lemma TextSpells(t: Token)
    requires !t.End?
    ensures |TokenText(t)| > 0 && Spells(TokenText(t), t) && !Sticks(TokenText(t), ' ')
  {
    if t.Word? && t.w.Number? {
      DecRoundTrip(t.w.n);
    } else if t.Word? && t.w.Ipv4? {
      Literals.Ipv4RoundTrip(t.w.addr);
      Literals.Ipv4Letters(Literals.PrintIpv4(t.w.addr));
    } else if !t.LParen? && !t.RParen? && t != G.Word(Slash) {
      var k := KeywordIndex(t);
      KeywordShape(k);
      assert KEYWORDS[k] == (TokenText(t), t);
    } else {
      assert SYMBOLS[0] == ("(", G.LParen) && SYMBOLS[1] == (")", G.RParen) && SYMBOLS[2] == ("/", G.Word(Slash));
    }
  }

  /** What is read is spelled out, every spelling that stands apart is read, and tokens are written as spellings. */
  lemma LexerIsLawful()
    ensures Lawful(LEXER)
  {
    hide LexOne, Spells, Sticks, TokenText;
    assert ReadsSpellings(LEXER) by {
      forall s: string, i: nat | LEXER.read(s, i).Some?
        ensures var (t, j) := LEXER.read(s, i).value;
                i < j <= |s| && !t.End? && LEXER.spells(s[i..j], t) && Apart(LEXER, s, i, j)
      {
        LexOneIsNotEnd(s, i);
        LexOneSpells(s, i);
      }
    }
    assert SpellingsAreRead(LEXER) by {
      forall s: string, i: nat, j: nat, t: Token | i < j <= |s| && LEXER.spells(s[i..j], t) && Apart(LEXER, s, i, j)
        ensures !IsBlank(s[i]) && LEXER.read(s, i) == Some((t, j))
      {
        SpellingLexes(s, i, j, t);
      }
    }
    assert WritesSpellings(LEXER) by {
      forall t: Token | !t.End?
        ensures |LEXER.text(t)| > 0 && LEXER.spells(LEXER.text(t), t) && !LEXER.sticks(LEXER.text(t), ' ')
      {
        TextSpells(t);
      }
    }
  }

  lemma NameIsListed(w: string) returns (k: nat)
    requires NameToken(w).Some?
    ensures k < |KEYWORDS| && KEYWORDS[k].0 == w
  {
    FoundIsListed(KEYWORDS, w, 0);
    k :| k < |KEYWORDS| && KEYWORDS[k] == (w, NameToken(w).value);
  }

  /** A text that is one name is the name's token, or does not lex. */
  lemma WholeName(w: string)
    requires |w| > 0 && IsLetter(w[0]) && forall k | 0 <= k < |w| :: NameChar(w[k])
    ensures NameToken(w) == None ==> Tokens(LEXER, w, 0) == None
  {
    SpanIs(w, 0, |w|, NameChar);
    assert w[0..|w|] == w;
    hide NameToken, Tokens;
    assert NameToken(w) == None ==> LexOne(w, 0) == None;
  }
}
