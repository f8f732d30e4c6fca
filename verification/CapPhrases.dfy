/**
  The capture filter's texts, word for word (src/c/capfilter.h): which token each word and sign is,
  and which filter each primitive written out with them is, for all addresses, ports and prefixes.
 */
module CapPhrases {
  import opened Words
  import opened Text
  import opened Lexing
  import opened CapAst
  import opened CapLanguage
  import opened Phrases
  import CapFilter
  import CapLexer
  import Literals
  import G = Grammar

  // ----- words -----

  lemma SignsAreSpelled()
    ensures CapLexer.Spells("(", G.LParen) && CapLexer.Spells(")", G.RParen) && CapLexer.Spells("!", G.NotOp)
    ensures CapLexer.Spells("&&", G.AndOp) && CapLexer.Spells("||", G.OrOp) && CapLexer.Spells("/", G.Word(Slash))
  {
    var signs := CapLexer.SYMBOLS;
    assert signs[0] == ("(", G.LParen) && signs[1] == (")", G.RParen) && signs[2] == ("/", G.Word(Slash));
    assert signs[3] == ("!", G.NotOp) && signs[4] == ("&&", G.AndOp) && signs[5] == ("||", G.OrOp);
  }

  lemma OperatorsAreSpelled()
    ensures CapLexer.Spells("and", G.AndOp) && CapLexer.Spells("or", G.OrOp) && CapLexer.Spells("not", G.NotOp)
  {
    var words := CapLexer.KEYWORDS;
    assert words[0] == ("and", G.AndOp) && words[1] == ("or", G.OrOp) && words[2] == ("not", G.NotOp);
  }

  lemma QualifiersAreSpelled()
    ensures CapLexer.Spells("src", G.Word(SrcKw)) && CapLexer.Spells("dst", G.Word(DstKw))
    ensures CapLexer.Spells("host", G.Word(HostKw)) && CapLexer.Spells("port", G.Word(PortKw))
    ensures CapLexer.Spells("net", G.Word(NetKw))
  {
    var words := CapLexer.KEYWORDS;
    assert words[3] == ("src", G.Word(SrcKw)) && words[4] == ("dst", G.Word(DstKw));
    assert words[5] == ("host", G.Word(HostKw)) && words[6] == ("port", G.Word(PortKw));
    assert words[7] == ("net", G.Word(NetKw));
  }

  /** The protocols by name. */
  function ProtoName(proto: Proto): string {
    match proto
    case Tcp => "tcp"
    case Udp => "udp"
    case Icmp => "icmp"
    case Ip => "ip"
    case Ip6 => "ip6"
    case Arp => "arp"
  }

  lemma ProtocolsAreSpelled(proto: Proto)
    ensures CapLexer.Spells(ProtoName(proto), G.Word(ProtoKw(proto)))
  {
    var words := CapLexer.KEYWORDS;
    assert words[8] == ("tcp", G.Word(ProtoKw(Tcp))) && words[9] == ("udp", G.Word(ProtoKw(Udp)));
    assert words[10] == ("icmp", G.Word(ProtoKw(Icmp))) && words[11] == ("ip", G.Word(ProtoKw(Ip)));
    assert words[12] == ("ip6", G.Word(ProtoKw(Ip6))) && words[13] == ("arp", G.Word(ProtoKw(Arp)));
  }

  lemma Lone(w: string, t: Token)
    requires |w| > 0 && CapLexer.Spells(w, t)
    ensures Tokens(CapLexer.LEXER, w, 0) == Some([t])
  {
    CapLexer.LexerIsLawful();
    hide Lexing.Lawful, CapLexer.Spells;
    LoneSpelling(CapLexer.LEXER, w, t);
  }

  /** The words of the language. */
  lemma WordsMean()
    ensures Tokens(CapLexer.LEXER, "and", 0) == Some([G.AndOp])
    ensures Tokens(CapLexer.LEXER, "or", 0) == Some([G.OrOp])
    ensures Tokens(CapLexer.LEXER, "not", 0) == Some([G.NotOp])
    ensures Tokens(CapLexer.LEXER, "src", 0) == Some([G.Word(SrcKw)])
    ensures Tokens(CapLexer.LEXER, "dst", 0) == Some([G.Word(DstKw)])
    ensures Tokens(CapLexer.LEXER, "host", 0) == Some([G.Word(HostKw)])
    ensures Tokens(CapLexer.LEXER, "port", 0) == Some([G.Word(PortKw)])
    ensures Tokens(CapLexer.LEXER, "net", 0) == Some([G.Word(NetKw)])
  {
    OperatorsAreSpelled();
    QualifiersAreSpelled();
    hide *;
    Lone("and", G.AndOp); Lone("or", G.OrOp); Lone("not", G.NotOp);
    Lone("src", G.Word(SrcKw)); Lone("dst", G.Word(DstKw));
    Lone("host", G.Word(HostKw)); Lone("port", G.Word(PortKw)); Lone("net", G.Word(NetKw));
  }

  lemma ProtocolToken(proto: Proto)
    ensures Tokens(CapLexer.LEXER, ProtoName(proto), 0) == Some([G.Word(ProtoKw(proto))])
  {
    assert |ProtoName(proto)| > 0;
    ProtocolsAreSpelled(proto);
    hide *;
    Lone(ProtoName(proto), G.Word(ProtoKw(proto)));
  }

  lemma ProtocolsMean()
    ensures Tokens(CapLexer.LEXER, "tcp", 0) == Some([G.Word(ProtoKw(Tcp))])
    ensures Tokens(CapLexer.LEXER, "udp", 0) == Some([G.Word(ProtoKw(Udp))])
    ensures Tokens(CapLexer.LEXER, "icmp", 0) == Some([G.Word(ProtoKw(Icmp))])
    ensures Tokens(CapLexer.LEXER, "ip", 0) == Some([G.Word(ProtoKw(Ip))])
    ensures Tokens(CapLexer.LEXER, "ip6", 0) == Some([G.Word(ProtoKw(Ip6))])
    ensures Tokens(CapLexer.LEXER, "arp", 0) == Some([G.Word(ProtoKw(Arp))])
  {
    assert ProtoName(Tcp) == "tcp" && ProtoName(Udp) == "udp" && ProtoName(Icmp) == "icmp";
    assert ProtoName(Ip) == "ip" && ProtoName(Ip6) == "ip6" && ProtoName(Arp) == "arp";
    hide *;
    ProtocolToken(Tcp); ProtocolToken(Udp); ProtocolToken(Icmp);
    ProtocolToken(Ip); ProtocolToken(Ip6); ProtocolToken(Arp);
  }

  /** The signs of the language. */
  lemma SignsMean()
    ensures Tokens(CapLexer.LEXER, "(", 0) == Some([G.LParen])
    ensures Tokens(CapLexer.LEXER, ")", 0) == Some([G.RParen])
    ensures Tokens(CapLexer.LEXER, "/", 0) == Some([G.Word(Slash)])
    ensures Tokens(CapLexer.LEXER, "!", 0) == Some([G.NotOp])
    ensures Tokens(CapLexer.LEXER, "&&", 0) == Some([G.AndOp])
    ensures Tokens(CapLexer.LEXER, "||", 0) == Some([G.OrOp])
  {
    SignsAreSpelled();
    hide *;
    Lone("(", G.LParen); Lone(")", G.RParen); Lone("/", G.Word(Slash));
    Lone("!", G.NotOp); Lone("&&", G.AndOp); Lone("||", G.OrOp);
  }

  predicate IsName(w: string) {
    && |w| > 0 && ('a' <= w[0] <= 'z' || 'A' <= w[0] <= 'Z')
    && forall k | 0 <= k < |w| :: 'a' <= w[k] <= 'z' || 'A' <= w[k] <= 'Z' || '0' <= w[k] <= '9' || w[k] == '_'
  }

  predicate IsWord(w: string) {
    w in ["and", "or", "not", "src", "dst", "host", "port", "net", "tcp", "udp", "icmp", "ip", "ip6", "arp"]
  }

  lemma KeywordIsWord(k: nat)
    requires k < |CapLexer.KEYWORDS|
    ensures IsWord(CapLexer.KEYWORDS[k].0)
  {
    var w := CapLexer.KEYWORDS[k].0;
    var words := ["and", "or", "not", "src", "dst", "host", "port", "net", "tcp", "udp", "icmp", "ip", "ip6", "arp"];
    assert words[k] == w;
  }

  /** There are no other words: a name outside these fourteen does not lex. */
  lemma NoOtherNames(w: string)
    requires IsName(w) && !IsWord(w)
    ensures Tokens(CapLexer.LEXER, w, 0) == None
  {
    hide IsWord, Tokens, CapLexer.LEXER, CapLexer.KEYWORDS, CapLexer.NameToken;
    if CapLexer.NameToken(w).Some? {
      var k := CapLexer.NameIsListed(w);
      KeywordIsWord(k);
    }
    CapLexer.WholeName(w);
  }

  lemma CaptureConnects()
    ensures Usable(CapLexer.LEXER, CAPTURE)
  {
    SignsAreSpelled();
    OperatorsAreSpelled();
    CapLexer.LexerIsLawful();
    CaptureIsLawful();
    hide CapLexer.Spells, Lexing.Lawful, G.Lawful, CapLexer.KEYWORDS, CapLexer.SYMBOLS;
  }

  // ----- primitives -----

  /** A text that is this primitive wherever a primitive may stand, and by itself is the filter. */
  ghost predicate Means(text: string, p: Primitive) {
    && Phrase(CapLexer.LEXER, CAPTURE, 2, text, G.Prim(p))
    && CapFilter.FilterOf(text) == Some(G.Prim(p))
  }

  lemma TokensMean(text: string, ts: seq<Token>, p: Primitive)
    requires Tokens(CapLexer.LEXER, text, 0) == Some(ts) && |ts| < 256 && ReadPrimitive(ts, 0) == Some((p, |ts|))
    ensures Means(text, p)
  {
    CaptureConnects();
    hide Lexing.Lawful, G.Lawful, Connects, Tokens, ReadPrimitive, Phrase, CapLexer.LEXER;
    PrimitivePhrase(CapLexer.LEXER, CAPTURE, text, ts, p);
    Weaker(CapLexer.LEXER, CAPTURE, 2, 0, text, G.Prim(p));
    PhrasesDenote(CapLexer.LEXER, CAPTURE, text, G.Prim(p));
  }

  /** A protocol by its name. */
  lemma ProtocolText(proto: Proto)
    ensures Means(ProtoName(proto), IsProto(proto))
  {
    hide Means, Tokens, ProtoName, CapLexer.LEXER;
    ProtocolToken(proto);
    TokensMean(ProtoName(proto), [G.Word(ProtoKw(proto))], IsProto(proto));
  }

  /** A word, a blank, a text. */
  lemma Spaced(w: string, wb: string, t: Token, rest: string)
    requires |w| > 0 && CapLexer.Spells(w, t) && Tokens(CapLexer.LEXER, rest, 0).Some? && wb == w + " "
    ensures Tokens(CapLexer.LEXER, wb + rest, 0) == Some([t] + Tokens(CapLexer.LEXER, rest, 0).value)
  {
    CaptureConnects();
    hide Lexing.Lawful, G.Lawful, Connects, Tokens, CapLexer.Spells;
    OperatorText(CapLexer.LEXER, w, t, rest);
    assert w + (" " + rest) == wb + rest;
  }

  lemma WordsWithBlank()
    ensures "src " == "src" + " " && "dst " == "dst" + " "
    ensures "host " == "host" + " " && "port " == "port" + " " && "net " == "net" + " "
  {
  }

  /** A direction in front, if there is one. */
  function DirText(dir: Option<Dir>): string {
    match dir
    case None => ""
    case Some(Src) => "src "
    case Some(Dst) => "dst "
  }

  function DirTokens(dir: Option<Dir>): seq<Token> {
    match dir
    case None => []
    case Some(Src) => [G.Word(SrcKw)]
    case Some(Dst) => [G.Word(DstKw)]
  }

  lemma InFront(dir: Option<Dir>, rest: string)
    requires Tokens(CapLexer.LEXER, rest, 0).Some?
    ensures Tokens(CapLexer.LEXER, DirText(dir) + rest, 0)
         == Some(DirTokens(dir) + Tokens(CapLexer.LEXER, rest, 0).value)
  {
    QualifiersAreSpelled();
    WordsWithBlank();
    hide CapLexer.Spells, Tokens, CapLexer.LEXER, CapLexer.KEYWORDS;
    match dir
    case None =>
      assert DirText(dir) + rest == rest;
      assert DirTokens(dir) + Tokens(CapLexer.LEXER, rest, 0).value == Tokens(CapLexer.LEXER, rest, 0).value;
    case Some(Src) => Spaced("src", "src ", G.Word(SrcKw), rest);
    case Some(Dst) => Spaced("dst", "dst ", G.Word(DstKw), rest);
  }

  lemma InFrontMeans(dir: Option<Dir>, rest: string, ts: seq<Token>, p: Primitive)
    requires Tokens(CapLexer.LEXER, rest, 0) == Some(ts) && |ts| <= 4
    requires ReadPrimitive(DirTokens(dir) + ts, 0) == Some((p, |DirTokens(dir) + ts|))
    ensures Means(DirText(dir) + rest, p)
  {
    hide Tokens, CapLexer.LEXER, ReadPrimitive, Means, DirText;
    InFront(dir, rest);
    TokensMean(DirText(dir) + rest, DirTokens(dir) + ts, p);
  }

  lemma AddressIsSpelled(w: string, a: Addr)
    requires Literals.Ipv4Of(w) == Some(a)
    ensures CapLexer.Spells(w, G.Word(Ipv4(a)))
  {
    hide CapLexer.KEYWORDS, CapLexer.SYMBOLS, Literals.Ipv4Of;
  }

  lemma NumberIsSpelled(w: string)
    requires AllDigits(w) && DecValue(w) <= 65535
    ensures CapLexer.Spells(w, G.Word(Number(DecValue(w))))
  {
    hide CapLexer.KEYWORDS, CapLexer.SYMBOLS, DecValue;
  }

  lemma AddressToken(w: string, a: Addr)
    requires Literals.Ipv4Of(w) == Some(a)
    ensures |w| > 0 && '0' <= w[0] <= '9' && CapLexer.Spells(w, G.Word(Ipv4(a)))
    ensures Tokens(CapLexer.LEXER, w, 0) == Some([G.Word(Ipv4(a))])
  {
    Literals.Ipv4Letters(w);
    hide *;
    AddressIsSpelled(w, a);
    Lone(w, G.Word(Ipv4(a)));
  }

  lemma NumberToken(w: string)
    requires |w| > 0 && AllDigits(w) && DecValue(w) <= 65535
    ensures Tokens(CapLexer.LEXER, w, 0) == Some([G.Word(Number(DecValue(w)))])
  {
    hide *;
    NumberIsSpelled(w);
    Lone(w, G.Word(Number(DecValue(w))));
  }

  /** What parse_primitive makes of the tokens. */
  lemma ReadsHost(dir: Option<Dir>, a: Addr)
    ensures var ts := DirTokens(dir) + [G.Word(HostKw), G.Word(Ipv4(a))];
            ReadPrimitive(ts, 0) == Some((HasHost(dir, a), |ts|))
  {
  }

  lemma ReadsPort(dir: Option<Dir>, n: u32)
    requires n <= 65535
    ensures var ts := DirTokens(dir) + [G.Word(PortKw), G.Word(Number(n))];
            ReadPrimitive(ts, 0) == Some((HasPort(dir, n), |ts|))
  {
  }

  lemma ReadsNet(dir: Option<Dir>, a: Addr, n: u32)
    requires n <= 32
    ensures var ts := DirTokens(dir) + [G.Word(NetKw), G.Word(Ipv4(a)), G.Word(Slash), G.Word(Number(n))];
            ReadPrimitive(ts, 0) == Some((InNet(dir, a, n), |ts|))
  {
  }

  lemma HostTokens(w: string, a: Addr)
    requires Literals.Ipv4Of(w) == Some(a)
    ensures Tokens(CapLexer.LEXER, "host " + w, 0) == Some([G.Word(HostKw), G.Word(Ipv4(a))])
  {
    QualifiersAreSpelled();
    WordsWithBlank();
    hide *;
    AddressToken(w, a);
    Spaced("host", "host ", G.Word(HostKw), w);
    assert [G.Word(HostKw)] + [G.Word(Ipv4(a))] == [G.Word(HostKw), G.Word(Ipv4(a))];
  }

  lemma PortTokens(w: string)
    requires |w| > 0 && AllDigits(w) && DecValue(w) <= 65535
    ensures Tokens(CapLexer.LEXER, "port " + w, 0) == Some([G.Word(PortKw), G.Word(Number(DecValue(w)))])
  {
    QualifiersAreSpelled();
    WordsWithBlank();
    hide *;
    NumberToken(w);
    Spaced("port", "port ", G.Word(PortKw), w);
    var n := G.Word(Number(DecValue(w)));
    assert [G.Word(PortKw)] + [n] == [G.Word(PortKw), n];
  }

  lemma NothingSticksToSlash(c: char)
    ensures !CapLexer.Sticks("/", c)
  {
  }

  lemma SlashToken(v: string)
    requires |v| > 0 && AllDigits(v) && DecValue(v) <= 32
    ensures Tokens(CapLexer.LEXER, "/" + v, 0) == Some([G.Word(Slash), G.Word(Number(DecValue(v)))])
  {
    hide Tokens, DecValue, AllDigits, CapLexer.Spells, CapLexer.Sticks, Lexing.Lawful;
    SignsAreSpelled();
    CapLexer.LexerIsLawful();
    NothingSticksToSlash(v[0]);
    NumberToken(v);
    var n := G.Word(Number(DecValue(v)));
    WordThen(CapLexer.LEXER, "/", G.Word(Slash), v);
    assert [G.Word(Slash)] + [n] == [G.Word(Slash), n];
  }

  /** An address, a slash and a number, with no blank between them. */
  lemma PrefixTokens(w: string, a: Addr, v: string)
    requires Literals.Ipv4Of(w) == Some(a) && |v| > 0 && AllDigits(v) && DecValue(v) <= 32
    ensures Tokens(CapLexer.LEXER, w + ("/" + v), 0)
         == Some([G.Word(Ipv4(a)), G.Word(Slash), G.Word(Number(DecValue(v)))])
  {
    CapLexer.LexerIsLawful();
    hide DecValue, Tokens, CapLexer.Spells, Literals.Ipv4Of, Lexing.Lawful, CapLexer.KEYWORDS, CapLexer.SYMBOLS;
    SlashToken(v);
    AddressToken(w, a);
    assert !CapLexer.LEXER.sticks(w, ("/" + v)[0]);
    hide CapLexer.Sticks;
    WordThen(CapLexer.LEXER, w, G.Word(Ipv4(a)), "/" + v);
    var n := G.Word(Number(DecValue(v)));
    assert [G.Word(Ipv4(a))] + [G.Word(Slash), n] == [G.Word(Ipv4(a)), G.Word(Slash), n];
  }

  lemma NetTokens(w: string, a: Addr, v: string)
    requires Literals.Ipv4Of(w) == Some(a) && |v| > 0 && AllDigits(v) && DecValue(v) <= 32
    ensures Tokens(CapLexer.LEXER, "net " + (w + ("/" + v)), 0)
         == Some([G.Word(NetKw), G.Word(Ipv4(a)), G.Word(Slash), G.Word(Number(DecValue(v)))])
  {
    QualifiersAreSpelled();
    WordsWithBlank();
    hide *;
    PrefixTokens(w, a, v);
    Spaced("net", "net ", G.Word(NetKw), w + ("/" + v));
    var rest := [G.Word(Ipv4(a)), G.Word(Slash), G.Word(Number(DecValue(v)))];
    assert [G.Word(NetKw)] + rest == [G.Word(NetKw), rest[0], rest[1], rest[2]];
  }

  /** `host` and a dotted address, with `src`, `dst` or neither in front. */
  lemma HostText(dir: Option<Dir>, w: string, a: Addr)
    requires Literals.Ipv4Of(w) == Some(a)
    ensures Means(DirText(dir) + ("host " + w), HasHost(dir, a))
  {
    hide *;
    HostTokens(w, a);
    ReadsHost(dir, a);
    InFrontMeans(dir, "host " + w, [G.Word(HostKw), G.Word(Ipv4(a))], HasHost(dir, a));
  }

  /** `port` and a decimal number up to 65535. */
  lemma PortText(dir: Option<Dir>, w: string)
    requires |w| > 0 && AllDigits(w) && DecValue(w) <= 65535
    ensures Means(DirText(dir) + ("port " + w), HasPort(dir, DecValue(w)))
  {
    hide *;
    PortTokens(w);
    ReadsPort(dir, DecValue(w));
    InFrontMeans(dir, "port " + w, [G.Word(PortKw), G.Word(Number(DecValue(w)))], HasPort(dir, DecValue(w)));
  }

  /** `net`, an address, a slash and a prefix length up to 32. */
  lemma NetText(dir: Option<Dir>, w: string, a: Addr, v: string)
    requires Literals.Ipv4Of(w) == Some(a) && |v| > 0 && AllDigits(v) && DecValue(v) <= 32
    ensures Means(DirText(dir) + ("net " + (w + ("/" + v))), InNet(dir, a, DecValue(v)))
  {
    hide *;
    NetTokens(w, a, v);
    ReadsNet(dir, a, DecValue(v));
    InFrontMeans(dir, "net " + (w + ("/" + v)),
                 [G.Word(NetKw), G.Word(Ipv4(a)), G.Word(Slash), G.Word(Number(DecValue(v)))],
                 InNet(dir, a, DecValue(v)));
  }

  // ----- a whole text -----

  /** Two protocols in parentheses, and a network: `(tcp or udp) and net 10.0.0.0/8` is one of these texts. */
  lemma ProtocolsInNet(p: Proto, q: Proto, w: string, a: Addr, v: string)
    requires Literals.Ipv4Of(w) == Some(a) && |v| > 0 && AllDigits(v) && DecValue(v) <= 32
    ensures Phrase(CapLexer.LEXER, CAPTURE, 1,
                   Group(ProtoName(p) + (" " + ("or" + (" " + ProtoName(q)))))
                   + (" " + ("and" + (" " + ("net " + (w + ("/" + v)))))),
                   G.And(G.Or(G.Prim(IsProto(p)), G.Prim(IsProto(q))), G.Prim(InNet(None, a, DecValue(v)))))
  {
    CaptureConnects();
    hide Usable, Phrase, Literals.Ipv4Of, DecValue, ProtoName, Group;
    ProtocolText(p);
    ProtocolText(q);
    NetText(None, w, a, v);
    var net := "net " + (w + ("/" + v));
    assert DirText(None) + net == net;
    var e, f := G.Prim(IsProto(p)), G.Prim(IsProto(q));
    Weaker(CapLexer.LEXER, CAPTURE, 2, 0, ProtoName(p), e);
    Weaker(CapLexer.LEXER, CAPTURE, 2, 1, ProtoName(q), f);
    Disjunction(CapLexer.LEXER, CAPTURE, ProtoName(p), e, "or", ProtoName(q), f);
    var either := ProtoName(p) + (" " + ("or" + (" " + ProtoName(q))));
    InParentheses(CapLexer.LEXER, CAPTURE, either, G.Or(e, f));
    Weaker(CapLexer.LEXER, CAPTURE, 2, 1, Group(either), G.Or(e, f));
    Conjunction(CapLexer.LEXER, CAPTURE, Group(either), G.Or(e, f), "and", net, G.Prim(InNet(None, a, DecValue(v))));
  }
}
