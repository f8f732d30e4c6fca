/** MAC and IPv6 literals mean the same in either case of their letters. */
module LetterCase {
  import opened Words
  import opened Text
  import opened Literals
  import opened Ipv6Literal
  import DispLanguage
  import DispLexer
  import Ipv6Forms
  import G = Grammar
  import Lexing

  function LowerCase(c: char): char {
    if 'A' <= c <= 'Z' then (c as int - 'A' as int + 'a' as int) as char else c
  }

  /** The same text but for the case of letters. */
  predicate SameLetters(s: string, t: string) {
    |s| == |t| && forall i | 0 <= i < |s| :: LowerCase(s[i]) == LowerCase(t[i])
  }

  lemma SameChar(c: char, d: char)
    requires LowerCase(c) == LowerCase(d)
    ensures HexNibble(c) == HexNibble(d) && (c == ':' <==> d == ':') && (c == '.' <==> d == '.')
    ensures DispLexer.WordChar(c) <==> DispLexer.WordChar(d)
  {
  }

  // ----- MAC addresses -----

  lemma MacSame(s: string, t: string)
    requires SameLetters(s, t)
    ensures MacOf(s) == MacOf(t)
  {
    forall i | 0 <= i < |s| ensures HexNibble(s[i]) == HexNibble(t[i]) && (s[i] == ':' <==> t[i] == ':') {
      SameChar(s[i], t[i]);
    }
    hide LowerCase, HexNibble;
    assert MacShaped(s) <==> MacShaped(t);
    if MacShaped(s) {
      assert MacOf(s).value == MacOf(t).value;
    }
  }

  // ----- IPv6 addresses -----

  predicate SamePieces(a: seq<string>, b: seq<string>) {
    |a| == |b| && forall k | 0 <= k < |a| :: SameLetters(a[k], b[k])
  }

  lemma {:induction false} SplitSame(s: string, t: string)
    requires SameLetters(s, t)
    ensures SamePieces(Split(s, ':'), Split(t, ':'))
    decreases |s|
  {
    if s != "" {
      var n := |s| - 1;
      SplitSame(s[..n], t[..n]);
      SameChar(s[n], t[n]);
    }
  }

  lemma {:induction false} HexSame(s: string, t: string)
    requires SameLetters(s, t)
    ensures AllHex(s) <==> AllHex(t)
    ensures AllHex(s) ==> HexValue(s) == HexValue(t)
    decreases |s|
  {
    forall i | 0 <= i < |s| ensures HexNibble(s[i]) == HexNibble(t[i]) { SameChar(s[i], t[i]); }
    hide LowerCase, HexNibble;
    if s != "" {
      HexSame(s[..|s| - 1], t[..|t| - 1]);
    }
  }

  lemma HextetsSame(s: string, t: string)
    requires SameLetters(s, t)
    ensures HextetsOf(s) == HextetsOf(t)
  {
    SplitSame(s, t);
    var a, b := Split(s, ':'), Split(t, ':');
    forall k | 0 <= k < |a|
      ensures Hextet(a[k]) <==> Hextet(b[k])
      ensures Hextet(a[k]) ==> HextetValue(a[k]) == HextetValue(b[k])
    {
      HexSame(a[k], b[k]);
    }
    hide SameLetters, Hextet, HextetValue, Split;
    assert AllHextets(a) <==> AllHextets(b);
    if AllHextets(a) {
      assert Values(a) == Values(b);
    }
  }

  lemma {:induction false} DoubleSame(s: string, t: string, i: nat)
    requires SameLetters(s, t)
    ensures FindDouble(s, i) == FindDouble(t, i)
    decreases |s| - i
  {
    if i + 1 < |s| {
      SameChar(s[i], t[i]);
      SameChar(s[i + 1], t[i + 1]);
      DoubleSame(s, t, i + 1);
    }
  }

  lemma SlicesSame(s: string, t: string, i: nat, j: nat)
    requires SameLetters(s, t) && i <= j <= |s|
    ensures j <= |t| && SameLetters(s[i..j], t[i..j])
  {
  }

  lemma Ipv6Same(s: string, t: string)
    requires SameLetters(s, t)
    ensures Ipv6Of(s) == Ipv6Of(t)
  {
    hide HextetsOf, FindDouble, GroupBytes, SameLetters, Zeros;
    DoubleSame(s, t, 0);
    SameLength(s, t);
    match FindDouble(s, 0)
    case None => HextetsSame(s, t);
    case Some(d) =>
      SlicesSame(s, t, 0, d);
      SlicesSame(s, t, d + 2, |s|);
      assert s[0..d] == s[..d] && t[0..d] == t[..d] && s[d + 2..|s|] == s[d + 2..] && t[d + 2..|s|] == t[d + 2..];
      HextetsSame(s[..d], t[..d]);
      HextetsSame(s[d + 2..], t[d + 2..]);
  }

  lemma SameLength(s: string, t: string)
    requires SameLetters(s, t)
    ensures |s| == |t|
  {
  }

  // ----- tokens -----

  /** A colon word is the same token in either case. */
  lemma ColonWordSame(s: string, t: string)
    requires SameLetters(s, t) && DispLexer.WordText(s) && !Free(s, ':')
    ensures DispLexer.WordText(t) && DispLexer.WordToken(t) == DispLexer.WordToken(s)
  {
    forall i | 0 <= i < |s|
      ensures (DispLexer.WordChar(s[i]) <==> DispLexer.WordChar(t[i])) && (s[i] == ':' <==> t[i] == ':')
    {
      SameChar(s[i], t[i]);
    }
    MacSame(s, t);
    Ipv6Same(s, t);
    hide LowerCase, MacOf, Ipv6Of, DispLexer.WordChar;
    assert !Free(t, ':');
  }

  /** However its letters are written, a printed MAC address parses to its bytes and lexes to one token. */
  lemma MacInEitherCase(m: Bytes6, w: string)
    requires SameLetters(w, PrintMac(m))
    ensures MacOf(w) == Some(m)
    ensures Lexing.Tokens(DispLexer.LEXER, w, 0) == Some([G.Word(DispLanguage.Mac(m))])
  {
    MacSame(w, PrintMac(m));
    MacRoundTrip(m);
    DispLexer.MacTextLexes(m);
    assert !Free(PrintMac(m), ':') by { MacLetters(m, 0); }
    assert SameLetters(PrintMac(m), w);
    hide PrintMac, SameLetters, DispLexer.WordToken, DispLexer.WordText, MacOf, Free;
    ColonWordSame(PrintMac(m), w);
    DispLexer.LoneWord(w);
  }

  lemma Ipv6HasColon(a: Bytes16)
    ensures !Free(Ipv6Forms.PrintIpv6(a), ':')
  {
    var gs := Ipv6Forms.HexGroups(Ipv6Forms.AddressGroups(a));
    forall k | 0 <= k < 8 ensures DispLexer.WordText(gs[k]) { DispLexer.HexIsWord(gs[k]); }
    DispLexer.JoinIsWord(gs, ':');
  }

  /** And so does every printed IPv6 address. */
  lemma Ipv6InEitherCase(a: Bytes16, w: string)
    requires SameLetters(w, Ipv6Forms.PrintIpv6(a))
    ensures Ipv6Of(w) == Some(a)
    ensures Lexing.Tokens(DispLexer.LEXER, w, 0) == Some([G.Word(DispLanguage.Ipv6(a))])
  {
    assert SameLetters(Ipv6Forms.PrintIpv6(a), w);
    hide *;
    Ipv6Same(w, Ipv6Forms.PrintIpv6(a));
    Ipv6Forms.Ipv6RoundTrip(a);
    DispLexer.Ipv6TextLexes(a);
    Ipv6HasColon(a);
    ColonWordSame(Ipv6Forms.PrintIpv6(a), w);
    DispLexer.LoneWord(w);
  }
}
