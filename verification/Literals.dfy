/**
  Address literals: the parsers of src/c/dispfilter.c (the IPv4 one is shared with
  src/c/capfilter.c) and the printers of eth_parser.c, ip_parser.c and ipv6_parser.c.
 */
module Literals {
  import opened Words
  import opened Text

  type Bytes4 = s: seq<u8> | |s| == 4 witness [0, 0, 0, 0]
  type Bytes6 = s: seq<u8> | |s| == 6 witness [0, 0, 0, 0, 0, 0]
  type Bytes16 = s: seq<u8> | |s| == 16 witness seq(16, _ => 0)

  // ----- IPv4 -----

  predicate Octet(g: string) {
    |g| >= 1 && AllDigits(g) && DecValue(g) <= 255
  }

  predicate AllOctets(gs: seq<string>) {
    forall k | 0 <= k < |gs| :: Octet(gs[k])
  }

  function Octets(gs: seq<string>): (bs: seq<u8>)
    requires AllOctets(gs)
    ensures |bs| == |gs|
  {
    seq(|gs|, k requires 0 <= k < |gs| => DecValue(gs[k]))
  }

  /** Four dot-separated decimal numbers, each at most 255. */
  function Ipv4Of(word: string): Option<Bytes4> {
    var gs := Split(word, '.');
    if |gs| == 4 && AllOctets(gs) then Some(Octets(gs)) else None
  }

  /** Where parse_ipv4_word stands before character i. */
  ghost predicate Ipv4Progress(word: string, i: nat, octets: seq<u8>, value: int, digits: nat)
    requires i <= |word|
  {
    var gs := Split(word[..i], '.');
    var n := |gs| - 1;
    && n <= 4 && AllOctets(gs[..n]) && octets == Octets(gs[..n])
    && AllDigits(gs[n]) && digits == |gs[n]|
    && value == (if digits == 0 then -1 else DecValue(gs[n])) && value <= 255
  }

  /** A piece that is finished, or already too big, decides the whole word. */
  lemma Ipv4Rejects(word: string, i: nat, k: nat)
    requires i <= |word| && k < |Split(word[..i], '.')|
    requires var gs := Split(word[..i], '.');
             || k >= 4
             || (k < |gs| - 1 && !Octet(gs[k]))
             || !AllDigits(gs[k]) || DecValue(gs[k]) > 255
             || (i == |word| && !Octet(gs[k]))
    ensures Ipv4Of(word).None?
  {
    SplitPrefix(word, i, '.');
    var a, b := Split(word[..i], '.'), Split(word, '.');
    if AllOctets(b) {
      assert Octet(b[k]);
      assert word[..|word|] == word;
      assert a[k] <= b[k];
      assert forall j | 0 <= j < |a[k]| :: a[k][j] == b[k][j];
      DecValueGrows(a[k], b[k]);
    }
  }

  lemma Ipv4Dot(word: string, i: nat, octets: seq<u8>, value: int, digits: nat)
    requires i < |word| && word[i] == '.' && Ipv4Progress(word, i, octets, value, digits)
    ensures digits == 0 || |octets| > 3 ==> Ipv4Of(word).None?
    ensures digits > 0 && |octets| <= 3 ==> Ipv4Progress(word, i + 1, octets + [value], -1, 0)
  {
    var gs := Split(word[..i], '.');
    var n := |gs| - 1;
    assert word[..i + 1] == word[..i] + ['.'];
    SplitSep(word[..i], '.');
    if digits == 0 || |octets| > 3 {
      Ipv4Rejects(word, i + 1, n);
    } else {
      assert (gs + [""])[..n + 1] == gs;
      OctetsSnoc(gs);
    }
  }

  lemma Ipv4End(word: string, octets: seq<u8>, value: int, digits: nat)
    requires Ipv4Progress(word, |word|, octets, value, digits)
    ensures digits == 0 || |octets| > 3 ==> Ipv4Of(word).None?
    ensures digits > 0 && |octets| <= 3 ==>
              AllOctets(Split(word, '.')) && octets + [value] == Octets(Split(word, '.'))
  {
    assert word[..|word|] == word;
    hide Split;
    var gs := Split(word, '.');
    if digits == 0 || |octets| > 3 {
      Ipv4Rejects(word, |word|, |gs| - 1);
    } else {
      OctetsSnoc(gs);
    }
  }

  lemma OctetsSnoc(gs: seq<string>)
    requires gs != [] && AllOctets(gs[..|gs| - 1]) && Octet(gs[|gs| - 1])
    ensures AllOctets(gs) && Octets(gs) == Octets(gs[..|gs| - 1]) + [DecValue(gs[|gs| - 1])]
  {
    var n := |gs| - 1;
    assert forall k | 0 <= k < n :: gs[k] == gs[..n][k];
  }

  lemma Ipv4Digit(word: string, i: nat, octets: seq<u8>, value: int, digits: nat)
    requires i < |word| && word[i] != '.' && Ipv4Progress(word, i, octets, value, digits)
    ensures !IsDigit(word[i]) ==> Ipv4Of(word).None?
    ensures IsDigit(word[i]) ==>
              var v := (if value < 0 then 0 else value) * 10 + (word[i] as int - '0' as int);
              if v > 255 then Ipv4Of(word).None? else Ipv4Progress(word, i + 1, octets, v, digits + 1)
  {
    var gs, c := Split(word[..i], '.'), word[i];
    var n := |gs| - 1;
    assert word[..i + 1] == word[..i] + [c];
    SplitChar(word[..i], c, '.');
    var g := gs[n] + [c];
    assert Extend(gs, [c])[..n] == gs[..n];
    if IsDigit(c) {
      assert g[..|g| - 1] == gs[n];
      if DecValue(g) > 255 {
        Ipv4Rejects(word, i + 1, n);
      }
    } else {
      assert g[|gs[n]|] == c;
      Ipv4Rejects(word, i + 1, n);
    }
  }

  /** parse_ipv4_word */
  method ParseIpv4Word(word: string) returns (r: Option<Bytes4>)
    ensures r == Ipv4Of(word)
  {
    hide Split;
    var octets: seq<u8> := [];
    var value, digits: nat := -1, 0;
    Ipv4Start(word);
    var i := 0;
    while i <= |word|
      invariant 0 <= i <= |word| + 1
      invariant i <= |word| ==> Ipv4Progress(word, i, octets, value, digits)
      invariant i == |word| + 1 ==> AllOctets(Split(word, '.')) && octets == Octets(Split(word, '.'))
    {
      var ch := if i < |word| then word[i] else '.';
      if ch == '.' {
        if i < |word| { Ipv4Dot(word, i, octets, value, digits); } else { Ipv4End(word, octets, value, digits); }
        hide Ipv4Progress;
        if digits == 0 || value > 255 || |octets| > 3 {
          return None;
        }
        octets := octets + [value];
        value, digits := -1, 0;
      } else {
        Ipv4Digit(word, i, octets, value, digits);
        if !IsDigit(ch) {
          return None;
        }
        value := (if value < 0 then 0 else value) * 10 + (ch as int - '0' as int);
        digits := digits + 1;
        if value > 255 {
          return None;
        }
      }
      i := i + 1;
    }
    return if |octets| == 4 then Some(octets) else None;
  }

  lemma Ipv4Start(word: string)
    ensures Ipv4Progress(word, 0, [], -1, 0)
  {
    assert word[..0] == "";
  }

  /** ip_addr_to_str */
  function PrintIpv4(a: Bytes4): string {
    Join([Dec(a[0]), Dec(a[1]), Dec(a[2]), Dec(a[3])], '.')
  }

  lemma DecIsFree(n: nat)
    ensures Free(Dec(n), '.') && Free(Dec(n), ':')
  {
  }

  lemma NoDotsNoAddress(w: string)
    requires Free(w, '.')
    ensures Ipv4Of(w).None?
  {
    SplitAppend("", w, '.');
    assert "" + w == w;
  }

  /** An IPv4 literal is digits and dots, and starts with a digit. */
  lemma Ipv4Letters(w: string)
    requires Ipv4Of(w).Some?
    ensures |w| > 0 && IsDigit(w[0]) && forall i | 0 <= i < |w| :: IsDigit(w[i]) || w[i] == '.'
  {
    var gs := Split(w, '.');
    assert Octet(gs[0]);
    SplitStarts(w, '.');
    PieceLetters(w);
  }

  lemma {:induction false} PieceLetters(w: string)
    requires forall k | 0 <= k < |Split(w, '.')| :: AllDigits(Split(w, '.')[k])
    ensures forall i | 0 <= i < |w| :: IsDigit(w[i]) || w[i] == '.'
    decreases |w|
  {
    if w != "" {
      var n := |w| - 1;
      var gs, hs := Split(w, '.'), Split(w[..n], '.');
      var m := |hs| - 1;
      if w[n] != '.' {
        assert gs[m] == hs[m] + [w[n]];
        assert gs[m][|hs[m]|] == w[n];
        forall k | 0 <= k < |hs| ensures AllDigits(hs[k]) {
          if k < m {
            assert hs[k] == gs[k];
          } else {
            assert forall i | 0 <= i < |hs[m]| :: hs[m][i] == gs[m][i];
          }
        }
      } else {
        forall k | 0 <= k < |hs| ensures AllDigits(hs[k]) { assert hs[k] == gs[k]; }
      }
      PieceLetters(w[..n]);
      forall i | 0 <= i < |w| ensures IsDigit(w[i]) || w[i] == '.' {
        if i < n { assert w[i] == w[..n][i]; }
      }
    }
  }

  lemma Ipv4RoundTrip(a: Bytes4)
    ensures Ipv4Of(PrintIpv4(a)) == Some(a)
  {
    var gs := [Dec(a[0]), Dec(a[1]), Dec(a[2]), Dec(a[3])];
    forall k | 0 <= k < 4 ensures Free(gs[k], '.') && Octet(gs[k]) && DecValue(gs[k]) == a[k] {
      DecIsFree(a[k]);
      DecRoundTrip(a[k]);
    }
    SplitOfJoin(gs, '.');
    assert Octets(gs) == a;
  }

  lemma JoinFour(p: string, q: string, r: string, t: string)
    ensures Join([p, q, r, t], '.') == p + "." + q + "." + r + "." + t
  {
    var one, two, three := [p], [p, q], [p, q, r];
    assert one + [q] == two && two + [r] == three && three + [t] == [p, q, r, t];
    JoinSnoc(one, q, '.');
    JoinSnoc(two, r, '.');
    JoinSnoc(three, t, '.');
  }

  /** Four numbers with dots between them are the four bytes, in that order. */
  lemma FourParts(p: string, q: string, r: string, t: string)
    requires Octet(p) && Octet(q) && Octet(r) && Octet(t)
    ensures Ipv4Of(p + "." + q + "." + r + "." + t) == Some([DecValue(p), DecValue(q), DecValue(r), DecValue(t)])
  {
    hide DecValue, Join, Split;
    var gs := [p, q, r, t];
    JoinFour(p, q, r, t);
    SplitOfJoin(gs, '.');
    assert Octets(gs) == [DecValue(p), DecValue(q), DecValue(r), DecValue(t)];
  }

  /** Nothing else is an address. */
  lemma OnlyFourParts(w: string) returns (p: string, q: string, r: string, t: string)
    requires Ipv4Of(w).Some?
    ensures Octet(p) && Octet(q) && Octet(r) && Octet(t) && w == p + "." + q + "." + r + "." + t
  {
    hide DecValue, Join, Split, Octet;
    var gs := Split(w, '.');
    JoinOfSplit(w, '.');
    p, q, r, t := gs[0], gs[1], gs[2], gs[3];
    assert gs == [p, q, r, t];
    JoinFour(p, q, r, t);
  }

  // ----- MAC -----

  /** Two hexadecimal digits at every third position, colons between. */
  predicate MacShaped(word: string) {
    && |word| == 17
    && (forall g | 0 <= g < 6 :: HexNibble(word[3 * g]) >= 0 && HexNibble(word[3 * g + 1]) >= 0)
    && (forall g | 0 <= g < 5 :: word[3 * g + 2] == ':')
  }

  function NibblePair(hi: char, lo: char): u8
    requires HexNibble(hi) >= 0 && HexNibble(lo) >= 0
  {
    HexNibble(hi) * 16 + HexNibble(lo)
  }

  function MacOf(word: string): Option<Bytes6> {
    if MacShaped(word)
    then Some(seq(6, g requires 0 <= g < 6 => NibblePair(word[3 * g], word[3 * g + 1])))
    else None
  }

  /** parse_mac_word */
  method ParseMacWord(word: string) returns (r: Option<Bytes6>)
    ensures r == MacOf(word)
  {
    if |word| != 17 {
      return None;
    }
    var out: seq<u8> := [];
    for g := 0 to 6
      invariant |out| == g
      invariant forall k | 0 <= k < g :: HexNibble(word[3 * k]) >= 0 && HexNibble(word[3 * k + 1]) >= 0
      invariant forall k | 0 <= k < g :: out[k] == NibblePair(word[3 * k], word[3 * k + 1])
      invariant forall k | 0 <= k < g && k < 5 :: word[3 * k + 2] == ':'
    {
      var base := 3 * g;
      var hi, lo := HexNibble(word[base]), HexNibble(word[base + 1]);
      if hi < 0 || lo < 0 {
        return None;
      }
      out := out + [hi * 16 + lo];
      if g < 5 && word[base + 2] != ':' {
        return None;
      }
    }
    assert out == MacOf(word).value;
    return Some(out);
  }

  function HexPair(b: u8): string {
    [HexDigit(b / 16), HexDigit(b % 16)]
  }

  /** eth_mac_to_str */
  function PrintMac(m: Bytes6): string {
    Join([HexPair(m[0]), HexPair(m[1]), HexPair(m[2]), HexPair(m[3]), HexPair(m[4]), HexPair(m[5])], ':')
  }

  lemma MacText(m: Bytes6)
    ensures PrintMac(m) == HexPair(m[0]) + [':'] + HexPair(m[1]) + [':'] + HexPair(m[2]) + [':']
                         + HexPair(m[3]) + [':'] + HexPair(m[4]) + [':'] + HexPair(m[5])
  {
    var gs := [HexPair(m[0]), HexPair(m[1]), HexPair(m[2]), HexPair(m[3]), HexPair(m[4]), HexPair(m[5])];
    hide HexPair;
    JoinSnoc(gs[..1], gs[1], ':');
    JoinSnoc(gs[..2], gs[2], ':');
    JoinSnoc(gs[..3], gs[3], ':');
    JoinSnoc(gs[..4], gs[4], ':');
    JoinSnoc(gs[..5], gs[5], ':');
    assert gs[..1] + [gs[1]] == gs[..2] && gs[..2] + [gs[2]] == gs[..3] && gs[..3] + [gs[3]] == gs[..4];
    assert gs[..4] + [gs[4]] == gs[..5] && gs[..5] + [gs[5]] == gs;
  }

  /** The printed form, character by character. */
  lemma MacLetters(m: Bytes6, g: nat)
    requires g < 6
    ensures |PrintMac(m)| == 17
    ensures PrintMac(m)[3 * g] == HexDigit(m[g] / 16) && PrintMac(m)[3 * g + 1] == HexDigit(m[g] % 16)
    ensures g < 5 ==> PrintMac(m)[3 * g + 2] == ':'
  {
    MacText(m);
    hide Join, PrintMac;
  }

  lemma MacRoundTrip(m: Bytes6)
    ensures MacOf(PrintMac(m)) == Some(m)
  {
    hide PrintMac;
    var w := PrintMac(m);
    forall g | 0 <= g < 6
      ensures |w| == 17 && HexNibble(w[3 * g]) == m[g] / 16 && HexNibble(w[3 * g + 1]) == m[g] % 16
      ensures g < 5 ==> w[3 * g + 2] == ':'
    {
      MacLetters(m, g);
    }
    assert |w| == 17 by { MacLetters(m, 0); }
    assert MacOf(w).value == m;
  }
}
