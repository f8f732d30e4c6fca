/** Which words are IPv6 literals, and what every written form of an address stands for. */
module Ipv6Forms {
  import opened Words
  import opened Text
  import opened Literals
  import opened Ipv6Literal

  /** Groups joined by colons: no double colon, no colon at either end. */
  lemma {:induction false} JoinShape(gs: seq<string>)
    requires AllHextets(gs)
    ensures forall i :: !DoubleAt(Join(gs, ':'), i)
    ensures gs != [] ==> var s := Join(gs, ':'); |s| > 0 && s[0] != ':' && s[|s| - 1] != ':'
  {
    var n := |gs| - 1;
    if n > 0 {
      JoinShape(gs[..n]);
      HexIsFree(gs[n]);
      var a, g, s := Join(gs[..n], ':'), gs[n], Join(gs, ':');
      assert s == a + [':'] + g;
      forall i ensures !DoubleAt(s, i) {
        if 0 <= i < |a| {
          assert s[i] == a[i] && (i + 1 < |a| ==> s[i + 1] == a[i + 1]);
          assert !DoubleAt(a, i);
        } else if |a| <= i < |s| - 1 {
          assert s[i + 1] == g[i - |a|];
        }
      }
    } else if n == 0 {
      HexIsFree(gs[0]);
    }
  }

  lemma AllFreeOfColons(gs: seq<string>)
    requires AllHextets(gs)
    ensures AllFree(gs, ':')
  {
    forall k | 0 <= k < |gs| ensures Free(gs[k], ':') { HexIsFree(gs[k]); }
  }

  lemma HextetsOfJoin(gs: seq<string>)
    requires AllHextets(gs) && |gs| <= MAX_GROUPS
    ensures HextetsOf(Join(gs, ':')) == Some(Values(gs))
  {
    if gs != [] {
      JoinShape(gs);
      AllFreeOfColons(gs);
      SplitOfJoin(gs, ':');
    }
  }

  lemma HextetsAreJoined(s: string) returns (gs: seq<string>)
    requires HextetsOf(s).Some?
    ensures AllHextets(gs) && |gs| <= MAX_GROUPS && s == Join(gs, ':') && HextetsOf(s) == Some(Values(gs))
  {
    if s == "" {
      gs := [];
    } else {
      gs := Split(s, ':');
      JoinOfSplit(s, ':');
    }
  }

  /** A compressed literal: two groups of hextets around a double colon. */
  function Compressed(l: seq<string>, r: seq<string>): string {
    Join(l, ':') + "::" + Join(r, ':')
  }

  /** The only double colon of a compressed literal is the one between its two sides. */
  lemma CompressedDoubles(l: seq<string>, r: seq<string>, k: int)
    requires AllHextets(l) && AllHextets(r)
    ensures DoubleAt(Compressed(l, r), k) <==> k == |Join(l, ':')|
  {
    var a, b, w := Join(l, ':'), Join(r, ':'), Compressed(l, r);
    JoinShape(l);
    JoinShape(r);
    assert |w| == |a| + 2 + |b| && w[|a|] == ':' && w[|a| + 1] == ':';
    if 0 <= k < |a| {
      assert w[k] == a[k] && (k + 1 < |a| ==> w[k + 1] == a[k + 1]);
      assert !DoubleAt(a, k);
    } else if k == |a| + 1 && b != "" {
      assert w[k + 1] == b[0];
    } else if |a| + 2 <= k < |w| - 1 {
      var i := k - |a| - 2;
      assert w[k] == b[i] && w[k + 1] == b[i + 1];
      assert !DoubleAt(b, i);
    }
  }

  /** A compressed literal of at most seven groups stands for left, zeros, right. */
  lemma CompressedForm(l: seq<string>, r: seq<string>)
    requires AllHextets(l) && AllHextets(r) && |l| + |r| <= 7
    ensures Ipv6Groups(Compressed(l, r)) == Some(Values(l) + Zeros(8 - |l| - |r|) + Values(r))
  {
    hide FindDouble, HextetsOf, Join, Values, DoubleAt;
    var a, w := Join(l, ':'), Compressed(l, r);
    CompressedDoubles(l, r, |a|);
    var d := FindDouble(w, 0);
    if d.Some? {
      CompressedDoubles(l, r, d.value);
    }
    assert d == Some(|a|);
    assert w[..|a|] == a && w[|a| + 2..] == Join(r, ':');
    HextetsOfJoin(l);
    HextetsOfJoin(r);
  }

  /** Eight groups joined by colons stand for themselves. */
  lemma FullForm(gs: seq<string>)
    requires AllHextets(gs) && |gs| == 8
    ensures Ipv6Groups(Join(gs, ':')) == Some(Values(gs))
  {
    JoinShape(gs);
    HextetsOfJoin(gs);
  }

  /** Conversely, every accepted word is one of these two forms. */
  lemma AcceptedForms(word: string) returns (l: seq<string>, r: seq<string>)
    requires Ipv6Groups(word).Some?
    ensures AllHextets(l) && AllHextets(r)
    ensures || (word == Join(l, ':') && |l| == 8 && Ipv6Groups(word).value == Values(l))
            || (word == Compressed(l, r) && |l| + |r| <= 7
                && Ipv6Groups(word).value == Values(l) + Zeros(8 - |l| - |r|) + Values(r))
  {
    hide FindDouble, HextetsOf, Join, Values;
    match FindDouble(word, 0)
    case None =>
      l := HextetsAreJoined(word);
      r := [];
    case Some(d) =>
      l := HextetsAreJoined(word[..d]);
      r := HextetsAreJoined(word[d + 2..]);
      assert word == word[..d] + "::" + word[d + 2..];
  }

  /** An accepted word has at most one double colon. */
  lemma AtMostOneDouble(word: string, i: int, j: int)
    requires Ipv6Groups(word).Some? && DoubleAt(word, i) && DoubleAt(word, j)
    ensures i == j
  {
    var l, r := AcceptedForms(word);
    if word == Compressed(l, r) {
      CompressedDoubles(l, r, i);
      CompressedDoubles(l, r, j);
    } else {
      JoinShape(l);
      assert false;
    }
  }

  // ----- printing -----

  function HexGroups(gs: seq<u16>): (ss: seq<string>)
    ensures |ss| == |gs|
  {
    seq(|gs|, k requires 0 <= k < |gs| => Hex(gs[k]))
  }

  lemma HexGroupsValues(gs: seq<u16>)
    ensures AllHextets(HexGroups(gs)) && Values(HexGroups(gs)) == gs
  {
    forall k | 0 <= k < |gs| ensures Hextet(HexGroups(gs)[k]) && HextetValue(HexGroups(gs)[k]) == gs[k] {
      HexLength(gs[k]);
      HexRoundTrip(gs[k]);
    }
  }

  /** The eight groups of an address. */
  function AddressGroups(addr: Bytes16): (gs: seq<u16>)
    ensures |gs| == 8
  {
    seq(8, k requires 0 <= k < 8 => Be16(addr[2 * k], addr[2 * k + 1]))
  }

  /** ipv6_addr_to_str */
  function PrintIpv6(addr: Bytes16): string {
    Join(HexGroups(AddressGroups(addr)), ':')
  }

  lemma {:induction false} GroupBytesAt(gs: seq<u16>, k: nat)
    requires k < |gs|
    ensures GroupBytes(gs)[2 * k] == gs[k] / 0x100 && GroupBytes(gs)[2 * k + 1] == gs[k] % 0x100
  {
    if k < |gs| - 1 { GroupBytesAt(gs[..|gs| - 1], k); }
  }

  lemma GroupsOfAddress(addr: Bytes16)
    ensures GroupBytes(AddressGroups(addr)) == addr
  {
    var gs := AddressGroups(addr);
    forall i | 0 <= i < 16 ensures GroupBytes(gs)[i] == addr[i] {
      GroupBytesAt(gs, i / 2);
      assert i == 2 * (i / 2) || i == 2 * (i / 2) + 1;
    }
  }

  /** The printed form of an address parses back to it. */
  lemma Ipv6RoundTrip(addr: Bytes16)
    ensures Ipv6Of(PrintIpv6(addr)) == Some(addr)
  {
    var gs := AddressGroups(addr);
    HexGroupsValues(gs);
    FullForm(HexGroups(gs));
    GroupsOfAddress(addr);
  }

  /** So does every form in which one run of zero groups is replaced by a double colon. */
  lemma CompressedRoundTrip(addr: Bytes16, a: nat, b: nat)
    requires a < b <= 8 && forall k | a <= k < b :: AddressGroups(addr)[k] == 0
    ensures Ipv6Of(Compressed(HexGroups(AddressGroups(addr)[..a]), HexGroups(AddressGroups(addr)[b..]))) == Some(addr)
  {
    hide *;
    var gs := AddressGroups(addr);
    HexGroupsValues(gs[..a]);
    HexGroupsValues(gs[b..]);
    CompressedForm(HexGroups(gs[..a]), HexGroups(gs[b..]));
    ZeroRun(gs, a, b);
    GroupsOfAddress(addr);
    BytesOfGroups(Compressed(HexGroups(gs[..a]), HexGroups(gs[b..])), gs);
  }

  lemma ZeroRun(gs: seq<u16>, a: nat, b: nat)
    requires a < b <= |gs| && forall k | a <= k < b :: gs[k] == 0
    ensures gs == gs[..a] + Zeros(|gs| - a - (|gs| - b)) + gs[b..]
  {
  }

  lemma BytesOfGroups(word: string, gs: seq<u16>)
    requires Ipv6Groups(word) == Some(gs)
    ensures Ipv6Of(word) == Some(GroupBytes(gs))
  {
  }

  // ----- disambiguation -----

  /** A MAC address has six groups and no double colon. */
  lemma MacHasSixGroups(word: string)
    requires MacShaped(word)
    ensures |Split(word, ':')| == 6 && FindDouble(word, 0).None?
  {
    var gs := seq(6, g requires 0 <= g < 6 => word[3 * g..3 * g + 2]);
    forall k | 0 <= k < 6 ensures Free(gs[k], ':') {
      assert gs[k][0] == word[3 * k] && gs[k][1] == word[3 * k + 1];
    }
    MacIsJoin(word, gs, 6);
    assert gs[..6] == gs && word[..17] == word;
    SplitOfJoin(gs, ':');
    var d := FindDouble(word, 0);
    if d.Some? {
      MacNoDouble(word, d.value);
    }
  }

  lemma MacNoDouble(word: string, i: nat)
    requires MacShaped(word)
    ensures !DoubleAt(word, i)
  {
    var g := i / 3;
    if i < 16 {
      assert HexNibble(word[3 * g]) >= 0 && HexNibble(word[3 * g + 1]) >= 0;
      if i == 3 * g + 2 {
        assert HexNibble(word[3 * (g + 1)]) >= 0;
      }
    }
  }

  lemma {:induction false} MacIsJoin(word: string, gs: seq<string>, n: nat)
    requires MacShaped(word) && 1 <= n <= 6
    requires |gs| == 6 && forall g | 0 <= g < 6 :: gs[g] == word[3 * g..3 * g + 2]
    ensures Join(gs[..n], ':') == word[..3 * n - 1]
  {
    if n > 1 {
      MacIsJoin(word, gs, n - 1);
      assert gs[..n] == gs[..n - 1] + [gs[n - 1]];
      JoinSnoc(gs[..n - 1], gs[n - 1], ':');
      assert word[3 * (n - 2) + 2] == ':';
      assert word[..3 * n - 1] == word[..3 * n - 4] + [':'] + word[3 * n - 3..3 * n - 1];
    }
  }

  /** No word is both a MAC address and an IPv6 address, so the order of the attempts is immaterial. */
  lemma MacIsNotIpv6(word: string)
    requires MacOf(word).Some?
    ensures Ipv6Of(word).None?
  {
    MacHasSixGroups(word);
  }
}
