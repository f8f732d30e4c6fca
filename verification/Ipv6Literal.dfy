/**
  IPv6 literals (src/c/dispfilter.c, parse_hextet_list and parse_ipv6_word; the printer of
  src/c/ipv6_parser.c), in the text forms of section 2.2 of RFC 4291.
 */
module Ipv6Literal {
  import opened Words
  import opened Text
  import opened Literals

  // ----- hextet lists -----

  /** One group: one to four hexadecimal digits. */
  predicate Hextet(g: string) {
    1 <= |g| <= 4 && AllHex(g)
  }

  predicate AllHextets(gs: seq<string>) {
    forall k | 0 <= k < |gs| :: Hextet(gs[k])
  }

  function HextetValue(g: string): u16
    requires Hextet(g)
  {
    HexValueBound(g);
    Pow16Bound(|g|);
    HexValue(g)
  }

  lemma Pow16Bound(n: nat)
    requires n <= 4
    ensures Pow16(n) <= 0x1_0000
  {
    assert Pow16(4) == 16 * Pow16(3) && Pow16(3) == 16 * Pow16(2) && Pow16(2) == 16 * Pow16(1) && Pow16(1) == 16;
  }

  function Values(gs: seq<string>): (vs: seq<u16>)
    requires AllHextets(gs)
    ensures |vs| == |gs|
  {
    seq(|gs|, k requires 0 <= k < |gs| => HextetValue(gs[k]))
  }

  const MAX_GROUPS := 8

  /** Groups separated by single colons; an empty side has no groups. */
  function HextetsOf(s: string): Option<seq<u16>> {
    if s == "" then Some([])
    else
      var gs := Split(s, ':');
      if AllHextets(gs) && |gs| <= MAX_GROUPS then Some(Values(gs)) else None
  }

  /** The groups read so far, before the group that starts at i. */
  ghost predicate HextetProgress(s: string, i: nat, vs: seq<u16>)
    requires i <= |s|
  {
    var gs := Split(s[..i], ':');
    var n := |gs| - 1;
    gs[n] == "" && AllHextets(gs[..n]) && vs == Values(gs[..n]) && n <= MAX_GROUPS
  }

  /** Reading the group from i to j completes a piece. */
  lemma GroupRead(s: string, i: nat, j: nat, done: seq<string>)
    requires i <= j <= |s| && Split(s[..i], ':') == done + [""] && Free(s[i..j], ':')
    ensures Split(s[..j], ':') == done + [s[i..j]]
  {
    hide Split;
    assert s[..j] == s[..i] + s[i..j];
    SplitAppend(s[..i], s[i..j], ':');
    ExtendEmpty(done, s[i..j]);
  }

  lemma GroupReadOn(s: string, j: nat, gs: seq<string>)
    requires j < |s| && s[j] == ':' && Split(s[..j], ':') == gs
    ensures Split(s[..j + 1], ':') == gs + [""]
  {
    hide Split;
    assert s[..j + 1] == s[..j] + [':'];
    SplitSep(s[..j], ':');
  }

  /** Up to the next colon or the end, it is a piece of the whole. */
  lemma GroupIsPiece(s: string, i: nat, j: nat, done: seq<string>)
    requires i <= j <= |s| && Split(s[..i], ':') == done + [""]
    requires Free(s[i..j], ':') && (j < |s| ==> s[j] == ':')
    ensures |Split(s, ':')| > |done| && Split(s, ':')[|done|] == s[i..j]
  {
    hide Split;
    GroupRead(s, i, j, done);
    if j < |s| {
      GroupReadOn(s, j, done + [s[i..j]]);
      SplitPrefix(s, j + 1, ':');
      assert Split(s[..j + 1], ':')[|done|] == s[i..j];
    } else {
      assert s[..j] == s;
    }
  }

  lemma ExtendEmpty(done: seq<string>, g: string)
    ensures Extend(done + [""], g) == done + [g]
  {
    assert (done + [""])[..|done|] == done;
    assert "" + g == g;
  }

  lemma ValuesSnoc(gs: seq<string>)
    requires gs != [] && AllHextets(gs[..|gs| - 1]) && Hextet(gs[|gs| - 1])
    ensures AllHextets(gs) && Values(gs) == Values(gs[..|gs| - 1]) + [HextetValue(gs[|gs| - 1])]
  {
    var n := |gs| - 1;
    assert forall k | 0 <= k < n :: gs[k] == gs[..n][k];
  }

  /** What a good group from i to j adds. */
  lemma GroupAdds(s: string, i: nat, j: nat, vs: seq<u16>)
    requires i < |s| && i <= j <= |s| && HextetProgress(s, i, vs)
    requires Free(s[i..j], ':') && (j < |s| ==> s[j] == ':')
    ensures !Hextet(s[i..j]) || |vs| >= MAX_GROUPS ==> HextetsOf(s).None?
    ensures Hextet(s[i..j]) && |vs| < MAX_GROUPS && j + 1 < |s| ==>
              HextetProgress(s, j + 1, vs + [HextetValue(s[i..j])])
    ensures Hextet(s[i..j]) && j + 1 == |s| ==> HextetsOf(s).None?
    ensures Hextet(s[i..j]) && |vs| < MAX_GROUPS && j == |s| ==>
              HextetsOf(s) == Some(vs + [HextetValue(s[i..j])])
  {
    hide Split;
    var done := Split(s[..i], ':')[..|vs|];
    assert Split(s[..i], ':') == done + [""];
    GroupIsPiece(s, i, j, done);
    GroupRead(s, i, j, done);
    var gs := done + [s[i..j]];
    assert gs[..|vs|] == done;
    if Hextet(s[i..j]) {
      ValuesSnoc(gs);
      if j < |s| {
        GroupReadOn(s, j, gs);
        assert (gs + [""])[..|gs|] == gs;
        if j + 1 == |s| {
          assert s[..j + 1] == s;
          assert !Hextet(Split(s, ':')[|gs|]);
        }
      } else {
        assert s[..j] == s;
      }
    }
  }

  /** parse_hextet_list, first inner loop: the end of the group that starts at `start` */
  method GroupEnd(s: string, start: nat) returns (i: nat)
    requires start <= |s|
    ensures start <= i <= |s| && Free(s[start..i], ':') && (i < |s| ==> s[i] == ':')
  {
    i := start;
    while i < |s| && s[i] != ':'
      invariant start <= i <= |s| && Free(s[start..i], ':')
    {
      assert s[start..i + 1] == s[start..i] + [s[i]];
      i := i + 1;
    }
  }

  /** parse_hextet_list, second inner loop: the value of one group */
  method ParseHextet(g: string) returns (r: Option<u16>)
    ensures r.Some? <==> Hextet(g)
    ensures r.Some? ==> r.value == HextetValue(g)
  {
    if |g| == 0 || |g| > 4 {
      return None;
    }
    var val: u16 := 0;
    for j := 0 to |g|
      invariant AllHex(g[..j]) && val == HexValue(g[..j])
    {
      var nib := HexNibble(g[j]);
      if nib < 0 {
        return None;
      }
      assert g[..j + 1][..j] == g[..j] && AllHex(g[..j + 1]);
      HexValueBound(g[..j + 1]);
      Pow16Bound(j + 1);
      val := (val * 16 + nib) % 0x1_0000;
    }
    assert g[..|g|] == g;
    return Some(val);
  }

  /** parse_hextet_list */
  method ParseHextetList(s: string) returns (r: Option<seq<u16>>)
    ensures r == HextetsOf(s)
  {
    var out: seq<u16> := [];
    if |s| == 0 {
      return Some(out);
    }
    var i := 0;
    assert HextetProgress(s, 0, out) by { assert s[..0] == ""; }
    hide HextetProgress, HextetsOf, Hextet;
    while i < |s|
      invariant 0 <= i <= |s|
      invariant i < |s| ==> HextetProgress(s, i, out)
      invariant i == |s| ==> HextetsOf(s) == Some(out)
      decreases |s| - i
    {
      var end := GroupEnd(s, i);
      GroupAdds(s, i, end, out);
      var val := ParseHextet(s[i..end]);
      if val.None? || |out| >= MAX_GROUPS {
        return None;
      }
      out := out + [val.value];
      i := end;
      if i < |s| {
        i := i + 1;
        if i >= |s| {
          return None;
        }
      }
    }
    return Some(out);
  }

  // ----- the literal -----

  predicate DoubleAt(s: string, i: int) {
    0 <= i < |s| - 1 && s[i] == ':' && s[i + 1] == ':'
  }

  /** The first double colon at or after i. */
  function FindDouble(s: string, i: nat): (d: Option<nat>)
    ensures d.Some? ==> i <= d.value && DoubleAt(s, d.value)
    ensures d.Some? ==> forall k | i <= k < d.value :: !DoubleAt(s, k)
    ensures d.None? ==> forall k | i <= k :: !DoubleAt(s, k)
    decreases |s| - i
  {
    if i + 1 >= |s| then None
    else if DoubleAt(s, i) then Some(i)
    else FindDouble(s, i + 1)
  }

  function Zeros(n: nat): (z: seq<u16>)
    ensures |z| == n
  {
    seq(n, _ => 0)
  }

  /** Groups as bytes in network order. */
  function GroupBytes(gs: seq<u16>): (bs: seq<u8>)
    ensures |bs| == 2 * |gs|
  {
    if gs == [] then []
    else GroupBytes(gs[..|gs| - 1]) + [gs[|gs| - 1] / 0x100, gs[|gs| - 1] % 0x100]
  }

  /** The eight groups a word stands for. */
  function Ipv6Groups(word: string): (r: Option<seq<u16>>)
    ensures r.Some? ==> |r.value| == 8
  {
    match FindDouble(word, 0)
    case None =>
      (match HextetsOf(word)
       case None => None
       case Some(gs) => if |gs| == 8 then Some(gs) else None)
    case Some(d) =>
      (match (HextetsOf(word[..d]), HextetsOf(word[d + 2..]))
       case (Some(l), Some(r)) =>
         if |l| + |r| > 7 then None else Some(l + Zeros(8 - |l| - |r|) + r)
       case _ => None)
  }

  function Ipv6Of(word: string): Option<Bytes16> {
    match Ipv6Groups(word)
    case None => None
    case Some(gs) => Some(GroupBytes(gs))
  }

  /** The first loop of parse_ipv6_word */
  method FindDoubleColon(word: string) returns (dbl: int)
    ensures dbl == match FindDouble(word, 0) case None => -1 case Some(d) => d
  {
    var i := 0;
    while i + 1 < |word|
      invariant 0 <= i
      invariant FindDouble(word, 0) == FindDouble(word, i)
    {
      if word[i] == ':' && word[i + 1] == ':' {
        return i;
      }
      i := i + 1;
    }
    return -1;
  }

  /** parse_ipv6_word */
  method ParseIpv6Word(word: string) returns (r: Option<Bytes16>)
    ensures r == Ipv6Of(word)
  {
    hide HextetsOf, GroupBytes, FindDouble;
    var dbl := FindDoubleColon(word);
    var leftLen := if dbl >= 0 then dbl else |word|;
    assert word[..|word|] == word;
    var left := ParseHextetList(word[..leftLen]);
    if left.None? {
      return None;
    }
    var right: Option<seq<u16>> := Some([]);
    if dbl >= 0 {
      right := ParseHextetList(word[dbl + 2..]);
      if right.None? {
        return None;
      }
    }
    var total := |left.value| + |right.value|;
    if dbl >= 0 {
      if total > 7 {
        return None;
      }
    } else if total != 8 {
      return None;
    }
    assert dbl < 0 ==> left.value + Zeros(8 - total) + right.value == left.value;
    var out := FillGroups(left.value, 8 - total, right.value);
    return Some(out);
  }

  /** The last three loops of parse_ipv6_word */
  method FillGroups(left: seq<u16>, zeros: nat, right: seq<u16>) returns (out: seq<u8>)
    ensures out == GroupBytes(left + Zeros(zeros) + right)
  {
    GroupBytesAppend(left, Zeros(zeros));
    GroupBytesAppend(left + Zeros(zeros), right);
    var l := CopyGroups(left);
    var z := CopyGroups(Zeros(zeros));
    var r := CopyGroups(right);
    out := l + z + r;
  }

  lemma {:induction false} GroupBytesAppend(a: seq<u16>, b: seq<u16>)
    ensures GroupBytes(a + b) == GroupBytes(a) + GroupBytes(b)
  {
    if b == [] {
      assert a + b == a;
    } else {
      var k := |b| - 1;
      GroupBytesAppend(a, b[..k]);
      assert (a + b)[..|a + b| - 1] == a + b[..k];
    }
  }

  /** One copying loop of parse_ipv6_word. */
  method CopyGroups(gs: seq<u16>) returns (out: seq<u8>)
    ensures out == GroupBytes(gs)
  {
    out := [];
    for i := 0 to |gs|
      invariant out == GroupBytes(gs[..i])
    {
      assert gs[..i + 1][..i] == gs[..i];
      out := out + [gs[i] / 0x100, gs[i] % 0x100];
    }
    assert gs[..|gs|] == gs;
  }
}
