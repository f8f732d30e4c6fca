/** Splitting and joining words, and numbers in decimal and hexadecimal. */
module Text {
  // ----- splitting on a separator -----

  /** The pieces of s between separators; there is always at least one. */
  function Split(s: string, sep: char): (gs: seq<string>)
    ensures |gs| >= 1
  {
    if s == "" then [""]
    else
      var gs := Split(s[..|s| - 1], sep);
      var c, n := s[|s| - 1], |gs| - 1;
      if c == sep then gs + [""] else gs[..n] + [gs[n] + [c]]
  }

  function Join(gs: seq<string>, sep: char): string {
    if gs == [] then ""
    else if |gs| == 1 then gs[0]
    else Join(gs[..|gs| - 1], sep) + [sep] + gs[|gs| - 1]
  }

  predicate Free(s: string, c: char) {
    forall i | 0 <= i < |s| :: s[i] != c
  }

  predicate AllFree(gs: seq<string>, c: char) {
    forall i | 0 <= i < |gs| :: Free(gs[i], c)
  }

  /** gs with w added to its last piece. */
  function Extend(gs: seq<string>, w: string): seq<string>
    requires gs != []
  {
    gs[..|gs| - 1] + [gs[|gs| - 1] + w]
  }

  lemma ExtendTwice(gs: seq<string>, v: string, w: string)
    requires gs != []
    ensures Extend(Extend(gs, v), w) == Extend(gs, v + w)
  {
    var n := |gs| - 1;
    assert Extend(gs, v)[..n] == gs[..n];
    assert gs[n] + v + w == gs[n] + (v + w);
  }

  /** The first piece stands at the start. */
  lemma {:induction false} SplitStarts(s: string, sep: char)
    ensures Split(s, sep)[0] <= s && (|Split(s, sep)| == 1 ==> Split(s, sep)[0] == s)
    decreases |s|
  {
    if s != "" {
      var n := |s| - 1;
      SplitStarts(s[..n], sep);
      assert s == s[..n] + [s[n]];
    }
  }

  lemma SplitChar(s: string, c: char, sep: char)
    requires c != sep
    ensures Split(s + [c], sep) == Extend(Split(s, sep), [c])
  {
    assert (s + [c])[..|s + [c]| - 1] == s;
  }

  lemma {:induction false} SplitAppend(s: string, w: string, sep: char)
    requires Free(w, sep)
    ensures Split(s + w, sep) == Extend(Split(s, sep), w)
  {
    var gs := Split(s, sep);
    if w == "" {
      assert s + w == s && gs[|gs| - 1] + w == gs[|gs| - 1];
    } else {
      var v, c := w[..|w| - 1], w[|w| - 1];
      assert w == v + [c] && s + w == s + v + [c];
      SplitAppend(s, v, sep);
      SplitChar(s + v, c, sep);
      ExtendTwice(gs, v, [c]);
    }
  }

  lemma SplitSep(s: string, sep: char)
    ensures Split(s + [sep], sep) == Split(s, sep) + [""]
  {
    assert (s + [sep])[..|s + [sep]| - 1] == s;
  }

  lemma JoinSnoc(gs: seq<string>, g: string, sep: char)
    requires gs != []
    ensures Join(gs + [g], sep) == Join(gs, sep) + [sep] + g
  {
    assert (gs + [g])[..|gs|] == gs;
  }

  /** Splitting undoes joining, when no piece contains the separator. */
  lemma {:induction false} SplitOfJoin(gs: seq<string>, sep: char)
    requires gs != [] && AllFree(gs, sep)
    ensures Split(Join(gs, sep), sep) == gs
  {
    var n := |gs| - 1;
    if n == 0 {
      SplitAppend("", gs[0], sep);
      assert "" + gs[0] == gs[0] && gs == [gs[0]];
    } else {
      var front, g := gs[..n], gs[n];
      assert gs == front + [g];
      SplitOfJoin(front, sep);
      JoinSnoc(front, g, sep);
      SplitSep(Join(front, sep), sep);
      SplitAppend(Join(front, sep) + [sep], g, sep);
      hide Split, Join;
      assert Extend(front + [""], g) == front + [g] by {
        assert (front + [""])[..n] == front;
        assert "" + g == g;
      }
    }
  }

  /** Joining undoes splitting. */
  lemma {:induction false} JoinOfSplit(s: string, sep: char)
    ensures Join(Split(s, sep), sep) == s && AllFree(Split(s, sep), sep)
  {
    if s != "" {
      var t, c := s[..|s| - 1], s[|s| - 1];
      assert s == t + [c];
      JoinOfSplit(t, sep);
      if c == sep {
        SplitSep(t, sep);
        JoinSnoc(Split(t, sep), "", sep);
      } else {
        SplitChar(t, c, sep);
        JoinExtend(Split(t, sep), [c], sep);
      }
      hide Split, Join;
    }
  }

  lemma JoinExtend(gs: seq<string>, w: string, sep: char)
    requires gs != []
    ensures Join(Extend(gs, w), sep) == Join(gs, sep) + w
  {
    var n := |gs| - 1;
    assert Extend(gs, w)[..n] == gs[..n];
  }

  /** A prefix's pieces stay; its last piece can only grow. */
  lemma {:induction false} SplitPrefix(s: string, i: nat, sep: char)
    requires i <= |s|
    ensures var a, b := Split(s[..i], sep), Split(s, sep);
            && |a| <= |b|
            && (forall k | 0 <= k < |a| - 1 :: b[k] == a[k])
            && a[|a| - 1] <= b[|a| - 1]
    decreases |s| - i
  {
    if i == |s| {
      assert s[..i] == s;
    } else {
      SplitPrefix(s, i + 1, sep);
      assert s[..i + 1][..i] == s[..i];
    }
  }

  // ----- decimal -----

  predicate IsDigit(c: char) {
    '0' <= c <= '9'
  }

  predicate AllDigits(s: string) {
    forall i | 0 <= i < |s| :: IsDigit(s[i])
  }

  function DecValue(s: string): nat
    requires AllDigits(s)
  {
    if s == "" then 0 else DecValue(s[..|s| - 1]) * 10 + (s[|s| - 1] as int - '0' as int)
  }

  function Digit(d: nat): (c: char)
    requires d < 10
    ensures IsDigit(c) && c as int - '0' as int == d
  {
    ('0' as int + d) as char
  }

  /** A number without leading zeros, as %u prints it. */
  function Dec(n: nat): (s: string)
    ensures |s| >= 1 && AllDigits(s)
  {
    if n < 10 then [Digit(n)] else Dec(n / 10) + [Digit(n % 10)]
  }

  lemma {:induction false} DecRoundTrip(n: nat)
    ensures DecValue(Dec(n)) == n
  {
    if n < 10 {
      assert Dec(n)[..0] == "";
    } else {
      DecRoundTrip(n / 10);
      assert Dec(n)[..|Dec(n)| - 1] == Dec(n / 10);
    }
  }

  /** More digits never make a number smaller. */
  lemma {:induction false} DecValueGrows(s: string, t: string)
    requires s <= t && AllDigits(t)
    ensures DecValue(s) <= DecValue(t)
  {
    if |s| < |t| {
      DecValueGrows(s, t[..|t| - 1]);
    } else {
      assert s == t;
    }
  }

  /** A digit's value is its place among the digits, and one more digit is worth ten times as much. */
  lemma DecByPlace(s: string, d: nat)
    requires AllDigits(s) && d < 10
    ensures IsDigit("0123456789"[d]) && DecValue(s + ["0123456789"[d]]) == 10 * DecValue(s) + d
    ensures DecValue("") == 0
  {
    assert d == 0 || d == 1 || d == 2 || d == 3 || d == 4 || d == 5 || d == 6 || d == 7 || d == 8 || d == 9;
    var c := "0123456789"[d];
    assert c as int == '0' as int + d;
    assert (s + [c])[..|s + [c]| - 1] == s;
  }

  // ----- hexadecimal -----

  function HexNibble(c: char): int {
    if '0' <= c <= '9' then c as int - '0' as int
    else if 'a' <= c <= 'f' then c as int - 'a' as int + 10
    else if 'A' <= c <= 'F' then c as int - 'A' as int + 10
    else -1
  }

  /** A hexadecimal digit's value is its place among the digits, in either case; nothing else is one. */
  lemma HexNibbleIsPlace(c: char)
    ensures forall d | 0 <= d < 16 :: HexNibble("0123456789abcdef"[d]) == d && HexNibble("0123456789ABCDEF"[d]) == d
    ensures c !in "0123456789abcdef" && c !in "0123456789ABCDEF" <==> HexNibble(c) == -1
  {
    var lower, upper := "0123456789abcdef", "0123456789ABCDEF";
    forall d | 0 <= d < 16 ensures HexNibble(lower[d]) == d && HexNibble(upper[d]) == d { PlaceOf(d); }
    var d := HexNibble(c);
    if d >= 0 {
      PlaceOf(d);
      assert c == lower[d] || c == upper[d];
    } else {
      assert forall k | 0 <= k < 16 :: HexNibble(lower[k]) >= 0 && HexNibble(upper[k]) >= 0;
    }
  }

  lemma PlaceOf(d: nat)
    requires d < 16
    ensures HexNibble("0123456789abcdef"[d]) == d && HexNibble("0123456789ABCDEF"[d]) == d
    ensures "0123456789abcdef"[d] as int == if d < 10 then '0' as int + d else 'a' as int + d - 10
    ensures "0123456789ABCDEF"[d] as int == if d < 10 then '0' as int + d else 'A' as int + d - 10
    ensures HexDigit(d) == "0123456789abcdef"[d]
  {
    assert d == 0 || d == 1 || d == 2 || d == 3 || d == 4 || d == 5 || d == 6 || d == 7
        || d == 8 || d == 9 || d == 10 || d == 11 || d == 12 || d == 13 || d == 14 || d == 15;
  }

  predicate AllHex(s: string) {
    forall i | 0 <= i < |s| :: HexNibble(s[i]) >= 0
  }

  function HexValue(s: string): nat
    requires AllHex(s)
  {
    if s == "" then 0 else HexValue(s[..|s| - 1]) * 16 + HexNibble(s[|s| - 1])
  }

  /** One more digit is worth sixteen times as much. */
  lemma HexByPlace(s: string, c: char)
    requires AllHex(s) && HexNibble(c) >= 0
    ensures HexValue("") == 0 && HexValue(s + [c]) == 16 * HexValue(s) + HexNibble(c)
  {
    assert (s + [c])[..|s + [c]| - 1] == s;
  }

  function HexDigit(d: nat): (c: char)
    requires d < 16
    ensures HexNibble(c) == d
  {
    if d < 10 then ('0' as int + d) as char else ('a' as int + d - 10) as char
  }

  /** Lower-case hexadecimal without leading zeros, as %x prints it. */
  function Hex(n: nat): (s: string)
    ensures |s| >= 1 && AllHex(s)
  {
    if n < 16 then [HexDigit(n)] else Hex(n / 16) + [HexDigit(n % 16)]
  }

  lemma {:induction false} HexRoundTrip(n: nat)
    ensures HexValue(Hex(n)) == n
  {
    if n < 16 {
      assert Hex(n)[..0] == "";
    } else {
      HexRoundTrip(n / 16);
      assert Hex(n)[..|Hex(n)| - 1] == Hex(n / 16);
    }
  }

  function Pow16(n: nat): nat {
    if n == 0 then 1 else 16 * Pow16(n - 1)
  }

  lemma {:induction false} HexValueBound(s: string)
    requires AllHex(s)
    ensures HexValue(s) < Pow16(|s|)
  {
    if s != "" { HexValueBound(s[..|s| - 1]); }
  }

  /** Sixteen bits take at most four hexadecimal digits. */
  lemma HexLength(n: nat)
    requires n < 0x1_0000
    ensures |Hex(n)| <= 4
  {
    assert |Hex(n / 0x1000)| == 1 by { assert n / 0x1000 < 16; }
    if n >= 0x1000 {
      assert n / 16 / 16 / 16 == n / 0x1000;
      assert |Hex(n / 16 / 16)| == 2;
      assert |Hex(n / 16)| == 3;
    } else if n >= 0x100 {
      assert |Hex(n / 16 / 16)| == 1;
      assert |Hex(n / 16)| == 2;
    }
  }

  lemma HexIsFree(s: string)
    requires AllHex(s)
    ensures Free(s, ':') && Free(s, '.')
  {
  }
}
