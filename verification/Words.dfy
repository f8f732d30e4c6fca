/** Machine words and byte-order helpers shared by every component. */
module Words {

  type u8 = x: int | 0 <= x < 0x100
  type u16 = x: int | 0 <= x < 0x1_0000
  type u32 = x: int | 0 <= x < 0x1_0000_0000

  const TWO32: int := 0x1_0000_0000

  datatype Option<+T> = None | Some(value: T)

  /** Two bytes in network order. */
  function Be16(hi: u8, lo: u8): u16 {
    hi * 0x100 + lo
  }

  /** A run of bytes in network order, most significant first. */
  function BigEndian(s: seq<u8>): nat {
    if s == [] then 0 else BigEndian(s[..|s| - 1]) * 0x100 + s[|s| - 1]
  }

  lemma BigEndian2(s: seq<u8>)
    requires |s| == 2
    ensures BigEndian(s) == Be16(s[0], s[1])
  {
    assert s[..1][..0] == [];
    assert BigEndian(s[..1]) == s[0];
  }

  function Pow256(n: nat): nat {
    if n == 0 then 1 else 0x100 * Pow256(n - 1)
  }

  lemma {:induction false} BigEndianBound(s: seq<u8>)
    ensures BigEndian(s) < Pow256(|s|)
  {
    if s != [] { BigEndianBound(s[..|s| - 1]); }
  }

  /** Equal-length byte strings with the same network-order value are the same bytes. */
  lemma {:induction false} BigEndianInjective(s: seq<u8>, t: seq<u8>)
    requires |s| == |t|
    requires BigEndian(s) == BigEndian(t)
    ensures s == t
  {
    if s != [] {
      var n := |s| - 1;
      assert s[n] == BigEndian(s) % 0x100 && t[n] == BigEndian(t) % 0x100;
      BigEndianInjective(s[..n], t[..n]);
      assert s == s[..n] + [s[n]] && t == t[..n] + [t[n]];
    }
  }

  function Pow2(n: nat): nat
    ensures Pow2(n) > 0
  {
    if n == 0 then 1 else 2 * Pow2(n - 1)
  }

  /** Bit i of a natural number. */
  function Bit(a: nat, i: nat): bool {
    if i == 0 then a % 2 == 1 else Bit(a / 2, i - 1)
  }

  /** Bitwise and. */
  function BitAnd(a: nat, b: nat): nat
    ensures BitAnd(a, b) <= a
  {
    if a == 0 then 0 else 2 * BitAnd(a / 2, b / 2) + (a % 2) * (b % 2)
  }

  /** BitAnd is bitwise conjunction. */
  lemma {:induction false} BitAndBits(a: nat, b: nat, i: nat)
    ensures Bit(BitAnd(a, b), i) == (Bit(a, i) && Bit(b, i))
    decreases i
  {
    var p := (a % 2) * (b % 2);
    assert p == 0 || p == 1;
    if a == 0 {
      ZeroHasNoBits(i);
    } else if i > 0 {
      BitAndBits(a / 2, b / 2, i - 1);
      assert BitAnd(a, b) / 2 == BitAnd(a / 2, b / 2);
    }
  }

  lemma {:induction false} ZeroHasNoBits(i: nat)
    ensures !Bit(0, i)
  {
    if i > 0 { ZeroHasNoBits(i - 1); }
  }

  /** Masking with w-s one bits followed by s zero bits clears the low s bits. */
  lemma {:induction false} BitAndMask(a: nat, w: nat, s: nat)
    requires s <= w && a < Pow2(w)
    ensures Pow2(s) <= Pow2(w)
    ensures BitAnd(a, Pow2(w) - Pow2(s)) == a / Pow2(s) * Pow2(s)
    decreases w
  {
    Pow2Monotone(s, w);
    if a == 0 || w == 0 {
      assert 0 / Pow2(s) == 0;
    } else {
      var low := if s == 0 then 0 else s - 1;
      BitAndMask(a / 2, w - 1, low);
      var m := Pow2(w) - Pow2(s);
      if s == 0 {
        assert m / 2 == Pow2(w - 1) - 1 && m % 2 == 1;
        assert a / 1 * 1 == a && a / 2 / 1 * 1 == a / 2;
      } else {
        assert m / 2 == Pow2(w - 1) - Pow2(s - 1) && m % 2 == 0;
        assert (a % 2) * (m % 2) == 0;
        DoubleQuotient(a, Pow2(s - 1));
      }
    }
  }

  lemma DoubleQuotient(a: nat, d: nat)
    requires d > 0
    ensures 2 * (a / 2 / d * d) == a / (2 * d) * (2 * d)
  {
    DivTwice(a, d);
    var q := a / (2 * d);
    assert 2 * (q * d) == q * (2 * d);
  }

  lemma {:induction false} Pow2Monotone(s: nat, w: nat)
    requires s <= w
    ensures Pow2(s) <= Pow2(w)
  {
    if s < w { Pow2Monotone(s, w - 1); }
  }

  lemma {:induction false} Pow2Add(a: nat, b: nat)
    ensures Pow2(a + b) == Pow2(a) * Pow2(b)
  {
    if a > 0 {
      Pow2Add(a - 1, b);
      Associates(2, Pow2(a - 1), Pow2(b));
    }
  }

  lemma Associates(x: int, y: int, z: int)
    ensures x * (y * z) == (x * y) * z
  {
  }

  lemma DivUnique(a: int, d: int, q: int, r: int)
    requires d > 0 && 0 <= r < d && a == q * d + r
    ensures a / d == q && a % d == r
  {
    var e := a / d - q;
    assert e * d == r - a % d by {
      assert (a / d - q) * d == a / d * d - q * d;
    }
    assert -d < e * d < d;
    assert -1 < e < 1 by {
      assert e >= 1 ==> e * d >= d;
      assert e <= -1 ==> e * d <= -d;
    }
  }

  lemma DivTwice(a: nat, d: nat)
    requires d > 0
    ensures a / (2 * d) == a / 2 / d
  {
    var h := a / 2;
    var q, r := h / d, h % d;
    assert h == q * d + r;
    assert a == 2 * h + a % 2;
    assert a == q * (2 * d) + (2 * r + a % 2) by {
      assert 2 * (q * d) == q * (2 * d);
    }
    DivUnique(a, 2 * d, q, 2 * r + a % 2);
  }
}
