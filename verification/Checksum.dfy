/** The Internet checksum of RFC 1071 (src/c/checksum.c). */
module Checksum {
  import opened Words

  /** The sum of a byte string's big-endian 16-bit words, an odd last byte padded with zero. */
  function WordSum(data: seq<u8>): nat {
    if |data| == 0 then 0
    else if |data| == 1 then Be16(data[0], 0)
    else Be16(data[0], data[1]) as int + WordSum(data[2..])
  }

  /** Sums chain: a part of even length and the rest add up. */
  lemma {:induction false} WordSumAppend(a: seq<u8>, b: seq<u8>)
    requires |a| % 2 == 0
    ensures WordSum(a + b) == WordSum(a) + WordSum(b)
  {
    if a == [] {
      assert a + b == b;
    } else {
      assert (a + b)[2..] == a[2..] + b;
      WordSumAppend(a[2..], b);
    }
  }

  /** Byte by byte: at an even place a byte counts 256 times, at an odd place once. */
  lemma {:induction false} WordSumByBytes(data: seq<u8>, b: u8)
    ensures WordSum(data + [b]) == WordSum(data) + if |data| % 2 == 0 then 256 * b as int else b as int
    decreases |data|
  {
    if |data| >= 2 {
      WordSumByBytes(data[2..], b);
      assert (data + [b])[2..] == data[2..] + [b];
    } else if |data| == 1 {
      assert (data + [b])[2..] == [];
    }
  }

  lemma {:induction false} WordSumBound(data: seq<u8>)
    ensures WordSum(data) <= (|data| + 1) / 2 * 65535
  {
    if |data| >= 2 {
      WordSumBound(data[2..]);
      assert (|data| + 1) / 2 == (|data| - 2 + 1) / 2 + 1;
    }
  }

  /** A 32-bit unsigned register. */
  function Wrap32(n: nat): u32 {
    n % TWO32
  }

  lemma WrapAdd(a: nat, b: nat)
    ensures Wrap32(Wrap32(a) + b) == Wrap32(a + b)
  {
    var q := a / TWO32;
    assert a + b == q * TWO32 + (a % TWO32 + b);
    var r := a % TWO32 + b;
    DivUnique(a + b, TWO32, q + r / TWO32, r % TWO32);
  }

  /** The accumulator after the first i bytes */
  function Accumulated(sum0: u32, data: seq<u8>, i: nat): u32
    requires i <= |data|
  {
    Wrap32(sum0 + WordSum(data[..i]))
  }

  /** checksum_partial: accumulation in 32 bits */
  method Partial(data: seq<u8>, sum0: u32) returns (sum: u32)
    ensures sum == Wrap32(sum0 + WordSum(data))
  {
    hide WordSum, Accumulated;
    sum := sum0;
    var i := 0;
    AccumulatedEnds(sum0, data);
    while i + 1 < |data|
      invariant 0 <= i <= |data| && i % 2 == 0
      invariant sum == Accumulated(sum0, data, i)
    {
      AccumulatedWord(sum0, data, i);
      sum := Wrap32(sum + Be16(data[i], data[i + 1]) as int);
      i := i + 2;
    }
    if i < |data| {
      AccumulatedByte(sum0, data, i);
      sum := Wrap32(sum + Be16(data[i], 0) as int);
    }
  }

  lemma AccumulatedEnds(sum0: u32, data: seq<u8>)
    ensures Accumulated(sum0, data, 0) == sum0 && Accumulated(sum0, data, |data|) == Wrap32(sum0 + WordSum(data))
  {
    assert data[..|data|] == data;
  }

  lemma AccumulatedWord(sum0: u32, data: seq<u8>, i: nat)
    requires i + 1 < |data| && i % 2 == 0
    ensures Accumulated(sum0, data, i + 2) == Wrap32(Accumulated(sum0, data, i) + Be16(data[i], data[i + 1]) as int)
  {
    hide WordSum, Wrap32;
    NextWord(data, i);
    WrapAdd(sum0 + WordSum(data[..i]), Be16(data[i], data[i + 1]));
  }

  lemma AccumulatedByte(sum0: u32, data: seq<u8>, i: nat)
    requires i + 1 == |data| && i % 2 == 0
    ensures Wrap32(sum0 + WordSum(data)) == Wrap32(Accumulated(sum0, data, i) + Be16(data[i], 0) as int)
  {
    hide WordSum, Wrap32;
    LastByte(data, i);
    WrapAdd(sum0 + WordSum(data[..i]), Be16(data[i], 0));
  }

  lemma NextWord(data: seq<u8>, i: nat)
    requires i + 1 < |data| && i % 2 == 0
    ensures WordSum(data[..i + 2]) == WordSum(data[..i]) + Be16(data[i], data[i + 1]) as int
  {
    var w := [data[i], data[i + 1]];
    assert data[..i + 2] == data[..i] + w;
    WordSumAppend(data[..i], w);
    assert w[2..] == [];
  }

  lemma LastByte(data: seq<u8>, i: nat)
    requires i + 1 == |data| && i % 2 == 0
    ensures WordSum(data) == WordSum(data[..i]) + Be16(data[i], 0) as int
  {
    assert data == data[..i] + [data[i]];
    WordSumAppend(data[..i], [data[i]]);
  }

  // ----- folding -----

  function FoldOnce(s: nat): nat {
    s % 0x1_0000 + s / 0x1_0000
  }

  /** Carries added back in until the sum fits 16 bits. */
  function Fold(s: nat): (r: nat)
    ensures r < 0x1_0000
  {
    if s < 0x1_0000 then s else Fold(FoldOnce(s))
  }

  /** The folding loop of checksum_verify and both pseudo-header verifiers */
  method FoldLoop(sum0: u32) returns (sum: u32)
    ensures sum == Fold(sum0)
  {
    sum := sum0;
    while sum / 0x1_0000 != 0
      invariant Fold(sum) == Fold(sum0)
      decreases sum
    {
      sum := sum % 0x1_0000 + sum / 0x1_0000;
    }
  }

  /** For a 32-bit sum two rounds are always enough. */
  lemma TwoFoldsSuffice(s: u32)
    ensures FoldOnce(FoldOnce(s)) < 0x1_0000
  {
    assert FoldOnce(s) <= 0x1_FFFE;
  }

  /** Folding keeps the residue modulo 65535 and does not lose a nonzero sum. */
  lemma {:induction false} FoldResidue(s: nat)
    ensures Fold(s) % 65535 == s % 65535
    ensures Fold(s) == 0 <==> s == 0
  {
    if s >= 0x1_0000 {
      FoldResidue(FoldOnce(s));
      var t := FoldOnce(s);
      var q := s / 0x1_0000;
      assert s == q * 65535 + t;
      DivUnique(s, 65535, q + t / 65535, t % 65535);
    }
  }

  /** A folded sum is all ones exactly when the sum is a nonzero multiple of 65535. */
  lemma FoldIsAllOnes(s: nat)
    ensures Fold(s) == 0xFFFF <==> s > 0 && s % 65535 == 0
  {
    FoldResidue(s);
    var f := Fold(s);
    if f % 65535 == 0 && f > 0 {
      assert f == 65535;
    }
  }

  // ----- verification -----

  predicate Verifies(data: seq<u8>) {
    Fold(Wrap32(WordSum(data))) == 0xFFFF
  }

  /** checksum_verify */
  method Verify(data: seq<u8>) returns (ok: bool)
    ensures ok == Verifies(data)
  {
    var sum := Partial(data, 0);
    sum := FoldLoop(sum);
    return sum % 0x1_0000 == 0xFFFF;
  }

  /** The accumulator cannot wrap on up to 65537 words. */
  const SAFE_BYTES := 2 * 65537

  lemma NoWrap(data: seq<u8>)
    requires |data| <= SAFE_BYTES
    ensures WordSum(data) < TWO32
  {
    WordSumBound(data);
    assert (|data| + 1) / 2 <= 65537;
  }

  /** Without wrap-around, a message verifies exactly when its word sum is a nonzero multiple of 65535. */
  lemma VerifiesExactlyWhen(data: seq<u8>)
    requires |data| <= SAFE_BYTES
    ensures Verifies(data) <==> WordSum(data) > 0 && WordSum(data) % 65535 == 0
  {
    hide WordSum, Fold;
    NoWrap(data);
    FoldIsAllOnes(WordSum(data));
    assert WordSum(data) % TWO32 == WordSum(data);
  }

  lemma {:induction false} AllOnesSum(n: nat)
    ensures WordSum(seq(2 * n, _ => 0xFF)) == n * 65535
  {
    var s: seq<u8> := seq(2 * n, _ => 0xFF);
    if n > 0 {
      AllOnesSum(n - 1);
      assert s[2..] == seq<u8>(2 * (n - 1), _ => 0xFF);
    }
  }

  /** The bound is exact: one word more, and the sum can wrap so that a valid message fails. */
  lemma OneWordMoreWraps()
    ensures var s: seq<u8> := seq(2 * 65538, _ => 0xFF);
            |s| == SAFE_BYTES + 2 && WordSum(s) % 65535 == 0 && WordSum(s) > 0 && !Verifies(s)
  {
    var s: seq<u8> := seq(2 * 65538, _ => 0xFF);
    AllOnesSum(65538);
    assert WordSum(s) == 65538 * 65535;
    assert Wrap32(WordSum(s)) == 65534;
  }

  // ----- the checksum field -----

  /** The message with its k-th word replaced. */
  function Store(data: seq<u8>, k: nat, w: u16): (r: seq<u8>)
    requires 2 * k + 1 < |data|
    ensures |r| == |data|
  {
    data[2 * k := w / 0x100][2 * k + 1 := w % 0x100]
  }

  function WordAt(data: seq<u8>, k: nat): u16
    requires 2 * k + 1 < |data|
  {
    Be16(data[2 * k], data[2 * k + 1])
  }

  lemma SumAround(data: seq<u8>, k: nat)
    requires 2 * k + 1 < |data|
    ensures WordSum(data) == WordSum(data[..2 * k]) + WordAt(data, k) as int + WordSum(data[2 * k + 2..])
  {
    hide WordSum;
    var i := 2 * k;
    assert i % 2 == 0 && (i + 2) % 2 == 0;
    assert data == data[..i + 2] + data[i + 2..];
    WordSumAppend(data[..i + 2], data[i + 2..]);
    NextWord(data, i);
  }

  lemma StoreSum(data: seq<u8>, k: nat, w: u16)
    requires 2 * k + 1 < |data|
    ensures WordSum(Store(data, k, w)) == WordSum(data) - WordAt(data, k) as int + w as int
  {
    var r := Store(data, k, w);
    SumAround(data, k);
    SumAround(r, k);
    assert r[..2 * k] == data[..2 * k] && r[2 * k + 2..] == data[2 * k + 2..];
    assert WordAt(r, k) == w;
  }

  /** Storing the complement of the folded sum in a zeroed word makes the message verify. */
  lemma GeneratedChecksumVerifies(data: seq<u8>, k: nat)
    requires 2 * k + 1 < |data| <= SAFE_BYTES && WordAt(data, k) == 0
    ensures Verifies(Store(data, k, 0xFFFF - Fold(WordSum(data))))
  {
    hide WordSum, Fold;
    var s := WordSum(data);
    var c: u16 := 0xFFFF - Fold(s);
    StoreSum(data, k, c);
    ComplementCompletes(s);
    VerifiesExactlyWhen(Store(data, k, c));
  }

  lemma ComplementCompletes(s: nat)
    ensures (s + (65535 - Fold(s))) % 65535 == 0 && s + (65535 - Fold(s)) > 0
  {
    FoldResidue(s);
    hide Fold;
    var q, f := s / 65535, Fold(s);
    if f == 65535 {
      assert s % 65535 == 0;
    } else {
      assert f % 65535 == f;
      DivUnique(s + (65535 - f), 65535, q + 1, 0);
    }
  }

  /** A change of one word goes unnoticed exactly when it swaps 0x0000 and 0xFFFF and the result is not all zero. */
  lemma SingleWordChange(data: seq<u8>, k: nat, w: u16)
    requires 2 * k + 1 < |data| <= SAFE_BYTES && Verifies(data) && w != WordAt(data, k)
    ensures Verifies(Store(data, k, w)) <==>
            && ((WordAt(data, k) == 0 && w == 0xFFFF) || (WordAt(data, k) == 0xFFFF && w == 0))
            && WordSum(Store(data, k, w)) > 0
  {
    var s, v := WordSum(data), WordAt(data, k);
    var t := s - v + w;
    StoreSum(data, k, w);
    VerifiesExactlyWhen(data);
    VerifiesExactlyWhen(Store(data, k, w));
    var q := s / 65535;
    assert s == q * 65535;
    if t % 65535 == 0 {
      var p := t / 65535;
      assert t == p * 65535;
      assert w - v == (p - q) * 65535;
      assert p - q == 1 || p - q == -1;
    }
    if v == 0 && w == 0xFFFF {
      DivUnique(t, 65535, q + 1, 0);
    }
    if v == 0xFFFF && w == 0 {
      DivUnique(t, 65535, q - 1, 0);
    }
  }

  // ----- pseudo-headers -----

  /** The 12-byte IPv4 pseudo-header; the length is stored in 16 bits. */
  function PseudoIpv4(src: seq<u8>, dst: seq<u8>, protocol: u8, n: nat): (h: seq<u8>)
    requires |src| == 4 && |dst| == 4
    ensures |h| == 12
  {
    src + dst + [0, protocol, n / 0x100 % 0x100, n % 0x100]
  }

  /** The 40-byte IPv6 pseudo-header of section 8.1 of RFC 2460; the length is stored in 32 bits. */
  function PseudoIpv6(src: seq<u8>, dst: seq<u8>, nextHeader: u8, n: nat): (h: seq<u8>)
    requires |src| == 16 && |dst| == 16
    ensures |h| == 40
  {
    src + dst + [n / 0x100_0000 % 0x100, n / 0x1_0000 % 0x100, n / 0x100 % 0x100, n % 0x100, 0, 0, 0, nextHeader]
  }

  /** The accumulation both pseudo-header verifiers share: chaining is concatenation. */
  method VerifyChained(header: seq<u8>, segment: seq<u8>) returns (ok: bool)
    requires |header| % 2 == 0
    ensures ok == Verifies(header + segment)
  {
    hide WordSum, Wrap32, Fold;
    var sum := Partial(header, 0);
    sum := Partial(segment, sum);
    WordSumAppend(header, segment);
    WrapAdd(WordSum(header), WordSum(segment));
    sum := FoldLoop(sum);
    return sum % 0x1_0000 == 0xFFFF;
  }

  /** A sum that verifies: a nonzero multiple of 65535. */
  predicate ValidSum(t: nat) {
    t > 0 && t % 65535 == 0
  }

  lemma FourBytes(a: u8, b: u8, c: u8, d: u8)
    ensures WordSum([a, b, c, d]) == Be16(a, b) as int + Be16(c, d) as int
  {
    var s := [a, b, c, d];
    assert s[2..] == [c, d] && s[2..][2..] == [];
    assert WordSum(s[2..]) == Be16(c, d) as int + WordSum(s[2..][2..]);
  }

  /** The two bytes of a 16-bit length. */
  lemma LengthWord(n: nat)
    ensures Be16(n / 0x100 % 0x100, n % 0x100) == n % 0x1_0000
  {
  }

  lemma SumOfParts(a: seq<u8>, b: seq<u8>, c: seq<u8>, segment: seq<u8>)
    requires |a| % 2 == 0 && |b| % 2 == 0 && |c| % 2 == 0
    ensures WordSum(a + b + c + segment) == WordSum(a) + WordSum(b) + WordSum(c) + WordSum(segment)
  {
    hide WordSum;
    WordSumAppend(a, b);
    WordSumAppend(a + b, c);
    WordSumAppend(a + b + c, segment);
  }

  lemma EightBytes(a: u8, b: u8, c: u8, d: u8, e: u8)
    ensures WordSum([a, b, c, d, 0, 0, 0, e]) == Be16(a, b) as int + Be16(c, d) as int + e as int
  {
    var l, r := [a, b, c, d], [0, 0, 0, e];
    FourBytes(a, b, c, d);
    FourBytes(0, 0, 0, e);
    WordSumAppend(l, r);
    assert l + r == [a, b, c, d, 0, 0, 0, e];
  }

  lemma PseudoIpv4Tail(src: seq<u8>, dst: seq<u8>, protocol: u8, n: nat) returns (tail: seq<u8>)
    requires |src| == 4 && |dst| == 4
    ensures |tail| == 4 && PseudoIpv4(src, dst, protocol, n) == src + dst + tail
    ensures WordSum(tail) == protocol as int + n % 0x1_0000
  {
    var hi: u8, lo: u8 := n / 0x100 % 0x100, n % 0x100;
    tail := [0, protocol, hi, lo];
    LengthWord(n);
    FourBytes(0, protocol, hi, lo);
    hide WordSum;
  }

  /** What the IPv4 pseudo-header adds: addresses, protocol, and the length in 16 bits. */
  lemma PseudoIpv4Sum(src: seq<u8>, dst: seq<u8>, protocol: u8, segment: seq<u8>)
    requires |src| == 4 && |dst| == 4
    ensures WordSum(PseudoIpv4(src, dst, protocol, |segment|) + segment)
         == WordSum(src) + WordSum(dst) + protocol as int + |segment| % 0x1_0000 + WordSum(segment)
  {
    hide WordSum, PseudoIpv4;
    var tail := PseudoIpv4Tail(src, dst, protocol, |segment|);
    SumOfParts(src, dst, tail, segment);
  }

  lemma PseudoIpv6Tail(src: seq<u8>, dst: seq<u8>, nextHeader: u8, n: nat) returns (tail: seq<u8>)
    requires |src| == 16 && |dst| == 16
    ensures |tail| == 8 && PseudoIpv6(src, dst, nextHeader, n) == src + dst + tail
    ensures WordSum(tail) == n / 0x1_0000 % 0x1_0000 + n % 0x1_0000 + nextHeader as int
  {
    var l3: u8, l2: u8, l1: u8, l0: u8 := n / 0x100_0000 % 0x100, n / 0x1_0000 % 0x100, n / 0x100 % 0x100, n % 0x100;
    tail := [l3, l2, l1, l0, 0, 0, 0, nextHeader];
    assert n / 0x100_0000 == n / 0x1_0000 / 0x100;
    LengthWord(n / 0x1_0000);
    LengthWord(n);
    EightBytes(l3, l2, l1, l0, nextHeader);
    hide WordSum, Be16;
  }

  /** What the IPv6 pseudo-header adds: addresses, the length as two words, and the next header. */
  lemma PseudoIpv6Sum(src: seq<u8>, dst: seq<u8>, nextHeader: u8, segment: seq<u8>)
    requires |src| == 16 && |dst| == 16
    ensures WordSum(PseudoIpv6(src, dst, nextHeader, |segment|) + segment)
         == WordSum(src) + WordSum(dst) + |segment| / 0x1_0000 % 0x1_0000 + |segment| % 0x1_0000 + nextHeader as int
          + WordSum(segment)
  {
    hide WordSum, PseudoIpv6;
    var tail := PseudoIpv6Tail(src, dst, nextHeader, |segment|);
    SumOfParts(src, dst, tail, segment);
  }

  /** checksum_verify_ipv4_pseudo */
  method VerifyIpv4Pseudo(segment: seq<u8>, src: seq<u8>, dst: seq<u8>, protocol: u8) returns (ok: bool)
    requires |src| == 4 && |dst| == 4
    ensures ok == Verifies(PseudoIpv4(src, dst, protocol, |segment|) + segment)
    ensures |segment| + 12 <= SAFE_BYTES ==>
              (ok <==>
                ValidSum(WordSum(src) + WordSum(dst) + protocol as int + |segment| % 0x1_0000 + WordSum(segment)))
  {
    hide Verifies, WordSum, PseudoIpv4;
    var h := FillIpv4Pseudo(src, dst, protocol, |segment|);
    ok := VerifyChained(h, segment);
    PseudoIpv4Sum(src, dst, protocol, segment);
    if |segment| + 12 <= SAFE_BYTES {
      VerifiesExactlyWhen(h + segment);
    }
  }

  /** checksum_verify_ipv4_pseudo, filling the header buffer */
  method FillIpv4Pseudo(src: seq<u8>, dst: seq<u8>, protocol: u8, n: nat) returns (h: seq<u8>)
    requires |src| == 4 && |dst| == 4
    ensures h == PseudoIpv4(src, dst, protocol, n)
  {
    var buf := new u8[12](_ => 0);
    var hi: u8, lo: u8 := n / 0x100 % 0x100, n % 0x100;
    buf[0], buf[1], buf[2], buf[3] := src[0], src[1], src[2], src[3];
    buf[4], buf[5], buf[6], buf[7] := dst[0], dst[1], dst[2], dst[3];
    buf[8], buf[9], buf[10], buf[11] := 0, protocol, hi, lo;
    assert buf[..4] == src && buf[4..8] == dst && buf[8..12] == [0, protocol, hi, lo];
    h := buf[..];
    assert h == buf[..4] + buf[4..8] + buf[8..12];
  }

  /** checksum_verify_ipv6_pseudo, filling the header buffer */
  method FillIpv6Pseudo(src: seq<u8>, dst: seq<u8>, nextHeader: u8, n: nat) returns (h: seq<u8>)
    requires |src| == 16 && |dst| == 16
    ensures h == PseudoIpv6(src, dst, nextHeader, n)
  {
    var buf := new u8[40](_ => 0);
    for i := 0 to 16
      invariant forall k | 0 <= k < i :: buf[k] == src[k] && buf[16 + k] == dst[k]
    {
      buf[i] := src[i];
      buf[16 + i] := dst[i];
    }
    assert buf[..16] == src && buf[16..32] == dst;
    var l3: u8, l2: u8, l1: u8, l0: u8 := n / 0x100_0000 % 0x100, n / 0x1_0000 % 0x100, n / 0x100 % 0x100, n % 0x100;
    buf[32], buf[33], buf[34], buf[35] := l3, l2, l1, l0;
    buf[36], buf[37], buf[38], buf[39] := 0, 0, 0, nextHeader;
    assert buf[..16] == src && buf[16..32] == dst && buf[32..40] == [l3, l2, l1, l0, 0, 0, 0, nextHeader];
    h := buf[..];
    assert h == buf[..16] + buf[16..32] + buf[32..40];
  }

  /** checksum_verify_ipv6_pseudo */
  method VerifyIpv6Pseudo(segment: seq<u8>, src: seq<u8>, dst: seq<u8>, nextHeader: u8) returns (ok: bool)
    requires |src| == 16 && |dst| == 16
    ensures ok == Verifies(PseudoIpv6(src, dst, nextHeader, |segment|) + segment)
    ensures |segment| + 40 <= SAFE_BYTES ==>
              (ok <==> ValidSum(WordSum(src) + WordSum(dst) + |segment| / 0x1_0000 + |segment| % 0x1_0000
                                + nextHeader as int + WordSum(segment)))
  {
    hide Verifies, WordSum, PseudoIpv6;
    var h := FillIpv6Pseudo(src, dst, nextHeader, |segment|);
    ok := VerifyChained(h, segment);
    PseudoIpv6Sum(src, dst, nextHeader, segment);
    if |segment| + 40 <= SAFE_BYTES {
      assert |segment| / 0x1_0000 % 0x1_0000 == |segment| / 0x1_0000;
      VerifiesExactlyWhen(h + segment);
    }
  }
}
