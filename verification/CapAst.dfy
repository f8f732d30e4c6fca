/**
  The capture filter's tree (src/c/capfilter.c, node_t) and what it means on a raw frame.
  The meaning is three-valued: a field beyond the end of the frame rejects the whole
  packet, whatever the surrounding operators.
 */
module CapAst {
  import opened Words
  import opened Bpf

  const ETHERTYPE_IPV4: u32 := 0x0800
  const ETHERTYPE_IPV6: u32 := 0x86DD
  const ETHERTYPE_ARP: u32 := 0x0806
  const PROTO_ICMP: u32 := 1
  const PROTO_TCP: u32 := 6
  const PROTO_UDP: u32 := 17

  const OFF_ETHERTYPE: u32 := 12
  const OFF_IP_IHL_BYTE: u32 := 14
  const OFF_IP_PROTO: u32 := 23
  const OFF_IP_SRC: u32 := 26
  const OFF_IP_DST: u32 := 30

  /** Slots of the parser's node arena. */
  const MAX_NODES := 256

  datatype Dir = Src | Dst

  type Addr = s: seq<u8> | |s| == 4 witness [0, 0, 0, 0]

  /** One field comparison. */
  datatype Leaf =
    | EtherType(k: u32)
    | IpProto(k: u32)
    | Host(dir: Dir, addr: Addr)
    | Port(dir: Dir, k: u32)
    | Net(dir: Dir, addr: Addr, prefixLen: u8)

  datatype Node =
    | And(left: Node, right: Node)
    | Or(left: Node, right: Node)
    | Not(operand: Node)
    | Test(leaf: Leaf)
  {
    /** Arena slots the tree occupies. */
    function Nodes(): nat
      ensures Nodes() >= 1
    {
      match this
      case And(l, r) => 1 + l.Nodes() + r.Nodes()
      case Or(l, r) => 1 + l.Nodes() + r.Nodes()
      case Not(l) => 1 + l.Nodes()
      case Test(_) => 1
    }

    function Leaves(): nat
      ensures Leaves() >= 1
    {
      match this
      case And(l, r) => l.Leaves() + r.Leaves()
      case Or(l, r) => l.Leaves() + r.Leaves()
      case Not(l) => l.Leaves()
      case Test(_) => 1
    }

    /** A binary tree spends at least one inner node per extra leaf. */
    lemma {:induction false} LeavesBound()
      ensures 2 * Leaves() <= Nodes() + 1
    {
      match this
      case And(l, r) => l.LeavesBound(); r.LeavesBound();
      case Or(l, r) => l.LeavesBound(); r.LeavesBound();
      case Not(l) => l.LeavesBound();
      case Test(_) =>
    }
  }

  datatype Tri = True | False | Abort

  function Truth(b: bool): Tri {
    if b then True else False
  }

  /** The big-endian field of `width` bytes at `off`, if the frame holds it. */
  function Field(pkt: Packet, off: nat, width: nat): Option<nat> {
    if off + width > |pkt| then None else Some(BigEndian(pkt[off..off + width]))
  }

  function FieldIs(pkt: Packet, off: nat, width: nat, k: u32): Tri {
    match Field(pkt, off, width)
    case None => Abort
    case Some(v) => Truth(v == k)
  }

  function AddrOffset(dir: Dir): u32 {
    if dir == Src then OFF_IP_SRC else OFF_IP_DST
  }

  /** Bits of an address that a prefix of length p leaves free. */
  function FreeBits(p: u8): nat {
    if p >= 32 then 0 else 32 - p
  }

  /** Two addresses agree on their leading bits, all but the last `free`. */
  predicate SamePrefix(a: nat, b: nat, free: nat) {
    a / Pow2(free) == b / Pow2(free)
  }

  function NetMeaning(pkt: Packet, dir: Dir, addr: Addr, p: u8): Tri {
    match Field(pkt, AddrOffset(dir), 4)
    case None => Abort
    case Some(v) => Truth(SamePrefix(v, BigEndian(addr), FreeBits(p)))
  }

  /** Ports sit right behind the IPv4 header, whose length is the low nibble of its first byte. */
  function PortMeaning(pkt: Packet, dir: Dir, k: u32): Tri {
    if |pkt| <= OFF_IP_IHL_BYTE then Abort
    else
      var ihl := pkt[OFF_IP_IHL_BYTE] as int % 0x10 * 4;
      FieldIs(pkt, OFF_IP_IHL_BYTE + ihl + (if dir == Src then 0 else 2), 2, k)
  }

  function LeafMeaning(leaf: Leaf, pkt: Packet): Tri {
    match leaf
    case EtherType(k) => FieldIs(pkt, OFF_ETHERTYPE, 2, k)
    case IpProto(k) => FieldIs(pkt, OFF_IP_PROTO, 1, k)
    case Host(dir, addr) =>
      (match Field(pkt, AddrOffset(dir), 4)
       case None => Abort
       case Some(v) => Truth(v == BigEndian(addr)))
    case Port(dir, k) => PortMeaning(pkt, dir, k)
    case Net(dir, addr, p) => NetMeaning(pkt, dir, addr, p)
  }

  /** Left-to-right short-circuit meaning of a filter on a frame. */
  function Meaning(n: Node, pkt: Packet): Tri {
    match n
    case And(l, r) => if Meaning(l, pkt) == True then Meaning(r, pkt) else Meaning(l, pkt)
    case Or(l, r) => if Meaning(l, pkt) == False then Meaning(r, pkt) else Meaning(l, pkt)
    case Not(l) =>
      (match Meaning(l, pkt)
       case True => False
       case False => True
       case Abort => Abort)
    case Test(leaf) => LeafMeaning(leaf, pkt)
  }

  /** A full-length prefix is a host match. */
  lemma NetFullPrefixIsHost(pkt: Packet, dir: Dir, addr: Addr, p: u8)
    requires p >= 32
    ensures LeafMeaning(Net(dir, addr, p), pkt) == LeafMeaning(Host(dir, addr), pkt)
  {
    assert Pow2(0) == 1;
  }

  /** A zero-length prefix accepts exactly the frames long enough to hold the address. */
  lemma NetEmptyPrefixMatchesAll(pkt: Packet, dir: Dir, addr: Addr)
    ensures LeafMeaning(Net(dir, addr, 0), pkt) == if |pkt| < AddrOffset(dir) + 4 then Abort else True
  {
    assert Pow256(4) == Pow2(32) == TWO32 by {
      assert Pow256(4) == 0x100 * Pow256(3) && Pow256(3) == 0x100 * Pow256(2);
      assert Pow256(2) == 0x100 * Pow256(1) && Pow256(1) == 0x100;
      Pow2Of32();
    }
    if |pkt| >= AddrOffset(dir) + 4 {
      BigEndianBound(pkt[AddrOffset(dir)..AddrOffset(dir) + 4]);
    }
    BigEndianBound(addr);
  }

  lemma Pow2Of32()
    ensures Pow2(32) == TWO32
  {
    assert Pow2(8) == 256;
    Pow2Add(8, 8);
    Pow2Add(16, 16);
  }

  /** A longer prefix only narrows the match. */
  lemma NetNarrows(pkt: Packet, dir: Dir, addr: Addr, p: u8, q: u8)
    requires p <= q
    requires LeafMeaning(Net(dir, addr, q), pkt) == True
    ensures LeafMeaning(Net(dir, addr, p), pkt) == True
  {
    var v, w := Field(pkt, AddrOffset(dir), 4).value, BigEndian(addr);
    SamePrefixCoarsens(v, w, FreeBits(q), FreeBits(p));
  }

  lemma {:induction false} SamePrefixCoarsens(a: nat, b: nat, s: nat, t: nat)
    requires s <= t && SamePrefix(a, b, s)
    ensures SamePrefix(a, b, t)
    decreases t
  {
    if s < t {
      SamePrefixCoarsens(a, b, s, t - 1);
      DivByDouble(a, Pow2(t - 1));
      DivByDouble(b, Pow2(t - 1));
    }
  }

  lemma DivByDouble(a: nat, d: nat)
    requires d > 0
    ensures a / (2 * d) == a / d / 2
  {
    var q, r := a / d, a % d;
    assert a == q * d + r;
    var h, o := q / 2, q % 2;
    assert q == 2 * h + o;
    assert q * d == h * (2 * d) + o * d by {
      assert (2 * h + o) * d == 2 * h * d + o * d;
      assert 2 * h * d == h * (2 * d);
    }
    assert 0 <= o * d <= d;
    DivUnique(a, 2 * d, h, o * d + r);
  }
}
