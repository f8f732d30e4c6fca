/**
  Headers as a sender writes them (Ethernet, IPv4, IPv6, TCP, UDP): the fields that the parsers
  read, the rest that they skip, and the bytes of both together.
 */
module Headers {
  import opened Words
  import opened Literals
  import Checksum

  const TYPE_IPV4: u16 := 0x0800
  const TYPE_ARP: u16 := 0x0806
  const TYPE_IPV6: u16 := 0x86DD
  const TYPE_VLAN: u16 := 0x8100
  const PROTO_TCP: u8 := 6
  const PROTO_UDP: u8 := 17

  /** A header, and the place of its payload in the data it was parsed from. */
  datatype Layer<H> = Layer(header: H, off: nat, len: nat)

  /** The payload lies inside the data. */
  predicate Contained<H>(data: seq<u8>, l: Layer<H>) {
    l.off + l.len <= |data|
  }

  function Payload<H>(data: seq<u8>, l: Layer<H>): seq<u8>
    requires Contained(data, l)
  {
    data[l.off..l.off + l.len]
  }

  /** The data starts with these bytes, and the payload is all that follows. */
  predicate Follows<H>(data: seq<u8>, head: seq<u8>, l: Layer<H>) {
    head <= data && l.off == |head| && l.len == |data| - |head|
  }

  type Bytes2 = s: seq<u8> | |s| == 2 witness [0, 0]

  function Put16(v: u16): Bytes2 {
    [v / 0x100, v % 0x100]
  }

  // ----- Ethernet -----

  datatype EthHeader = EthHeader(dst: Bytes6, src: Bytes6, etherType: u16, hasVlan: bool, vlanTci: u16)

  /** A header that one can write: no tag without the flag, and no untagged type that means a tag. */
  predicate ValidEth(h: EthHeader) {
    !h.hasVlan ==> h.vlanTci == 0 && h.etherType != TYPE_VLAN
  }

  function EthBytes(h: EthHeader): seq<u8> {
    h.dst + h.src + (if h.hasVlan then Put16(TYPE_VLAN) + Put16(h.vlanTci) else []) + Put16(h.etherType)
  }

  predicate EthWritten(data: seq<u8>, l: Layer<EthHeader>) {
    ValidEth(l.header) && Follows(data, EthBytes(l.header), l)
  }

  // ----- IPv4 -----

  datatype IpHeader = IpHeader(ihl: u8, totalLength: u16, protocol: u8, src: Bytes4, dst: Bytes4, checksumValid: bool)

  /** The parts of an IPv4 header that the parser skips, and the options. */
  datatype IpRest = IpRest(tos: u8, ident: Bytes4, ttl: u8, sum: Bytes2, options: seq<u8>)

  function IpBytes(h: IpHeader, x: IpRest): seq<u8>
    requires h.ihl < 16
  {
    [0x40 + h.ihl, x.tos] + Put16(h.totalLength) + x.ident + [x.ttl, h.protocol] + x.sum + h.src + h.dst + x.options
  }

  predicate ValidIp(h: IpHeader, x: IpRest) {
    && 5 <= h.ihl < 16 && |x.options| == h.ihl * 4 - 20
    && h.checksumValid == Checksum.Verifies(IpBytes(h, x))
  }

  function Min(a: int, b: int): int {
    if a < b then a else b
  }

  /** The payload ends with the data, or with the declared total when that covers the header and is less. */
  ghost predicate IpWritten(data: seq<u8>, l: Layer<IpHeader>) {
    exists x: IpRest ::
      && ValidIp(l.header, x) && IpBytes(l.header, x) <= data && l.off == l.header.ihl * 4
      && l.len == Min(|data|, if l.header.totalLength < l.off then |data| else l.header.totalLength) - l.off
  }

  // ----- IPv6 -----

  datatype Ipv6Header = Ipv6Header(nextHeader: u8, src: Bytes16, dst: Bytes16)

  datatype Ipv6Rest = Ipv6Rest(low: u8, traffic: u8, flow: Bytes2, payloadLen: Bytes2, hops: u8)

  function Ipv6Bytes(h: Ipv6Header, x: Ipv6Rest): seq<u8>
    requires x.low < 16
  {
    [0x60 + x.low, x.traffic] + x.flow + x.payloadLen + [h.nextHeader, x.hops] + h.src + h.dst
  }

  ghost predicate Ipv6Written(data: seq<u8>, l: Layer<Ipv6Header>) {
    exists x: Ipv6Rest :: x.low < 16 && Follows(data, Ipv6Bytes(l.header, x), l)
  }

  // ----- TCP and UDP -----

  datatype TcpHeader = TcpHeader(srcPort: u16, dstPort: u16, dataOffset: u8)

  /** The parts of a TCP header that the parser skips, and the options. */
  datatype TcpRest = TcpRest(seqAck: seq<u8>, low: u8, flags: u8, tail: seq<u8>)

  predicate ValidTcp(h: TcpHeader, x: TcpRest) {
    5 <= h.dataOffset < 16 && |x.seqAck| == 8 && x.low < 16 && |x.tail| == h.dataOffset * 4 - 14
  }

  function TcpBytes(h: TcpHeader, x: TcpRest): seq<u8>
    requires ValidTcp(h, x)
  {
    Put16(h.srcPort) + Put16(h.dstPort) + x.seqAck + [h.dataOffset * 16 + x.low, x.flags] + x.tail
  }

  ghost predicate TcpWritten(data: seq<u8>, l: Layer<TcpHeader>) {
    exists x: TcpRest :: ValidTcp(l.header, x) && Follows(data, TcpBytes(l.header, x), l)
  }

  datatype UdpHeader = UdpHeader(srcPort: u16, dstPort: u16, length: u16, checksum: u16)

  function UdpBytes(h: UdpHeader): seq<u8> {
    Put16(h.srcPort) + Put16(h.dstPort) + Put16(h.length) + Put16(h.checksum)
  }

  predicate UdpWritten(data: seq<u8>, l: Layer<UdpHeader>) {
    Follows(data, UdpBytes(l.header), l)
  }
}
