/**
  Header parsers (src/c/eth_parser.c, ip_parser.c, ipv6_parser.c, tcp_udp_parser.c). Each accepts
  exactly the data that starts with a header one can write, and returns that header.
 */
module Decode {
  import opened Words
  import opened Literals
  import opened Headers
  import Checksum
  import Ring

  // ----- Ethernet -----

  const ETH_HEADER_LEN := 14
  const VLAN_TAG_LEN := 4

  function EthOf(data: seq<u8>): (r: Option<Layer<EthHeader>>)
    ensures r.Some? ==> Contained(data, r.value) && r.value.off + r.value.len == |data|
  {
    if |data| < ETH_HEADER_LEN then None
    else
      var t := Be16(data[12], data[13]);
      if t != TYPE_VLAN then Some(Layer(EthHeader(data[..6], data[6..12], t, false, 0), 14, |data| - 14))
      else if |data| < ETH_HEADER_LEN + VLAN_TAG_LEN then None
      else Some(Layer(EthHeader(data[..6], data[6..12], Be16(data[16], data[17]), true, Be16(data[14], data[15])),
                      18, |data| - 18))
  }

  /** Writing what was read at a place gives the two bytes back. */
  lemma PutsBack(data: seq<u8>, at: nat)
    requires at + 2 <= |data|
    ensures Put16(Be16(data[at], data[at + 1])) == data[at..at + 2]
  {
  }

  lemma EthReads(data: seq<u8>, l: Layer<EthHeader>)
    requires EthWritten(data, l)
    ensures EthOf(data) == Some(l)
  {
    var h, head := l.header, EthBytes(l.header);
    assert forall k | 0 <= k < |head| :: data[k] == head[k];
    assert head[..6] == h.dst && head[6..12] == h.src;
    assert data[..6] == head[..6] && data[6..12] == head[6..12];
    if h.hasVlan {
      assert head[12..18] == Put16(TYPE_VLAN) + Put16(h.vlanTci) + Put16(h.etherType);
      assert forall k | 0 <= k < 6 :: head[12 + k] == head[12..18][k];
    } else {
      assert head[12..14] == Put16(h.etherType);
      assert forall k | 0 <= k < 2 :: head[12 + k] == head[12..14][k];
    }
  }

  lemma EthIsWritten(data: seq<u8>)
    requires EthOf(data).Some?
    ensures EthWritten(data, EthOf(data).value)
  {
    var eth := EthOf(data).value;
    assert data[..eth.off] == data[..6] + data[6..12] + data[12..eth.off];
    assert data[12..14] == Put16(Be16(data[12], data[13]));
    if eth.header.hasVlan {
      assert data[12..18] == data[12..14] + data[14..16] + data[16..18];
      assert data[14..16] == Put16(Be16(data[14], data[15])) && data[16..18] == Put16(Be16(data[16], data[17]));
    }
  }

  lemma EthAccepts(data: seq<u8>, l: Layer<EthHeader>)
    ensures EthOf(data) == Some(l) <==> EthWritten(data, l)
  {
    if EthWritten(data, l) { EthReads(data, l); }
    if EthOf(data) == Some(l) { EthIsWritten(data); }
  }

  /** eth_parse */
  method EthParse(data: seq<u8>) returns (r: Option<Layer<EthHeader>>)
    ensures r == EthOf(data)
    ensures forall l :: r == Some(l) <==> EthWritten(data, l)
  {
    forall l: Layer<EthHeader> ensures EthOf(data) == Some(l) <==> EthWritten(data, l) { EthAccepts(data, l); }
    hide EthWritten;
    if |data| < ETH_HEADER_LEN {
      return None;
    }
    var typeOrTpid := Be16(data[12], data[13]);
    var headerLen := ETH_HEADER_LEN;
    var hasVlan, tci, etherType := false, 0, typeOrTpid;
    if typeOrTpid == TYPE_VLAN {
      if |data| < ETH_HEADER_LEN + VLAN_TAG_LEN {
        return None;
      }
      hasVlan := true;
      tci := Be16(data[14], data[15]);
      etherType := Be16(data[16], data[17]);
      headerLen := headerLen + VLAN_TAG_LEN;
    }
    return Some(Layer(EthHeader(data[..6], data[6..12], etherType, hasVlan, tci), headerLen, |data| - headerLen));
  }

  // ----- IPv4 -----

  const IP_MIN_LEN := 20

  /** The payload is what was captured, cut to the declared total when that covers the header. */
  function IpPayloadLen(captured: nat, headerLen: nat, total: u16): (n: nat)
    requires headerLen <= captured
    ensures headerLen + n == Min(captured, if total < headerLen then captured else total)
  {
    var available := captured - headerLen;
    if total >= headerLen && total - headerLen < available then total - headerLen else available
  }

  function IpOf(data: seq<u8>): (r: Option<Layer<IpHeader>>)
    ensures r.Some? ==> Contained(data, r.value) && 20 <= r.value.off <= 60
  {
    if |data| < IP_MIN_LEN then None
    else
      var version, ihl := data[0] / 16, data[0] % 16;
      var headerLen := ihl * 4;
      if version != 4 || ihl < 5 || headerLen > |data| then None
      else
        var total := Be16(data[2], data[3]);
        Some(Layer(IpHeader(ihl, total, data[9], data[12..16], data[16..20], Checksum.Verifies(data[..headerLen])),
                   headerLen, IpPayloadLen(|data|, headerLen, total)))
  }

  lemma IpFieldsAt(h: IpHeader, x: IpRest)
    requires h.ihl < 16
    ensures var s := IpBytes(h, x);
            && |s| == 20 + |x.options| && s[0] == 0x40 + h.ihl && Be16(s[2], s[3]) == h.totalLength
            && s[9] == h.protocol && s[12..16] == h.src && s[16..20] == h.dst
  {
  }

  lemma IpReads(data: seq<u8>, l: Layer<IpHeader>)
    requires IpWritten(data, l)
    ensures IpOf(data) == Some(l)
  {
    var h := l.header;
    var x :| && ValidIp(h, x) && IpBytes(h, x) <= data && l.off == h.ihl * 4
             && l.len == Min(|data|, if h.totalLength < l.off then |data| else h.totalLength) - l.off;
    var head := IpBytes(h, x);
    IpFieldsAt(h, x);
    hide Checksum.Verifies, IpBytes;
    assert data[..|head|] == head;
    HeadBytes(data, head);
  }

  lemma HeadBytes(data: seq<u8>, head: seq<u8>)
    requires head <= data && |head| >= 20
    ensures forall k | 0 <= k < 20 :: data[k] == head[k]
    ensures data[12..16] == head[12..16] && data[16..20] == head[16..20]
  {
  }

  lemma IpIsWritten(data: seq<u8>)
    requires IpOf(data).Some?
    ensures IpWritten(data, IpOf(data).value)
  {
    hide Checksum.Verifies;
    var l := IpOf(data).value;
    var h := l.header;
    var x := IpRest(data[1], data[4..8], data[8], data[10..12], data[20..l.off]);
    assert data[2..4] == Put16(h.totalLength);
    assert data[..l.off] == [data[0], data[1]] + data[2..4] + data[4..8] + [data[8], data[9]] + data[10..12]
                          + data[12..16] + data[16..20] + data[20..l.off];
    assert IpBytes(h, x) == data[..l.off];
    assert ValidIp(h, x);
  }

  lemma IpAccepts(data: seq<u8>, l: Layer<IpHeader>)
    ensures IpOf(data) == Some(l) <==> IpWritten(data, l)
  {
    hide IpWritten;
    if IpWritten(data, l) { IpReads(data, l); }
    if IpOf(data) == Some(l) { IpIsWritten(data); }
  }

  /** ip_parse */
  method IpParse(data: seq<u8>) returns (r: Option<Layer<IpHeader>>)
    ensures r == IpOf(data)
    ensures forall l :: r == Some(l) <==> IpWritten(data, l)
  {
    forall l: Layer<IpHeader> ensures IpOf(data) == Some(l) <==> IpWritten(data, l) { IpAccepts(data, l); }
    hide IpWritten;
    if |data| < IP_MIN_LEN {
      return None;
    }
    var version := data[0] / 16;
    var ihl := data[0] % 16;
    var headerLen := ihl * 4;
    if version != 4 || ihl < 5 || headerLen > |data| {
      return None;
    }
    var valid := Checksum.Verify(data[..headerLen]);
    var total := Be16(data[2], data[3]);
    var available := |data| - headerLen;
    if total >= headerLen {
      var declared := total - headerLen;
      if declared < available {
        available := declared;
      }
    }
    return Some(Layer(IpHeader(ihl, total, data[9], data[12..16], data[16..20], valid), headerLen, available));
  }

  // ----- IPv6 -----

  const IPV6_LEN := 40

  function Ipv6Of(data: seq<u8>): (r: Option<Layer<Ipv6Header>>)
    ensures r.Some? ==> Contained(data, r.value) && r.value.off + r.value.len == |data|
  {
    if |data| < IPV6_LEN || data[0] / 16 != 6 then None
    else Some(Layer(Ipv6Header(data[6], data[8..24], data[24..40]), 40, |data| - 40))
  }

  lemma Ipv6Reads(data: seq<u8>, l: Layer<Ipv6Header>)
    requires Ipv6Written(data, l)
    ensures Ipv6Of(data) == Some(l)
  {
    var h := l.header;
    var x: Ipv6Rest :| x.low < 16 && Follows(data, Ipv6Bytes(h, x), l);
    var head := Ipv6Bytes(h, x);
    assert head[8..24] == h.src && head[24..40] == h.dst && head[6] == h.nextHeader && head[0] == 0x60 + x.low;
    assert forall k | 0 <= k < 40 :: data[k] == head[k];
    assert data[8..24] == head[8..24] && data[24..40] == head[24..40];
  }

  lemma Ipv6IsWritten(data: seq<u8>)
    requires Ipv6Of(data).Some?
    ensures Ipv6Written(data, Ipv6Of(data).value)
  {
    var l := Ipv6Of(data).value;
    var x := Ipv6Rest(data[0] % 16, data[1], data[2..4], data[4..6], data[7]);
    assert data[..40] == [data[0], data[1]] + data[2..4] + data[4..6] + [data[6], data[7]] + data[8..24] + data[24..40];
    assert Follows(data, Ipv6Bytes(l.header, x), l);
  }

  lemma Ipv6Accepts(data: seq<u8>, l: Layer<Ipv6Header>)
    ensures Ipv6Of(data) == Some(l) <==> Ipv6Written(data, l)
  {
    hide Ipv6Written;
    if Ipv6Written(data, l) { Ipv6Reads(data, l); }
    if Ipv6Of(data) == Some(l) { Ipv6IsWritten(data); }
  }

  /** ipv6_parse, with its copying loop */
  method Ipv6Parse(data: seq<u8>) returns (r: Option<Layer<Ipv6Header>>)
    ensures r == Ipv6Of(data)
    ensures forall l :: r == Some(l) <==> Ipv6Written(data, l)
  {
    forall l: Layer<Ipv6Header> ensures Ipv6Of(data) == Some(l) <==> Ipv6Written(data, l) { Ipv6Accepts(data, l); }
    hide Ipv6Written;
    if |data| < IPV6_LEN {
      return None;
    }
    if data[0] / 16 != 6 {
      return None;
    }
    var src: seq<u8>, dst: seq<u8> := [], [];
    for i := 0 to 16
      invariant src == data[8..8 + i] && dst == data[24..24 + i]
    {
      src := src + [data[8 + i]];
      dst := dst + [data[24 + i]];
    }
    return Some(Layer(Ipv6Header(data[6], src, dst), IPV6_LEN, |data| - IPV6_LEN));
  }

  // ----- TCP and UDP -----

  function TcpOf(data: seq<u8>): (r: Option<Layer<TcpHeader>>)
    ensures r.Some? ==> Contained(data, r.value) && r.value.off + r.value.len == |data| && r.value.off >= 20
  {
    if |data| < 20 then None
    else
      var offset := data[12] / 16;
      if offset < 5 || offset * 4 > |data| then None
      else Some(Layer(TcpHeader(Be16(data[0], data[1]), Be16(data[2], data[3]), offset),
                      offset * 4, |data| - offset * 4))
  }

  lemma TcpReads(data: seq<u8>, l: Layer<TcpHeader>)
    requires TcpWritten(data, l)
    ensures TcpOf(data) == Some(l)
  {
    var h := l.header;
    var x :| ValidTcp(h, x) && Follows(data, TcpBytes(h, x), l);
    var head := TcpBytes(h, x);
    assert head[0..4] == Put16(h.srcPort) + Put16(h.dstPort);
    assert forall k | 0 <= k < 4 :: data[k] == head[0..4][k];
    assert data[12] == head[12] == h.dataOffset * 16 + x.low;
  }

  lemma TcpIsWritten(data: seq<u8>)
    requires TcpOf(data).Some?
    ensures TcpWritten(data, TcpOf(data).value)
  {
    var l := TcpOf(data).value;
    var x := TcpRest(data[4..12], data[12] % 16, data[13], data[14..l.off]);
    assert TcpBytes(l.header, x) == data[..l.off] by {
      PutsBack(data, 0);
      PutsBack(data, 2);
      assert l.header.dataOffset * 16 + x.low == data[12];
      hide Put16, Be16;
      assert data[..l.off] == data[0..2] + data[2..4] + data[4..12] + [data[12], data[13]] + data[14..l.off];
    }
    hide TcpBytes, TcpOf;
    assert Follows(data, TcpBytes(l.header, x), l);
  }

  lemma TcpAccepts(data: seq<u8>, l: Layer<TcpHeader>)
    ensures TcpOf(data) == Some(l) <==> TcpWritten(data, l)
  {
    hide TcpWritten;
    if TcpWritten(data, l) { TcpReads(data, l); }
    if TcpOf(data) == Some(l) { TcpIsWritten(data); }
  }

  /** tcp_parse */
  method TcpParse(data: seq<u8>) returns (r: Option<Layer<TcpHeader>>)
    ensures r == TcpOf(data)
    ensures forall l :: r == Some(l) <==> TcpWritten(data, l)
  {
    forall l: Layer<TcpHeader> ensures TcpOf(data) == Some(l) <==> TcpWritten(data, l) { TcpAccepts(data, l); }
    hide TcpWritten;
    if |data| < 20 {
      return None;
    }
    var dataOffset := data[12] / 16;
    var headerLen := dataOffset * 4;
    if dataOffset < 5 || headerLen > |data| {
      return None;
    }
    return Some(Layer(TcpHeader(Be16(data[0], data[1]), Be16(data[2], data[3]), dataOffset),
                      headerLen, |data| - headerLen));
  }

  function UdpOf(data: seq<u8>): (r: Option<Layer<UdpHeader>>)
    ensures r.Some? ==> Contained(data, r.value) && r.value.off + r.value.len == |data| && r.value.off == 8
  {
    if |data| < 8 then None
    else Some(Layer(UdpHeader(Be16(data[0], data[1]), Be16(data[2], data[3]),
                              Be16(data[4], data[5]), Be16(data[6], data[7])),
                    8, |data| - 8))
  }

  lemma UdpAccepts(data: seq<u8>, l: Layer<UdpHeader>)
    ensures UdpOf(data) == Some(l) <==> UdpWritten(data, l)
  {
    if UdpWritten(data, l) {
      assert forall k | 0 <= k < 8 :: data[k] == UdpBytes(l.header)[k];
    }
    if UdpOf(data) == Some(l) {
      assert data[..8] == Put16(Be16(data[0], data[1])) + Put16(Be16(data[2], data[3]))
                        + Put16(Be16(data[4], data[5])) + Put16(Be16(data[6], data[7]));
    }
  }

  /** udp_parse */
  method UdpParse(data: seq<u8>) returns (r: Option<Layer<UdpHeader>>)
    ensures r == UdpOf(data)
    ensures forall l :: r == Some(l) <==> UdpWritten(data, l)
  {
    forall l: Layer<UdpHeader> ensures UdpOf(data) == Some(l) <==> UdpWritten(data, l) { UdpAccepts(data, l); }
    hide UdpWritten;
    if |data| < 8 {
      return None;
    }
    var srcPort, dstPort := Be16(data[0], data[1]), Be16(data[2], data[3]);
    var length, checksum := Be16(data[4], data[5]), Be16(data[6], data[7]);
    return Some(Layer(UdpHeader(srcPort, dstPort, length, checksum), 8, |data| - 8));
  }

  // ----- segment checksums -----

  /** The words of both addresses and of the segment, added up. */
  function Summed(src: seq<u8>, dst: seq<u8>, segment: seq<u8>): nat {
    Checksum.WordSum(src) + Checksum.WordSum(dst) + Checksum.WordSum(segment)
  }

  /** tcp_verify_checksum: the checksum is mandatory. */
  method TcpVerify(segment: seq<u8>, src: Bytes4, dst: Bytes4) returns (ok: bool)
    ensures ok <==> |segment| >= 20 && Checksum.Verifies(Checksum.PseudoIpv4(src, dst, PROTO_TCP, |segment|) + segment)
    ensures |segment| < 0x1_0000 ==>
              (ok <==> |segment| >= 20 && Checksum.ValidSum(Summed(src, dst, segment) + 6 + |segment|))
  {
    hide Checksum.Verifies, Checksum.WordSum, Checksum.PseudoIpv4, Checksum.PseudoIpv6;
    if |segment| < 20 {
      return false;
    }
    ok := Checksum.VerifyIpv4Pseudo(segment, src, dst, PROTO_TCP);
  }

  /** udp_verify_checksum: over IPv4 a zero field means that the sender computed none. */
  method UdpVerify(segment: seq<u8>, src: Bytes4, dst: Bytes4) returns (ok: bool)
    ensures ok <==> && |segment| >= 8
                    && (|| Be16(segment[6], segment[7]) == 0
                        || Checksum.Verifies(Checksum.PseudoIpv4(src, dst, PROTO_UDP, |segment|) + segment))
    ensures |segment| < 0x1_0000 ==>
              (ok <==> && |segment| >= 8
                       && (|| Be16(segment[6], segment[7]) == 0
                           || Checksum.ValidSum(Summed(src, dst, segment) + 17 + |segment|)))
  {
    hide Checksum.Verifies, Checksum.WordSum, Checksum.PseudoIpv4, Checksum.PseudoIpv6;
    if |segment| < 8 {
      return false;
    }
    if Be16(segment[6], segment[7]) == 0 {
      return true;
    }
    ok := Checksum.VerifyIpv4Pseudo(segment, src, dst, PROTO_UDP);
  }

  /** tcp_verify_checksum_ipv6 and udp_verify_checksum_ipv6: no exemption for a zero field. */
  method VerifyOverIpv6(segment: seq<u8>, src: Bytes16, dst: Bytes16, nextHeader: u8, minLen: nat) returns (ok: bool)
    ensures ok <==> && |segment| >= minLen
                    && Checksum.Verifies(Checksum.PseudoIpv6(src, dst, nextHeader, |segment|) + segment)
    ensures |segment| <= Ring.MAX_FRAME ==>
              (ok <==> && |segment| >= minLen
                       && Checksum.ValidSum(Summed(src, dst, segment) + nextHeader as int
                                            + |segment| / 0x1_0000 + |segment| % 0x1_0000))
  {
    hide Checksum.Verifies, Checksum.WordSum, Checksum.PseudoIpv4, Checksum.PseudoIpv6;
    if |segment| < minLen {
      return false;
    }
    ok := Checksum.VerifyIpv6Pseudo(segment, src, dst, nextHeader);
  }

  // ----- nesting -----

  /** Every payload is a slice of the frame at the sum of the offsets above it. */
  lemma NestedSlices<H, K>(frame: seq<u8>, outer: Layer<H>, inner: Layer<K>)
    requires Contained(frame, outer) && Contained(Payload(frame, outer), inner)
    ensures outer.off + inner.off + inner.len <= |frame|
    ensures Payload(Payload(frame, outer), inner)
         == frame[outer.off + inner.off..outer.off + inner.off + inner.len]
  {
  }

  /** The network layer that print_packet descends into: its protocol and payload, by the Ethernet type. */
  function NetOf(etherType: u16, data: seq<u8>): (r: Option<Layer<u8>>)
    ensures r.Some? ==> Contained(data, r.value)
  {
    if etherType == TYPE_IPV6 then
      match Ipv6Of(data)
      case None => None
      case Some(l) => Some(Layer(l.header.nextHeader, l.off, l.len))
    else if etherType == TYPE_IPV4 then
      match IpOf(data)
      case None => None
      case Some(l) => Some(Layer(l.header.protocol, l.off, l.len))
    else None
  }

  /** Where in the frame the payload of its innermost decoded layer lies. */
  datatype Slice = Slice(from: nat, to: nat)

  function TransportPayload(protocol: u8, segment: seq<u8>): (r: Option<Slice>) {
    if protocol == PROTO_TCP && TcpOf(segment).Some? then Some(Slice(TcpOf(segment).value.off, |segment|))
    else if protocol == PROTO_UDP && UdpOf(segment).Some? then Some(Slice(8, |segment|))
    else None
  }

  /**
    Down to the transport payload, over IPv4 and IPv6, tagged or not: every layer's payload is the
    slice of the frame at the sum of the offsets above it, and each slice lies in the one before.
   */
  lemma TransportInsideFrame(frame: seq<u8>)
    requires EthOf(frame).Some?
    ensures var eth := EthOf(frame).value;
            var data := Payload(frame, eth);
            && (eth.off == 14 || eth.off == 18) && data == frame[eth.off..]
            && var net := NetOf(eth.header.etherType, data);
               net.Some? ==>
                 var a := eth.off + net.value.off;
                 var b := a + net.value.len;
                 var segment := Payload(data, net.value);
                 && eth.off < a <= b <= |frame| && segment == frame[a..b]
                 && var t := TransportPayload(net.value.header, segment);
                    t.Some? ==> && a + 8 <= a + t.value.from <= a + t.value.to == b
                                && segment[t.value.from..t.value.to] == frame[a + t.value.from..b]
  {
    var eth := EthOf(frame).value;
    var net := NetOf(eth.header.etherType, Payload(frame, eth));
    if net.Some? {
      NestedSlices(frame, eth, net.value);
    }
  }

  /** The IPv4 payload length is the smaller of captured and declared, once the total covers the header. */
  lemma IpPayloadIsSmaller(data: seq<u8>)
    requires IpOf(data).Some?
    ensures var ip := IpOf(data).value;
            ip.header.totalLength >= ip.off ==>
              && ip.len <= |data| - ip.off && ip.len <= ip.header.totalLength - ip.off
              && (ip.len == |data| - ip.off || ip.len == ip.header.totalLength - ip.off)
  {
  }

  /** No segment of a frame that was received can be too long for the pseudo-header's 16-bit length. */
  lemma SegmentFitsPseudoLength(frame: seq<u8>)
    requires |frame| <= Ring.MAX_FRAME && EthOf(frame).Some?
    requires IpOf(Payload(frame, EthOf(frame).value)).Some?
    ensures IpOf(Payload(frame, EthOf(frame).value)).value.len < 0x1_0000
  {
  }
}
