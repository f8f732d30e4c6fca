/**
  The capture filter and the display filter see a frame in two ways, as bytes at offsets and as
  decoded fields. Exactly on which frames do they agree about every host and port filter?
 */
module Agreement {
  import opened Words
  import opened Bpf
  import opened CapAst
  import opened CapLanguage
  import opened Headers
  import opened Decode
  import Codegen
  import Checksum
  import CompilerCorrectness
  import D = DispLanguage
  import DispFilter
  import Printer = PacketPrinter
  import G = Grammar

  /** Filters that both languages can express: hosts and ports, in any combination. */
  predicate Shared(e: Filter) {
    match e
    case And(l, r) => Shared(l) && Shared(r)
    case Or(l, r) => Shared(l) && Shared(r)
    case Not(x) => Shared(x)
    case Prim(p) => ValidPrimitive(p) && (p.HasHost? || p.HasPort?)
  }

  function SideOf(dir: Option<Dir>): D.Side {
    match dir
    case None => D.Either
    case Some(Src) => D.Source
    case Some(Dst) => D.Destination
  }

  function PortIs(layer: D.Layer, dir: Option<Dir>, port: u16): (t: D.Filter)
    requires layer == D.Tcp || layer == D.Udp
    ensures D.WellTyped(t)
  {
    G.Prim(D.Comparison(D.Field(layer, SideOf(dir)), true, D.PortValue(port)))
  }

  /** `host` becomes ip.src, ip.dst or ip.addr; `port` becomes the tcp and the udp port. */
  function Translated(e: Filter): (t: D.Filter)
    requires Shared(e)
    ensures D.WellTyped(t)
  {
    match e
    case And(l, r) => G.And(Translated(l), Translated(r))
    case Or(l, r) => G.Or(Translated(l), Translated(r))
    case Not(x) => G.Not(Translated(x))
    case Prim(HasHost(dir, a)) => G.Prim(D.Comparison(D.Field(D.Ipv4L, SideOf(dir)), true, D.Ipv4Value(a)))
    case Prim(HasPort(dir, p)) => G.Or(PortIs(D.Tcp, dir, p), PortIs(D.Udp, dir, p))
  }

  /** What the kernel decides, and what print_packet decides. */
  predicate Captured(e: Filter, frame: Packet) {
    Meaning(Lowered(e), frame) == True
  }

  predicate Displayed(e: Filter, frame: Packet)
    requires Shared(e)
  {
    DispFilter.Eval(Translated(e), Printer.FieldsOf(frame))
  }

  /** Untagged IPv4 by the type field at its usual place. */
  predicate LooksIpv4(frame: Packet) {
    |frame| >= 14 && Be16(frame[12], frame[13]) == TYPE_IPV4
  }

  /** The IPv4 datagram decodes, and so does the transport header of TCP and UDP. */
  predicate DecodesFully(frame: Packet)
    requires |frame| >= 14
  {
    var ip := IpOf(frame[14..]);
    && ip.Some?
    && var segment := Payload(frame[14..], ip.value);
       && (ip.value.header.protocol == Headers.PROTO_TCP ==> TcpOf(segment).Some?)
       && (ip.value.header.protocol == Headers.PROTO_UDP ==> UdpOf(segment).Some?)
  }

  /** The same in terms of what was decoded: all of an IPv4 frame, and no host or port otherwise. */
  predicate DecodedInSync(frame: Packet) {
    && |frame| >= 14
    && if LooksIpv4(frame) then DecodesFully(frame)
       else
         var f := Printer.FieldsOf(frame);
         !f.hasIp && !f.hasTcp && !f.hasUdp
  }

  // ----- the condition, in bytes of the frame -----

  /** An IPv4 header that decodes. */
  predicate Ipv4At(frame: Packet, at: nat) {
    |frame| >= at + 20 && frame[at] / 16 == 4 && frame[at] % 16 >= 5 && at + frame[at] % 16 * 4 <= |frame|
  }

  /** Where its payload ends: with the frame, or earlier by the declared total. */
  function Ipv4End(frame: Packet, at: nat): (end: nat)
    requires Ipv4At(frame, at)
    ensures at + frame[at] % 16 * 4 <= end <= |frame|
  {
    var total := Be16(frame[at + 2], frame[at + 3]);
    if total >= frame[at] % 16 * 4 && at + total < |frame| then at + total else |frame|
  }

  predicate Ipv6At(frame: Packet, at: nat) {
    |frame| >= at + 40 && frame[at] / 16 == 6
  }

  /** A TCP or UDP header that decodes, between the two places. */
  predicate PortsAt(frame: Packet, protocol: u8, from: nat, to: nat)
    requires to <= |frame|
  {
    || (protocol == 6 && from + 20 <= to && frame[from + 12] / 16 >= 5 && from + frame[from + 12] / 16 * 4 <= to)
    || (protocol == 17 && from + 8 <= to)
  }

  /**
    The frames on which both filters agree. An Ethernet header is there. If it says IPv4, an IPv4
    header decodes behind it, and a TCP or UDP header behind that if it says so. If it says
    anything else, no IPv4 header decodes behind a VLAN tag, and no TCP or UDP header decodes
    behind an IPv6 header, tagged or not.
   */
  predicate InSync(frame: Packet) {
    && |frame| >= 14
    && var t := Be16(frame[12], frame[13]);
       if t == 0x0800 then
         && Ipv4At(frame, 14)
         && (frame[23] == 6 || frame[23] == 17 ==>
               PortsAt(frame, frame[23], 14 + frame[14] % 16 * 4, Ipv4End(frame, 14)))
       else
         var at := if t == 0x8100 then 18 else 14;
         |frame| < at
         || (var inner := Be16(frame[at - 2], frame[at - 1]);
             && !(inner == 0x0800 && Ipv4At(frame, at))
             && !(inner == 0x86DD && Ipv6At(frame, at) && PortsAt(frame, frame[at + 6], at + 40, |frame|)))
  }

  lemma Ipv4InBytes(frame: Packet, at: nat)
    requires at <= |frame|
    ensures IpOf(frame[at..]).Some? <==> Ipv4At(frame, at)
    ensures Ipv4At(frame, at) ==>
              var ip := IpOf(frame[at..]).value;
              && at + 9 < |frame| && ip.header.protocol == frame[at + 9] && at + ip.off == at + frame[at] % 16 * 4
              && Payload(frame[at..], ip) == frame[at + ip.off..Ipv4End(frame, at)]
  {
    hide Checksum.Verifies;
    var d := frame[at..];
    assert forall k | 0 <= k < |d| :: d[k] == frame[at + k];
  }

  lemma Ipv6InBytes(frame: Packet, at: nat)
    requires at <= |frame|
    ensures Ipv6Of(frame[at..]).Some? <==> Ipv6At(frame, at)
    ensures Ipv6At(frame, at) ==>
              var ip := Ipv6Of(frame[at..]).value;
              ip.header.nextHeader == frame[at + 6] && Payload(frame[at..], ip) == frame[at + 40..|frame|]
  {
    var d := frame[at..];
    assert forall k | 0 <= k < |d| :: d[k] == frame[at + k];
  }

  lemma PortsInBytes(frame: Packet, protocol: u8, from: nat, to: nat)
    requires from <= to <= |frame|
    ensures PortsAt(frame, protocol, from, to) <==>
            || (protocol == 6 && TcpOf(frame[from..to]).Some?)
            || (protocol == 17 && UdpOf(frame[from..to]).Some?)
  {
    var d := frame[from..to];
    assert forall k | 0 <= k < |d| :: d[k] == frame[from + k];
  }

  /** What print_packet finds in a frame, by the type in front of `at`. */
  lemma FieldsInBytes(frame: Packet)
    requires EthOf(frame).Some?
    ensures var at := EthOf(frame).value.off;
            var t := Be16(frame[at - 2], frame[at - 1]);
            var f := Printer.FieldsOf(frame);
            && EthOf(frame).value.header.etherType == t
            && (f.hasIp <==> t == 0x0800 && Ipv4At(frame, at))
            && (!f.hasIp ==> (f.hasTcp || f.hasUdp <==>
                              t == 0x86DD && Ipv6At(frame, at) && PortsAt(frame, frame[at + 6], at + 40, |frame|)))
  {
    var at := EthOf(frame).value.off;
    assert Payload(frame, EthOf(frame).value) == frame[at..];
    Ipv4InBytes(frame, at);
    Ipv6InBytes(frame, at);
    hide IpOf, Ipv6Of, TcpOf, UdpOf, Ipv4At, PortsAt;
    if Ipv6At(frame, at) {
      PortsInBytes(frame, frame[at + 6], at + 40, |frame|);
    }
  }

  /** Where the transport header of a decoded frame lies, and which one it is. */
  datatype Place = Place(protocol: u8, from: nat, to: nat)

  function TransportPlace(frame: Packet, at: nat, ipv4: bool): Place
    requires if ipv4 then Ipv4At(frame, at) else Ipv6At(frame, at)
  {
    if ipv4 then Place(frame[at + 9], at + frame[at] % 16 * 4, Ipv4End(frame, at))
    else Place(frame[at + 6], at + 40, |frame|)
  }

  /**
    All of print_packet's fields, for every frame with an Ethernet header, as bytes of the frame:
    the MAC addresses whatever follows, and of each further layer exactly what decodes.
   */
  lemma FieldsByOffset(frame: Packet)
    requires EthOf(frame).Some?
    ensures var at := EthOf(frame).value.off;
            var t := Be16(frame[at - 2], frame[at - 1]);
            var f := Printer.FieldsOf(frame);
            && f.ethDst == frame[0..6] && f.ethSrc == frame[6..12]
            && (f.hasIp <==> t == 0x0800 && Ipv4At(frame, at)) && (f.hasIpv6 <==> t == 0x86DD && Ipv6At(frame, at))
            && (f.hasIp ==> f.ipSrc == frame[at + 12..at + 16] && f.ipDst == frame[at + 16..at + 20])
            && (f.hasIpv6 ==> f.ipv6Src == frame[at + 8..at + 24] && f.ipv6Dst == frame[at + 24..at + 40])
            && if f.hasIp || f.hasIpv6 then PortsByOffset(frame, f, TransportPlace(frame, at, f.hasIp))
               else !f.hasTcp && !f.hasUdp
  {
    var at := EthOf(frame).value.off;
    FieldsInBytes(frame);
    assert Payload(frame, EthOf(frame).value) == frame[at..];
    AddressesInBytes(frame, at);
    Ipv4InBytes(frame, at);
    Ipv6InBytes(frame, at);
    PortsOfFrame(frame);
    hide IpOf, Ipv6Of, PortsByOffset, Printer.WithPorts, TransportPlace;
  }

  lemma PortsOfFrame(frame: Packet)
    requires EthOf(frame).Some?
    ensures var at := EthOf(frame).value.off;
            var f := Printer.FieldsOf(frame);
            && (f.hasIp ==> Ipv4At(frame, at)) && (f.hasIpv6 ==> Ipv6At(frame, at))
            && if f.hasIp || f.hasIpv6 then PortsByOffset(frame, f, TransportPlace(frame, at, f.hasIp))
               else !f.hasTcp && !f.hasUdp
  {
    var at := EthOf(frame).value.off;
    assert Payload(frame, EthOf(frame).value) == frame[at..];
    Ipv4InBytes(frame, at);
    Ipv6InBytes(frame, at);
    hide IpOf, Ipv6Of, TcpOf, UdpOf, PortsAt, Ipv4End;
    var f := Printer.FieldsOf(frame);
    if f.hasIp || f.hasIpv6 {
      SegmentPorts(frame, TransportPlace(frame, at, f.hasIp));
    }
  }

  predicate PortsByOffset(frame: Packet, f: DispFilter.Fields, p: Place)
    requires p.from <= p.to <= |frame|
  {
    && (f.hasTcp <==> p.protocol == 6 && PortsAt(frame, 6, p.from, p.to))
    && (f.hasUdp <==> p.protocol == 17 && PortsAt(frame, 17, p.from, p.to))
    && (f.hasTcp || f.hasUdp ==> p.from + 4 <= p.to)
    && (f.hasTcp ==> && f.tcpSrc == Be16(frame[p.from], frame[p.from + 1])
                     && f.tcpDst == Be16(frame[p.from + 2], frame[p.from + 3]))
    && (f.hasUdp ==> && f.udpSrc == Be16(frame[p.from], frame[p.from + 1])
                     && f.udpDst == Be16(frame[p.from + 2], frame[p.from + 3]))
  }

  lemma AddressesInBytes(frame: Packet, at: nat)
    requires at <= |frame|
    ensures IpOf(frame[at..]).Some? ==>
              var h := IpOf(frame[at..]).value.header;
              h.src == frame[at + 12..at + 16] && h.dst == frame[at + 16..at + 20]
    ensures Ipv6Of(frame[at..]).Some? ==>
              var h := Ipv6Of(frame[at..]).value.header;
              h.src == frame[at + 8..at + 24] && h.dst == frame[at + 24..at + 40]
  {
    hide Checksum.Verifies;
  }

  lemma SegmentPorts(frame: Packet, p: Place)
    requires p.from <= p.to <= |frame|
    ensures var segment := frame[p.from..p.to];
            && (p.protocol == 6 ==> (TcpOf(segment).Some? <==> PortsAt(frame, 6, p.from, p.to)))
            && (p.protocol == 17 ==> (UdpOf(segment).Some? <==> PortsAt(frame, 17, p.from, p.to)))
            && (TcpOf(segment).Some? || UdpOf(segment).Some? ==> p.from + 4 <= p.to)
            && (TcpOf(segment).Some? ==>
                  var h := TcpOf(segment).value.header;
                  && h.srcPort == Be16(frame[p.from], frame[p.from + 1])
                  && h.dstPort == Be16(frame[p.from + 2], frame[p.from + 3]))
            && (UdpOf(segment).Some? ==>
                  var h := UdpOf(segment).value.header;
                  && h.srcPort == Be16(frame[p.from], frame[p.from + 1])
                  && h.dstPort == Be16(frame[p.from + 2], frame[p.from + 3]))
  {
    PortsInBytes(frame, p.protocol, p.from, p.to);
    var d := frame[p.from..p.to];
    assert forall k | 0 <= k < |d| :: d[k] == frame[p.from + k];
    hide PortsAt;
  }

  lemma FullyInBytes(frame: Packet)
    requires |frame| >= 14
    ensures DecodesFully(frame) <==>
            && Ipv4At(frame, 14)
            && (frame[23] == 6 || frame[23] == 17 ==>
                  PortsAt(frame, frame[23], 14 + frame[14] % 16 * 4, Ipv4End(frame, 14)))
  {
    Ipv4InBytes(frame, 14);
    if Ipv4At(frame, 14) {
      PortsInBytes(frame, frame[23], 14 + frame[14] % 16 * 4, Ipv4End(frame, 14));
      hide IpOf, TcpOf, UdpOf, PortsAt, Ipv4End, Ipv4At;
    }
  }

  /** The bytes decide what is decoded. */
  lemma InSyncIsDecoded(frame: Packet)
    ensures InSync(frame) <==> DecodedInSync(frame)
  {
    if |frame| >= 14 {
      if LooksIpv4(frame) {
        FullyInBytes(frame);
      } else if EthOf(frame).Some? {
        FieldsInBytes(frame);
        hide Printer.FieldsOf, Ipv4At, Ipv6At, PortsAt;
      }
    }
  }

  // ----- one primitive -----

  /** The type test in front of every host and port primitive. */
  lemma TypeTest(frame: Packet)
    ensures Meaning(ISIPV4, frame) == if |frame| < 14 then Abort else Truth(LooksIpv4(frame))
  {
    if |frame| >= 14 {
      BigEndian2(frame[12..14]);
    }
  }

  lemma HostTest(frame: Packet, dir: Dir, a: Addr)
    requires |frame| >= AddrOffset(dir) + 4
    ensures LeafMeaning(Host(dir, a), frame) == Truth(frame[AddrOffset(dir)..AddrOffset(dir) + 4] == a)
  {
    var s := frame[AddrOffset(dir)..AddrOffset(dir) + 4];
    if BigEndian(s) == BigEndian(a) {
      BigEndianInjective(s, a);
    }
  }

  lemma ProtoTest(frame: Packet, k: u32)
    requires |frame| >= 24
    ensures LeafMeaning(IpProto(k), frame) == Truth(frame[23] == k)
  {
    CompilerCorrectness.OneByte(frame, 23);
  }

  lemma PortTest(frame: Packet, dir: Dir, k: u32, at: nat)
    requires |frame| > 14 && at == 14 + frame[14] as int % 16 * 4 + (if dir == Src then 0 else 2)
    ensures LeafMeaning(Port(dir, k), frame)
         == if at + 2 > |frame| then Abort else Truth(Be16(frame[at], frame[at + 1]) == k)
  {
    if at + 2 <= |frame| {
      BigEndian2(frame[at..at + 2]);
    }
  }

  // ----- agreement -----

  /** Where the transport header of an untagged IPv4 frame starts. */
  function TransportAt(frame: Packet): nat
    requires |frame| > 14
  {
    14 + frame[14] as int % 16 * 4
  }

  /** On a frame that looks like IPv4 and decodes fully, the decoded fields are the bytes at the filter's offsets. */
  ghost predicate SameBytes(frame: Packet, f: DispFilter.Fields) {
    && |frame| >= 34
    && f.hasIp && f.ipSrc == frame[26..30] && f.ipDst == frame[30..34]
    && (f.hasTcp <==> frame[23] == 6) && (f.hasUdp <==> frame[23] == 17)
    && (f.hasTcp || f.hasUdp ==> TransportAt(frame) + 4 <= |frame|)
    && (f.hasTcp ==> var t := TransportAt(frame);
                     f.tcpSrc == Be16(frame[t], frame[t + 1]) && f.tcpDst == Be16(frame[t + 2], frame[t + 3]))
    && (f.hasUdp ==> var t := TransportAt(frame);
                     f.udpSrc == Be16(frame[t], frame[t + 1]) && f.udpDst == Be16(frame[t + 2], frame[t + 3]))
  }

  lemma FieldsAreBytes(frame: Packet)
    requires LooksIpv4(frame) && DecodesFully(frame)
    ensures SameBytes(frame, Printer.FieldsOf(frame))
  {
    var d := frame[14..];
    var ip := IpOf(d).value;
    assert EthOf(frame).value.off == 14 && Payload(frame, EthOf(frame).value) == d;
    assert d[12..16] == frame[26..30] && d[16..20] == frame[30..34] && d[9] == frame[23] && d[0] == frame[14];
    var seg := Payload(d, ip);
    assert forall k | 0 <= k < |seg| :: seg[k] == frame[TransportAt(frame) + k];
  }

  // The two readings of a primitive, spelled out.

  function Either(l: Tri, r: Tri): Tri {
    if l == False then r else l
  }

  function Both(l: Tri, r: Tri): Tri {
    if l == True then r else l
  }

  function DirectedMeaning(dir: Option<Dir>, src: Tri, dst: Tri): Tri {
    match dir
    case Some(Src) => src
    case Some(Dst) => dst
    case None => Either(src, dst)
  }

  lemma DirectedReads(dir: Option<Dir>, src: Leaf, dst: Leaf, frame: Packet)
    ensures Meaning(Directed(dir, src, dst), frame)
         == DirectedMeaning(dir, LeafMeaning(src, frame), LeafMeaning(dst, frame))
  {
    hide LeafMeaning;
    assert Meaning(Test(src), frame) == LeafMeaning(src, frame);
    assert Meaning(Test(dst), frame) == LeafMeaning(dst, frame);
  }

  lemma HostReads(dir: Option<Dir>, a: Addr, frame: Packet)
    ensures Meaning(Lowered(G.Prim(HasHost(dir, a))), frame)
         == Both(Meaning(ISIPV4, frame),
                 DirectedMeaning(dir, LeafMeaning(Host(Src, a), frame), LeafMeaning(Host(Dst, a), frame)))
  {
    hide LeafMeaning;
    DirectedReads(dir, Host(Src, a), Host(Dst, a), frame);
  }

  lemma PortReads(dir: Option<Dir>, port: u32, frame: Packet)
    ensures Meaning(Lowered(G.Prim(HasPort(dir, port))), frame)
         == Both(Meaning(ISIPV4, frame),
                 Both(Either(LeafMeaning(IpProto(CapAst.PROTO_TCP), frame),
                             LeafMeaning(IpProto(CapAst.PROTO_UDP), frame)),
                      DirectedMeaning(dir, LeafMeaning(Port(Src, port), frame), LeafMeaning(Port(Dst, port), frame))))
  {
    hide LeafMeaning;
    DirectedReads(dir, Port(Src, port), Port(Dst, port), frame);
    DirectedReads(None, IpProto(CapAst.PROTO_TCP), IpProto(CapAst.PROTO_UDP), frame);
    var rest := And(TCPORUDP, Directed(dir, Port(Src, port), Port(Dst, port)));
    assert Lowered(G.Prim(HasPort(dir, port))) == And(ISIPV4, rest);
    assert TCPORUDP == Directed(None, IpProto(CapAst.PROTO_TCP), IpProto(CapAst.PROTO_UDP));
    assert Meaning(rest, frame) == if Meaning(TCPORUDP, frame) == True
                                   then Meaning(Directed(dir, Port(Src, port), Port(Dst, port)), frame)
                                   else Meaning(TCPORUDP, frame);
  }

  lemma HostShows(dir: Option<Dir>, a: Addr, frame: Packet)
    ensures var f := Printer.FieldsOf(frame);
            Displayed(G.Prim(HasHost(dir, a)), frame) <==>
            f.hasIp && DispFilter.SideIs(SideOf(dir), f.ipSrc, f.ipDst, a)
  {
    hide Printer.FieldsOf;
  }

  lemma PortShows(dir: Option<Dir>, port: u16, frame: Packet)
    ensures var f := Printer.FieldsOf(frame);
            Displayed(G.Prim(HasPort(dir, port)), frame) <==>
              || (f.hasTcp && DispFilter.SideIs(SideOf(dir), f.tcpSrc, f.tcpDst, port))
              || (f.hasUdp && DispFilter.SideIs(SideOf(dir), f.udpSrc, f.udpDst, port))
  {
    hide Printer.FieldsOf;
    var f := Printer.FieldsOf(frame);
    assert DispFilter.Eval(PortIs(D.Tcp, dir, port), f) <==>
           f.hasTcp && DispFilter.SideIs(SideOf(dir), f.tcpSrc, f.tcpDst, port);
    assert DispFilter.Eval(PortIs(D.Udp, dir, port), f) <==>
           f.hasUdp && DispFilter.SideIs(SideOf(dir), f.udpSrc, f.udpDst, port);
  }

  lemma HostAgrees(dir: Option<Dir>, a: Addr, frame: Packet)
    requires DecodedInSync(frame)
    ensures Meaning(Lowered(G.Prim(HasHost(dir, a))), frame) == Truth(Displayed(G.Prim(HasHost(dir, a)), frame))
  {
    TypeTest(frame);
    HostReads(dir, a, frame);
    HostShows(dir, a, frame);
    hide Printer.FieldsOf, LeafMeaning, Meaning, Lowered, Displayed;
    if LooksIpv4(frame) {
      FieldsAreBytes(frame);
      HostTest(frame, Src, a);
      HostTest(frame, Dst, a);
    }
  }

  /** Behind a TCP or UDP header, the port loads read what the decoder read. */
  lemma PortBytesAgree(dir: Option<Dir>, port: u16, frame: Packet, f: DispFilter.Fields)
    requires SameBytes(frame, f) && (f.hasTcp || f.hasUdp)
    ensures DirectedMeaning(dir, LeafMeaning(Port(Src, port), frame), LeafMeaning(Port(Dst, port), frame))
         == Truth(if f.hasTcp then DispFilter.SideIs(SideOf(dir), f.tcpSrc, f.tcpDst, port)
                  else DispFilter.SideIs(SideOf(dir), f.udpSrc, f.udpDst, port))
  {
    hide LeafMeaning, Be16;
    PortTest(frame, Src, port, TransportAt(frame));
    PortTest(frame, Dst, port, TransportAt(frame) + 2);
  }

  lemma PortAgrees(dir: Option<Dir>, port: u32, frame: Packet)
    requires DecodedInSync(frame) && port <= 65535
    ensures Meaning(Lowered(G.Prim(HasPort(dir, port))), frame) == Truth(Displayed(G.Prim(HasPort(dir, port)), frame))
  {
    hide Printer.FieldsOf, LeafMeaning, Meaning, Lowered, Displayed, DecodesFully, DirectedMeaning, DispFilter.SideIs;
    TypeTest(frame);
    PortReads(dir, port, frame);
    PortShows(dir, port, frame);
    if LooksIpv4(frame) {
      FieldsAreBytes(frame);
      ProtoTest(frame, 6);
      ProtoTest(frame, 17);
      var f := Printer.FieldsOf(frame);
      if f.hasTcp || f.hasUdp {
        PortBytesAgree(dir, port, frame, f);
      }
    }
  }

  lemma {:induction false} DecodedAgrees(e: Filter, frame: Packet)
    requires Shared(e) && DecodedInSync(frame)
    ensures Meaning(Lowered(e), frame) == Truth(Displayed(e, frame))
  {
    hide DecodedInSync, Desugared, Printer.FieldsOf;
    match e
    case And(l, r) => DecodedAgrees(l, frame); DecodedAgrees(r, frame);
    case Or(l, r) => DecodedAgrees(l, frame); DecodedAgrees(r, frame);
    case Not(x) => DecodedAgrees(x, frame);
    case Prim(p) =>
      if p.HasHost? { HostAgrees(p.dir, p.addr, frame); } else { PortAgrees(p.dir, p.port, frame); }
  }

  /** On frames that are in sync, no load aborts and both filters decide alike. */
  lemma AgreesInSync(e: Filter, frame: Packet)
    requires Shared(e) && InSync(frame)
    ensures Meaning(Lowered(e), frame) == Truth(Displayed(e, frame))
  {
    hide *;
    InSyncIsDecoded(frame);
    DecodedAgrees(e, frame);
  }

  // ----- disagreement -----

  predicate Disagrees(e: Filter, frame: Packet) {
    Shared(e) && Captured(e, frame) != Displayed(e, frame)
  }

  function SrcHost(a: Addr): Filter {
    G.Prim(HasHost(Some(Src), a))
  }

  function SrcPort(port: u16): Filter {
    G.Prim(HasPort(Some(Src), port))
  }

  predicate OneSided(p: Primitive) {
    (p.HasHost? && p.dir.Some?) || (p.HasPort? && p.dir.Some?)
  }

  lemma PrimitiveSize(p: Primitive)
    requires OneSided(p)
    ensures Lowered(G.Prim(p)).Nodes() <= 7
  {
    assert TCPORUDP.Nodes() == 3;
    if p.HasPort? {
      var leaf := Directed(p.dir, Port(Src, p.port), Port(Dst, p.port));
      assert And(TCPORUDP, leaf).Nodes() == 5;
    }
  }

  /** A primitive tells the filters apart when one side is true and the other is not ... */
  lemma PrimitiveTells(p: Primitive, frame: Packet)
    requires ValidPrimitive(p) && OneSided(p)
    requires (Meaning(Lowered(G.Prim(p)), frame) == True) != Displayed(G.Prim(p), frame)
    ensures Disagrees(G.Prim(p), frame) && Lowered(G.Prim(p)).Nodes() <= 7
  {
    hide Displayed, Meaning;
    PrimitiveSize(p);
  }

  /** ... and its negation does when the kernel aborts and the display filter says no. */
  lemma NegationTells(p: Primitive, frame: Packet)
    requires ValidPrimitive(p) && OneSided(p)
    requires Meaning(Lowered(G.Prim(p)), frame) == Abort && !Displayed(G.Prim(p), frame)
    ensures Disagrees(G.Not(G.Prim(p)), frame) && Lowered(G.Not(G.Prim(p))).Nodes() <= 8
  {
    hide LeafMeaning, Printer.FieldsOf;
    var x := G.Prim(p);
    assert Meaning(Lowered(G.Not(x)), frame) == Abort by {
      assert Lowered(G.Not(x)) == Not(Lowered(x));
    }
    assert Displayed(G.Not(x), frame) by {
      assert Translated(G.Not(x)) == G.Not(Translated(x));
    }
    PrimitiveSize(p);
  }

  /** On every other frame a one-primitive filter, or its negation, tells them apart. */
  lemma OutOfSyncDisagrees(frame: Packet) returns (e: Filter)
    requires !InSync(frame)
    ensures Disagrees(e, frame) && Lowered(e).Nodes() <= 8
  {
    InSyncIsDecoded(frame);
    hide InSync;
    if |frame| < 14 {
      e := RuntDisagrees(frame);
    } else if !LooksIpv4(frame) {
      e := HiddenDisagrees(frame);
    } else if IpOf(frame[14..]).None? {
      e := UndecodedIpDisagrees(frame);
    } else {
      e := UndecodedTransportDisagrees(frame);
    }
  }

  /** A frame without a whole Ethernet header: the kernel rejects it under any filter. */
  lemma RuntDisagrees(frame: Packet) returns (e: Filter)
    requires |frame| < 14
    ensures Disagrees(e, frame) && Lowered(e).Nodes() <= 8
  {
    var p := HasHost(Some(Src), [0, 0, 0, 0]);
    TypeTest(frame);
    HostReads(Some(Src), [0, 0, 0, 0], frame);
    HostShows(Some(Src), [0, 0, 0, 0], frame);
    NegationTells(p, frame);
    e := G.Not(G.Prim(p));
  }

  /** Addresses or ports behind a VLAN tag or an IPv6 header: displayed, but not captured. */
  lemma HiddenDisagrees(frame: Packet) returns (e: Filter)
    requires |frame| >= 14 && !LooksIpv4(frame)
    requires var f := Printer.FieldsOf(frame); f.hasIp || f.hasTcp || f.hasUdp
    ensures Disagrees(e, frame) && Lowered(e).Nodes() <= 8
  {
    TypeTest(frame);
    hide Printer.FieldsOf, Meaning, Displayed, Lowered;
    var f := Printer.FieldsOf(frame);
    if f.hasIp {
      HostReads(Some(Src), f.ipSrc, frame);
      HostShows(Some(Src), f.ipSrc, frame);
      e := SrcHost(f.ipSrc);
    } else {
      var port := if f.hasTcp then f.tcpSrc else f.udpSrc;
      PortReads(Some(Src), port, frame);
      PortShows(Some(Src), port, frame);
      e := SrcPort(port);
    }
    PrimitiveTells(e.p, frame);
  }

  /** An IPv4 type field in front of something that is not an IPv4 header. */
  lemma UndecodedIpDisagrees(frame: Packet) returns (e: Filter)
    requires LooksIpv4(frame) && IpOf(frame[14..]).None?
    ensures Disagrees(e, frame) && Lowered(e).Nodes() <= 8
  {
    TypeTest(frame);
    assert !Printer.FieldsOf(frame).hasIp by {
      assert Payload(frame, EthOf(frame).value) == frame[14..];
    }
    var a: Addr := if |frame| >= 30 then frame[26..30] else [0, 0, 0, 0];
    HostReads(Some(Src), a, frame);
    HostShows(Some(Src), a, frame);
    if |frame| >= 30 {
      HostTest(frame, Src, a);
      hide Printer.FieldsOf, Meaning, Displayed, Lowered, LeafMeaning;
      PrimitiveTells(HasHost(Some(Src), a), frame);
      e := SrcHost(a);
    } else {
      hide Printer.FieldsOf, Meaning, Displayed, Lowered;
      NegationTells(HasHost(Some(Src), a), frame);
      e := G.Not(SrcHost(a));
    }
  }

  /** A TCP or UDP datagram whose transport header does not decode. */
  lemma UndecodedTransportDisagrees(frame: Packet) returns (e: Filter)
    requires LooksIpv4(frame) && IpOf(frame[14..]).Some? && !DecodesFully(frame)
    ensures Disagrees(e, frame) && Lowered(e).Nodes() <= 8
  {
    TypeTest(frame);
    NoPorts(frame);
    var t := TransportAt(frame);
    var port: u16 := if t + 2 <= |frame| then Be16(frame[t], frame[t + 1]) else 0;
    hide Printer.FieldsOf, Meaning, Displayed, Lowered, LeafMeaning;
    ProtoTest(frame, 6);
    ProtoTest(frame, 17);
    PortTest(frame, Src, port, t);
    PortReads(Some(Src), port, frame);
    PortShows(Some(Src), port, frame);
    if t + 2 <= |frame| {
      PrimitiveTells(HasPort(Some(Src), port), frame);
      e := SrcPort(port);
    } else {
      NegationTells(HasPort(Some(Src), port), frame);
      e := G.Not(SrcPort(port));
    }
  }

  lemma NoPorts(frame: Packet)
    requires LooksIpv4(frame) && IpOf(frame[14..]).Some? && !DecodesFully(frame)
    ensures |frame| >= 34 && (frame[23] == 6 || frame[23] == 17)
    ensures !Printer.FieldsOf(frame).hasTcp && !Printer.FieldsOf(frame).hasUdp
  {
    var d := frame[14..];
    assert d[9] == frame[23];
    assert Payload(frame, EthOf(frame).value) == d;
  }

  /**
    The exact condition: both filters agree on every shared filter that compiles if and only if
    the frame is in sync.
   */
  lemma AgreesExactlyWhenInSync(frame: Packet)
    ensures InSync(frame) <==>
            forall e: Filter | Shared(e) && CompilerCorrectness.Program(Lowered(e)).Some? ::
              Captured(e, frame) == Displayed(e, frame)
  {
    hide InSync;
    if InSync(frame) {
      forall e: Filter | Shared(e)
        ensures Captured(e, frame) == Displayed(e, frame)
      {
        AgreesInSync(e, frame);
      }
    } else {
      var e := OutOfSyncDisagrees(frame);
      var n := Lowered(e);
      n.LeavesBound();
      Codegen.LenBound(n);
      CompilerCorrectness.ShortProgramsFit(n);
    }
  }

  /** In terms of bytecode: on a frame in sync, the compiled filter accepts exactly what the display filter shows. */
  lemma CompiledAgrees(e: Filter, frame: Packet)
    requires Shared(e) && InSync(frame)
    requires Lowered(e).Nodes() <= MAX_NODES && CompilerCorrectness.Program(Lowered(e)).Some?
    ensures Run(CompilerCorrectness.Program(Lowered(e)).value, frame)
         == Returned(if Displayed(e, frame) then 65535 else 0)
  {
    hide InSync;
    AgreesInSync(e, frame);
    CompilerCorrectness.CompiledFilterCorrect(Lowered(e), frame);
  }
}
