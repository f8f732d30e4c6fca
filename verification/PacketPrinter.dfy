/** print_packet's descent through the layers and the fields it fills in (src/cpp/packet_printer.cpp). */
module PacketPrinter {
  import opened Words
  import opened Literals
  import opened Headers
  import opened Decode
  import opened DispFilter
  import DispLanguage

  const ZERO6: Bytes6 := [0, 0, 0, 0, 0, 0]
  const ZERO4: Bytes4 := [0, 0, 0, 0]
  const ZERO16: Bytes16 := [0, 0, 0, 0, 0, 0, 0, 0, 0, 0, 0, 0, 0, 0, 0, 0]

  const NO_FIELDS: Fields :=
    Fields(ZERO6, ZERO6, false, ZERO4, ZERO4, false, ZERO16, ZERO16, false, 0, 0, false, 0, 0)

  /** The transport ports of a segment, for the protocols that have them. */
  function WithPorts(f: Fields, protocol: u8, segment: seq<u8>): Fields {
    if protocol == PROTO_TCP && TcpOf(segment).Some? then
      var h := TcpOf(segment).value.header;
      f.(hasTcp := true, tcpSrc := h.srcPort, tcpDst := h.dstPort)
    else if protocol == PROTO_UDP && UdpOf(segment).Some? then
      var h := UdpOf(segment).value.header;
      f.(hasUdp := true, udpSrc := h.srcPort, udpDst := h.dstPort)
    else f
  }

  /** The fields of a frame when it is matched. */
  function FieldsOf(frame: seq<u8>): Fields {
    match EthOf(frame)
    case None => NO_FIELDS
    case Some(eth) =>
      var f := NO_FIELDS.(ethSrc := eth.header.src, ethDst := eth.header.dst);
      var data := Payload(frame, eth);
      if eth.header.etherType == TYPE_IPV6 then
        match Ipv6Of(data)
        case None => f
        case Some(ip) =>
          WithPorts(f.(hasIpv6 := true, ipv6Src := ip.header.src, ipv6Dst := ip.header.dst),
                    ip.header.nextHeader, Payload(data, ip))
      else if eth.header.etherType == TYPE_IPV4 then
        match IpOf(data)
        case None => f
        case Some(ip) =>
          WithPorts(f.(hasIp := true, ipSrc := ip.header.src, ipDst := ip.header.dst),
                    ip.header.protocol, Payload(data, ip))
      else f
  }

  /** The TCP and UDP cases of the two protocol switches */
  method FillPorts(f: Fields, protocol: u8, segment: seq<u8>) returns (fields: Fields)
    ensures fields == WithPorts(f, protocol, segment)
  {
    fields := f;
    if protocol == PROTO_TCP {
      var tcp := TcpParse(segment);
      if tcp.Some? {
        fields := fields.(hasTcp := true, tcpSrc := tcp.value.header.srcPort, tcpDst := tcp.value.header.dstPort);
      }
    } else if protocol == PROTO_UDP {
      var udp := UdpParse(segment);
      if udp.Some? {
        fields := fields.(hasUdp := true, udpSrc := udp.value.header.srcPort, udpDst := udp.value.header.dstPort);
      }
    }
  }

  /** print_packet: fills the fields step by step, then prints only if the filter matches them */
  method PrintPacket(frame: seq<u8>, filter: DispFilter.Result) returns (fields: Fields, printed: bool)
    requires filter.Matcher? ==> DispLanguage.WellTyped(filter.root)
    ensures fields == FieldsOf(frame)
    ensures !filter.Matcher? ==> printed
    ensures filter.Matcher? ==> (printed <==> Eval(filter.root, FieldsOf(frame)))
  {
    fields := NO_FIELDS;
    var eth := EthParse(frame);
    if eth.None? {
      return fields, Matches(filter, fields);
    }
    fields := fields.(ethSrc := eth.value.header.src, ethDst := eth.value.header.dst);
    var data := Payload(frame, eth.value);
    if eth.value.header.etherType == TYPE_ARP {
      return fields, Matches(filter, fields);
    }
    if eth.value.header.etherType == TYPE_IPV6 {
      var ip := Ipv6Parse(data);
      if ip.Some? {
        fields := fields.(hasIpv6 := true, ipv6Src := ip.value.header.src, ipv6Dst := ip.value.header.dst);
        fields := FillPorts(fields, ip.value.header.nextHeader, Payload(data, ip.value));
      }
      return fields, Matches(filter, fields);
    }
    if eth.value.header.etherType != TYPE_IPV4 {
      return fields, Matches(filter, fields);
    }
    var ip := IpParse(data);
    if ip.None? {
      return fields, Matches(filter, fields);
    }
    fields := fields.(hasIp := true, ipSrc := ip.value.header.src, ipDst := ip.value.header.dst);
    fields := FillPorts(fields, ip.value.header.protocol, Payload(data, ip.value));
    return fields, Matches(filter, fields);
  }

  /** A frame's ports are shown exactly when a transport header decodes on the network layer it has. */
  lemma PortsAreTransport(frame: seq<u8>)
    ensures var f := FieldsOf(frame);
            var eth := EthOf(frame);
            if eth.None? then !f.hasTcp && !f.hasUdp
            else
              var data := Payload(frame, eth.value);
              var net := NetOf(eth.value.header.etherType, data);
              && (net.Some? <==> f.hasIp || f.hasIpv6)
              && (f.hasTcp || f.hasUdp <==>
                  net.Some? && TransportPayload(net.value.header, Payload(data, net.value)).Some?)
              && (f.hasTcp ==> net.value.header == PROTO_TCP) && (f.hasUdp ==> net.value.header == PROTO_UDP)
  {
    hide EthOf, IpOf, Ipv6Of, TcpOf, UdpOf;
  }

  /** Without a display filter every frame is printed. */
  method PrintUnfiltered(text: Option<string>, frame: seq<u8>) returns (printed: bool)
    requires text == None || text == Some("")
    ensures printed
  {
    var filter := DispFilter.Compile(text);
    var fields;
    fields, printed := PrintPacket(frame, filter);
  }
}
