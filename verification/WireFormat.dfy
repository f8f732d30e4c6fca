/**
  Frames as a sender writes them, header by header. The parsers and print_packet's fields are
  proved to give back exactly what was written.
 */
module WireFormat {
  import opened Words
  import opened Headers
  import opened Decode
  import opened DispFilter
  import opened PacketPrinter
  import D = DispLanguage

  // ----- one header -----

  lemma EthRoundTrip(h: EthHeader, payload: seq<u8>)
    requires ValidEth(h)
    ensures var data := EthBytes(h) + payload;
            EthOf(data) == Some(Layer(h, |EthBytes(h)|, |payload|)) && Payload(data, EthOf(data).value) == payload
  {
    EthReads(EthBytes(h) + payload, Layer(h, |EthBytes(h)|, |payload|));
  }

  /** The declared total cuts off what follows the datagram, such as Ethernet padding. */
  lemma IpRoundTrip(h: IpHeader, x: IpRest, payload: seq<u8>, padding: seq<u8>)
    requires ValidIp(h, x) && h.totalLength == h.ihl * 4 + |payload|
    ensures var data := IpBytes(h, x) + payload + padding;
            IpOf(data) == Some(Layer(h, h.ihl * 4, |payload|)) && Payload(data, IpOf(data).value) == payload
  {
    var data := IpBytes(h, x) + payload + padding;
    assert IpBytes(h, x) <= data;
    IpReads(data, Layer(h, h.ihl * 4, |payload|));
    assert data[h.ihl * 4..h.ihl * 4 + |payload|] == payload;
  }

  lemma Ipv6RoundTrip(h: Ipv6Header, x: Ipv6Rest, payload: seq<u8>)
    requires x.low < 16
    ensures var data := Ipv6Bytes(h, x) + payload;
            Ipv6Of(data) == Some(Layer(h, 40, |payload|)) && Payload(data, Ipv6Of(data).value) == payload
  {
    var data, l := Ipv6Bytes(h, x) + payload, Layer(h, 40, |payload|);
    assert Follows(data, Ipv6Bytes(h, x), l);
    Ipv6Reads(data, l);
  }

  lemma TcpRoundTrip(h: TcpHeader, x: TcpRest, payload: seq<u8>)
    requires ValidTcp(h, x)
    ensures var data := TcpBytes(h, x) + payload;
            TcpOf(data) == Some(Layer(h, h.dataOffset * 4, |payload|)) && Payload(data, TcpOf(data).value) == payload
  {
    var data, l := TcpBytes(h, x) + payload, Layer(h, h.dataOffset * 4, |payload|);
    assert Follows(data, TcpBytes(h, x), l);
    TcpReads(data, l);
  }

  lemma UdpRoundTrip(h: UdpHeader, payload: seq<u8>)
    ensures var data := UdpBytes(h) + payload;
            UdpOf(data) == Some(Layer(h, 8, |payload|)) && Payload(data, UdpOf(data).value) == payload
  {
    UdpAccepts(UdpBytes(h) + payload, Layer(h, 8, |payload|));
  }

  // ----- whole frames -----

  datatype Segment = TcpSegment(tcp: TcpHeader, tcpRest: TcpRest, data: seq<u8>)
                   | UdpSegment(udp: UdpHeader, data: seq<u8>)
                   | Other(bytes: seq<u8>)

  predicate ValidSegment(s: Segment, protocol: u8) {
    match s
    case TcpSegment(h, x, _) => ValidTcp(h, x) && protocol == PROTO_TCP
    case UdpSegment(_, _) => protocol == PROTO_UDP
    case Other(_) => protocol != PROTO_TCP && protocol != PROTO_UDP
  }

  function SegmentBytes(s: Segment, protocol: u8): seq<u8>
    requires ValidSegment(s, protocol)
  {
    match s
    case TcpSegment(h, x, data) => TcpBytes(h, x) + data
    case UdpSegment(h, data) => UdpBytes(h) + data
    case Other(bytes) => bytes
  }

  /** What a display filter should see of a segment. */
  function Ports(f: Fields, s: Segment): Fields {
    match s
    case TcpSegment(h, _, _) => f.(hasTcp := true, tcpSrc := h.srcPort, tcpDst := h.dstPort)
    case UdpSegment(h, _) => f.(hasUdp := true, udpSrc := h.srcPort, udpDst := h.dstPort)
    case Other(_) => f
  }

  lemma PortsAreWritten(f: Fields, s: Segment, protocol: u8)
    requires ValidSegment(s, protocol)
    ensures WithPorts(f, protocol, SegmentBytes(s, protocol)) == Ports(f, s)
  {
    match s
    case TcpSegment(h, x, data) => TcpRoundTrip(h, x, data);
    case UdpSegment(h, data) => UdpRoundTrip(h, data);
    case Other(_) =>
  }

  /** Decoding inverts encoding: an IPv4 frame, tagged or not, padded or not, with any options. */
  lemma Ipv4FrameFields(eth: EthHeader, h: IpHeader, x: IpRest, s: Segment, padding: seq<u8>)
    requires ValidEth(eth) && eth.etherType == TYPE_IPV4 && ValidIp(h, x) && ValidSegment(s, h.protocol)
    requires h.totalLength == h.ihl * 4 + |SegmentBytes(s, h.protocol)|
    ensures FieldsOf(EthBytes(eth) + (IpBytes(h, x) + SegmentBytes(s, h.protocol) + padding))
         == Ports(NO_FIELDS.(ethSrc := eth.src, ethDst := eth.dst, hasIp := true, ipSrc := h.src, ipDst := h.dst), s)
  {
    hide EthOf, IpOf, WithPorts, EthBytes, IpBytes, SegmentBytes;
    var segment := SegmentBytes(s, h.protocol);
    EthRoundTrip(eth, IpBytes(h, x) + segment + padding);
    IpRoundTrip(h, x, segment, padding);
    PortsAreWritten(NO_FIELDS.(ethSrc := eth.src, ethDst := eth.dst, hasIp := true, ipSrc := h.src, ipDst := h.dst),
                    s, h.protocol);
  }

  lemma Ipv6FrameFields(eth: EthHeader, h: Ipv6Header, x: Ipv6Rest, s: Segment)
    requires ValidEth(eth) && eth.etherType == TYPE_IPV6 && x.low < 16 && ValidSegment(s, h.nextHeader)
    ensures FieldsOf(EthBytes(eth) + (Ipv6Bytes(h, x) + SegmentBytes(s, h.nextHeader)))
         == Ports(NO_FIELDS.(ethSrc := eth.src, ethDst := eth.dst,
                             hasIpv6 := true, ipv6Src := h.src, ipv6Dst := h.dst), s)
  {
    hide EthOf, Ipv6Of, WithPorts, EthBytes, Ipv6Bytes, SegmentBytes;
    var segment := SegmentBytes(s, h.nextHeader);
    EthRoundTrip(eth, Ipv6Bytes(h, x) + segment);
    Ipv6RoundTrip(h, x, segment);
    PortsAreWritten(NO_FIELDS.(ethSrc := eth.src, ethDst := eth.dst,
                               hasIpv6 := true, ipv6Src := h.src, ipv6Dst := h.dst),
                    s, h.nextHeader);
  }

  lemma OtherFrameFields(eth: EthHeader, bytes: seq<u8>)
    requires ValidEth(eth) && eth.etherType != TYPE_IPV4 && eth.etherType != TYPE_IPV6
    ensures FieldsOf(EthBytes(eth) + bytes) == NO_FIELDS.(ethSrc := eth.src, ethDst := eth.dst)
  {
    hide EthOf, EthBytes;
    EthRoundTrip(eth, bytes);
  }

  // ----- from the wire to the display filter -----

  datatype Net = V4(ip: IpHeader, rest: IpRest, padding: seq<u8>)
               | V6(ip6: Ipv6Header, rest6: Ipv6Rest)
               | Unrouted(bytes: seq<u8>)

  /** A frame as its sender meant it; behind any other Ethernet type there are just bytes. */
  datatype Sent = Sent(eth: EthHeader, net: Net, segment: Segment)

  function Protocol(net: Net): u8 {
    match net
    case V4(h, _, _) => h.protocol
    case V6(h, _) => h.nextHeader
    case Unrouted(_) => 0
  }

  predicate ValidSent(s: Sent) {
    && ValidEth(s.eth) && ValidSegment(s.segment, Protocol(s.net))
    && match s.net
       case V4(h, x, _) =>
         && s.eth.etherType == TYPE_IPV4 && ValidIp(h, x)
         && h.totalLength == h.ihl * 4 + |SegmentBytes(s.segment, h.protocol)|
       case V6(_, x) => s.eth.etherType == TYPE_IPV6 && x.low < 16
       case Unrouted(_) => s.eth.etherType != TYPE_IPV4 && s.eth.etherType != TYPE_IPV6 && s.segment == Other([])
  }

  function Wire(s: Sent): seq<u8>
    requires ValidSent(s)
  {
    var segment := SegmentBytes(s.segment, Protocol(s.net));
    match s.net
    case V4(h, x, padding) => EthBytes(s.eth) + (IpBytes(h, x) + segment + padding)
    case V6(h, x) => EthBytes(s.eth) + (Ipv6Bytes(h, x) + segment)
    case Unrouted(bytes) => EthBytes(s.eth) + bytes
  }

  /** Both ends of the conversation at a layer, if the frame has that layer. */
  function Ends(s: Sent, layer: D.Layer): Option<(D.Value, D.Value)> {
    match layer
    case Eth => Some((D.MacValue(s.eth.src), D.MacValue(s.eth.dst)))
    case Ipv4L => if s.net.V4? then Some((D.Ipv4Value(s.net.ip.src), D.Ipv4Value(s.net.ip.dst))) else None
    case Ipv6L => if s.net.V6? then Some((D.Ipv6Value(s.net.ip6.src), D.Ipv6Value(s.net.ip6.dst))) else None
    case Tcp =>
      if s.segment.TcpSegment? then Some((D.PortValue(s.segment.tcp.srcPort), D.PortValue(s.segment.tcp.dstPort)))
      else None
    case Udp =>
      if s.segment.UdpSegment? then Some((D.PortValue(s.segment.udp.srcPort), D.PortValue(s.segment.udp.dstPort)))
      else None
  }

  /** Some end that the field asks for has the value. */
  predicate AnyEnd(side: D.Side, ends: (D.Value, D.Value), v: D.Value) {
    (side != D.Destination && ends.0 == v) || (side != D.Source && ends.1 == v)
  }

  /** The fields that a filter should be matched against. */
  function Meant(s: Sent): Fields {
    var base := NO_FIELDS.(ethSrc := s.eth.src, ethDst := s.eth.dst);
    match s.net
    case V4(h, _, _) => Ports(base.(hasIp := true, ipSrc := h.src, ipDst := h.dst), s.segment)
    case V6(h, _) => Ports(base.(hasIpv6 := true, ipv6Src := h.src, ipv6Dst := h.dst), s.segment)
    case Unrouted(_) => base
  }

  /** Decoding inverts encoding, for the whole frame. */
  lemma SentFields(s: Sent)
    requires ValidSent(s)
    ensures FieldsOf(Wire(s)) == Meant(s)
  {
    hide FieldsOf, EthBytes, IpBytes, Ipv6Bytes, SegmentBytes;
    match s.net
    case V4(h, x, padding) => Ipv4FrameFields(s.eth, h, x, s.segment, padding);
    case V6(h, x) => Ipv6FrameFields(s.eth, h, x, s.segment);
    case Unrouted(bytes) => OtherFrameFields(s.eth, bytes);
  }

  lemma MeantEnds(c: D.Comparison, s: Sent)
    requires D.Typed(c) && ValidSent(s)
    ensures var ends := Ends(s, c.field.layer);
            FieldEquals(c, Meant(s)) <==> ends.Some? && AnyEnd(c.field.side, ends.value, c.value)
  {
  }

  /**
    From the sender through the parsers to the filter: `==` is true exactly when the layer is there
    and an end it asks about has the value, and `!=` exactly when not.
   */
  lemma ComparisonMeansEnds(c: D.Comparison, s: Sent)
    requires D.Typed(c) && ValidSent(s)
    ensures var ends := Ends(s, c.field.layer);
            EvalCmp(c, FieldsOf(Wire(s))) <==>
            (c.equal <==> ends.Some? && AnyEnd(c.field.side, ends.value, c.value))
  {
    hide FieldsOf, Wire, ValidSent, Meant, FieldEquals, AnyEnd, Ends;
    SentFields(s);
    MeantEnds(c, s);
  }

  /** What a filter says about the sender's frame. */
  predicate Says(e: D.Filter, s: Sent) {
    match e
    case And(l, r) => Says(l, s) && Says(r, s)
    case Or(l, r) => Says(l, s) || Says(r, s)
    case Not(x) => !Says(x, s)
    case Prim(c) =>
      var ends := Ends(s, c.field.layer);
      c.equal <==> ends.Some? && AnyEnd(c.field.side, ends.value, c.value)
  }

  lemma {:induction false} FilterMeansEnds(e: D.Filter, s: Sent)
    requires D.WellTyped(e) && ValidSent(s)
    ensures Eval(e, FieldsOf(Wire(s))) <==> Says(e, s)
  {
    hide FieldsOf, Wire, ValidSent, AnyEnd, Ends, EvalCmp;
    match e
    case And(l, r) => FilterMeansEnds(l, s); FilterMeansEnds(r, s);
    case Or(l, r) => FilterMeansEnds(l, s); FilterMeansEnds(r, s);
    case Not(x) => FilterMeansEnds(x, s);
    case Prim(c) => ComparisonMeansEnds(c, s);
  }

  /**
    From the filter's text to the terminal: every well-typed filter within the token limit, written
    out, compiles, and prints exactly those frames of which it is true as their senders meant them.
   */
  lemma FilterTextMeansEnds(e: D.Filter, s: Sent)
    requires D.WellTyped(e) && |FilterTokens(e)| <= 255 && ValidSent(s)
    ensures var filter := CompileSpec(Some(FilterText(e)));
            filter == Matcher(e) && (Matches(filter, FieldsOf(Wire(s))) <==> Says(e, s))
  {
    hide FieldsOf, Wire, ValidSent, CompileSpec, FilterText, FilterTokens, Says, Eval;
    TextCompiles(e);
    FilterMeansEnds(e, s);
  }
}
