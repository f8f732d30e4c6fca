/**
  The capture filter on frames as their senders meant them: what the bytecode of a filter text
  decides is what the text says about the sender's headers.
 */
module SentCapture {
  import opened Bpf
  import opened CapAst
  import opened CapLanguage
  import opened Headers
  import opened Words
  import A = Agreement
  import CapFilter
  import CapLexer
  import Decode
  import G = Grammar
  import Lexing
  import Literals
  import W = WireFormat

  // ----- what a filter says about a sender's frame -----

  /** At the side asked for, or at either. */
  predicate Side(dir: Option<Dir>, src: bool, dst: bool) {
    match dir
    case Some(Src) => src
    case Some(Dst) => dst
    case None => src || dst
  }

  predicate OverIpv4(s: W.Sent, protocol: u8) {
    s.net.V4? && s.net.ip.protocol == protocol
  }

  /** The address lies in the network: it agrees with it on the leading n bits. */
  predicate InNetwork(a: Literals.Bytes4, net: Addr, n: u32)
    requires n <= 32
  {
    SamePrefix(BigEndian(a), BigEndian(net), 32 - n)
  }

  predicate PortIs(dir: Option<Dir>, s: W.Segment, port: u32) {
    match s
    case TcpSegment(h, _, _) => Side(dir, h.srcPort == port, h.dstPort == port)
    case UdpSegment(h, _) => Side(dir, h.srcPort == port, h.dstPort == port)
    case Other(_) => false
  }

  /** A primitive is true of an untagged frame by its headers, and of no tagged one. */
  predicate PrimitiveSays(p: Primitive, s: W.Sent)
    requires ValidPrimitive(p)
  {
    && !s.eth.hasVlan
    && match p
       case IsProto(Tcp) => OverIpv4(s, 6)
       case IsProto(Udp) => OverIpv4(s, 17)
       case IsProto(Icmp) => OverIpv4(s, 1)
       case IsProto(Ip) => s.net.V4?
       case IsProto(Ip6) => s.net.V6?
       case IsProto(Arp) => s.eth.etherType == 0x0806
       case HasHost(dir, a) => s.net.V4? && Side(dir, s.net.ip.src == a, s.net.ip.dst == a)
       case HasPort(dir, port) => s.net.V4? && PortIs(dir, s.segment, port)
       case InNet(dir, a, n) => s.net.V4? && Side(dir, InNetwork(s.net.ip.src, a, n), InNetwork(s.net.ip.dst, a, n))
  }

  predicate Says(e: Filter, s: W.Sent)
    requires ValidFilter(e)
  {
    match e
    case And(l, r) => Says(l, s) && Says(r, s)
    case Or(l, r) => Says(l, s) || Says(r, s)
    case Not(x) => !Says(x, s)
    case Prim(p) => PrimitiveSays(p, s)
  }

  // ----- the bytes of a written frame -----

  predicate OnWire(s: W.Sent) {
    W.ValidSent(s) && |W.Wire(s)| < TWO32
  }

  /** The type field at its usual place: the tag's, or the sender's. */
  lemma TypeOnWire(s: W.Sent)
    requires OnWire(s)
    ensures var frame := W.Wire(s);
            |frame| >= 14 && Be16(frame[12], frame[13]) == if s.eth.hasVlan then TYPE_VLAN else s.eth.etherType
  {
    var frame := W.Wire(s);
    var rest := frame[|EthBytes(s.eth)|..];
    assert frame == EthBytes(s.eth) + rest;
    W.EthRoundTrip(s.eth, rest);
  }

  lemma Ipv4OnWire(s: W.Sent)
    requires OnWire(s) && s.net.V4? && !s.eth.hasVlan
    ensures var frame := W.Wire(s);
            && |frame| >= 34 && A.LooksIpv4(frame) && A.DecodesFully(frame) && frame[23] == s.net.ip.protocol
  {
    var frame, h, x := W.Wire(s), s.net.ip, s.net.rest;
    TypeOnWire(s);
    var segment := W.SegmentBytes(s.segment, h.protocol);
    var data := IpBytes(h, x) + segment + s.net.padding;
    assert |EthBytes(s.eth)| == 14;
    assert frame[14..] == data;
    W.IpRoundTrip(h, x, segment, s.net.padding);
    Decode.IpFieldsAt(h, x);
    assert data[9] == frame[23];
    hide EthBytes, IpBytes, W.Wire;
    match s.segment
    case TcpSegment(tcp, rest, bytes) => W.TcpRoundTrip(tcp, rest, bytes);
    case UdpSegment(udp, bytes) => W.UdpRoundTrip(udp, bytes);
    case Other(_) =>
  }

  /** The bytes at the filter's offsets are the sender's. */
  lemma Ipv4BytesOnWire(s: W.Sent)
    requires OnWire(s) && s.net.V4? && !s.eth.hasVlan
    ensures A.SameBytes(W.Wire(s), W.Meant(s))
  {
    Ipv4OnWire(s);
    A.FieldsAreBytes(W.Wire(s));
    W.SentFields(s);
  }

  // ----- primitives -----

  lemma TypeTest(frame: Packet, k: u32)
    requires |frame| >= 14
    ensures Meaning(Test(EtherType(k)), frame) == Truth(Be16(frame[12], frame[13]) == k)
  {
    BigEndian2(frame[12..14]);
  }

  lemma ProtoReads(k: u32, frame: Packet)
    ensures Meaning(And(ISIPV4, Test(IpProto(k))), frame)
         == A.Both(Meaning(ISIPV4, frame), LeafMeaning(IpProto(k), frame))
  {
    hide LeafMeaning;
  }

  lemma NetReads(dir: Option<Dir>, a: Addr, n: u32, frame: Packet)
    requires n <= 32
    ensures Meaning(Lowered(G.Prim(InNet(dir, a, n))), frame)
         == A.Both(Meaning(ISIPV4, frame),
                   A.DirectedMeaning(dir, LeafMeaning(Net(Src, a, n), frame), LeafMeaning(Net(Dst, a, n), frame)))
  {
    hide LeafMeaning;
    A.DirectedReads(dir, Net(Src, a, n), Net(Dst, a, n), frame);
  }

  lemma NetTest(frame: Packet, dir: Dir, a: Addr, n: u32)
    requires |frame| >= AddrOffset(dir) + 4 && n <= 32
    ensures LeafMeaning(Net(dir, a, n), frame) == Truth(InNetwork(frame[AddrOffset(dir)..AddrOffset(dir) + 4], a, n))
  {
  }

  /** Behind any type but IPv4, or a tag, only the type can be told. */
  lemma NotIpv4Says(p: Primitive, s: W.Sent)
    requires ValidPrimitive(p) && OnWire(s) && (s.eth.hasVlan || !s.net.V4?)
    ensures Meaning(Lowered(G.Prim(p)), W.Wire(s)) == Truth(PrimitiveSays(p, s))
  {
    var frame := W.Wire(s);
    TypeOnWire(s);
    TypeTest(frame, ETHERTYPE_IPV4);
    TypeTest(frame, ETHERTYPE_IPV6);
    TypeTest(frame, ETHERTYPE_ARP);
    hide W.Wire, LeafMeaning, Be16;
    match p
    case IsProto(_) => ProtoReads(6, frame); ProtoReads(17, frame); ProtoReads(1, frame);
    case HasHost(dir, a) => A.HostReads(dir, a, frame);
    case HasPort(dir, port) => A.PortReads(dir, port, frame);
    case InNet(dir, a, n) => NetReads(dir, a, n, frame);
  }

  lemma Ipv4TypeSays(s: W.Sent)
    requires OnWire(s) && s.net.V4? && !s.eth.hasVlan
    ensures var frame := W.Wire(s);
            && Meaning(ISIPV4, frame) == True && Meaning(Test(EtherType(ETHERTYPE_IPV6)), frame) == False
            && Meaning(Test(EtherType(ETHERTYPE_ARP)), frame) == False
  {
    var frame := W.Wire(s);
    TypeOnWire(s);
    TypeTest(frame, ETHERTYPE_IPV4);
    TypeTest(frame, ETHERTYPE_IPV6);
    TypeTest(frame, ETHERTYPE_ARP);
  }

  lemma ProtoSays(proto: Proto, s: W.Sent)
    requires OnWire(s) && s.net.V4? && !s.eth.hasVlan
    ensures Meaning(Lowered(G.Prim(IsProto(proto))), W.Wire(s)) == Truth(PrimitiveSays(IsProto(proto), s))
  {
    var frame := W.Wire(s);
    Ipv4TypeSays(s);
    Ipv4OnWire(s);
    hide W.Wire, LeafMeaning, A.LooksIpv4, A.DecodesFully;
    ProtoReads(6, frame);
    ProtoReads(17, frame);
    ProtoReads(1, frame);
    A.ProtoTest(frame, 6);
    A.ProtoTest(frame, 17);
    A.ProtoTest(frame, 1);
  }

  lemma HostSays(dir: Option<Dir>, a: Addr, s: W.Sent)
    requires OnWire(s) && s.net.V4? && !s.eth.hasVlan
    ensures Meaning(Lowered(G.Prim(HasHost(dir, a))), W.Wire(s)) == Truth(PrimitiveSays(HasHost(dir, a), s))
  {
    var frame := W.Wire(s);
    Ipv4TypeSays(s);
    Ipv4BytesOnWire(s);
    hide W.Wire, LeafMeaning;
    A.HostReads(dir, a, frame);
    A.HostTest(frame, Src, a);
    A.HostTest(frame, Dst, a);
  }

  lemma NetSays(dir: Option<Dir>, a: Addr, n: u32, s: W.Sent)
    requires OnWire(s) && s.net.V4? && !s.eth.hasVlan && n <= 32
    ensures Meaning(Lowered(G.Prim(InNet(dir, a, n))), W.Wire(s)) == Truth(PrimitiveSays(InNet(dir, a, n), s))
  {
    var frame := W.Wire(s);
    Ipv4TypeSays(s);
    Ipv4BytesOnWire(s);
    hide W.Wire, LeafMeaning, InNetwork;
    NetReads(dir, a, n, frame);
    NetTest(frame, Src, a, n);
    NetTest(frame, Dst, a, n);
  }

  lemma PortSays(dir: Option<Dir>, port: u32, s: W.Sent)
    requires OnWire(s) && s.net.V4? && !s.eth.hasVlan && port <= 65535
    ensures Meaning(Lowered(G.Prim(HasPort(dir, port))), W.Wire(s)) == Truth(PrimitiveSays(HasPort(dir, port), s))
  {
    var frame, f := W.Wire(s), W.Meant(s);
    Ipv4TypeSays(s);
    Ipv4BytesOnWire(s);
    hide W.Wire, LeafMeaning;
    A.PortReads(dir, port, frame);
    A.ProtoTest(frame, 6);
    A.ProtoTest(frame, 17);
    if f.hasTcp || f.hasUdp {
      A.PortBytesAgree(dir, port, frame, f);
    }
  }

  lemma PrimitiveMeans(p: Primitive, s: W.Sent)
    requires ValidPrimitive(p) && OnWire(s)
    ensures Meaning(Lowered(G.Prim(p)), W.Wire(s)) == Truth(PrimitiveSays(p, s))
  {
    hide W.Wire, W.ValidSent, Meaning, Lowered, PrimitiveSays;
    if s.eth.hasVlan || !s.net.V4? {
      NotIpv4Says(p, s);
    } else {
      match p
      case IsProto(proto) => ProtoSays(proto, s);
      case HasHost(dir, a) => HostSays(dir, a, s);
      case HasPort(dir, port) => PortSays(dir, port, s);
      case InNet(dir, a, n) => NetSays(dir, a, n, s);
    }
  }

  // ----- whole filters and their texts -----

  /** On every written frame no load fails, and the meaning is what the filter says about the sender's headers. */
  lemma {:induction false} FilterMeans(e: Filter, s: W.Sent)
    requires ValidFilter(e) && OnWire(s)
    ensures Meaning(Lowered(e), W.Wire(s)) == Truth(Says(e, s))
  {
    hide W.Wire, W.ValidSent, PrimitiveSays, Desugared, LeafMeaning;
    match e
    case And(l, r) => FilterMeans(l, s); FilterMeans(r, s);
    case Or(l, r) => FilterMeans(l, s); FilterMeans(r, s);
    case Not(x) => FilterMeans(x, s);
    case Prim(p) => PrimitiveMeans(p, s);
  }

  lemma TextIsValid(text: string)
    requires CapFilter.FilterOf(text).Some?
    ensures ValidFilter(CapFilter.FilterOf(text).value)
  {
    CaptureIsLawful();
    G.ParsedIsValid(CAPTURE, Lexing.Outcome(Lexing.Tokens(CapLexer.LEXER, text, 0)).toks);
  }

  /**
    From the filter's text to the kernel's verdict: on every frame a sender writes, tagged or not,
    the bytecode of a text that compiles returns 65535 exactly when the text is true of the
    sender's headers, and 0 otherwise.
   */
  lemma TextDecidesSent(text: string, s: W.Sent)
    requires CapFilter.CompileSpec(Some(text)).Program? && OnWire(s)
    ensures CapFilter.FilterOf(text).Some? && ValidFilter(CapFilter.FilterOf(text).value)
    ensures Run(CapFilter.CompileSpec(Some(text)).insns, W.Wire(s))
         == Returned(if Says(CapFilter.FilterOf(text).value, s) then 65535 else 0)
  {
    CapFilter.CompiledTextCorrect(text, W.Wire(s));
    TextIsValid(text);
    hide CapFilter.CompileSpec, CapFilter.FilterOf, Says, Meaning, Run;
    FilterMeans(CapFilter.FilterOf(text).value, s);
  }
}
