/** The capture filter's primitives: words, reading, and desugaring into field tests. */
module CapLanguage {
  import opened Words
  import opened CapAst
  import G = Grammar

  datatype Proto = Tcp | Udp | Icmp | Ip | Ip6 | Arp

  datatype CapWord =
    | Slash
    | SrcKw
    | DstKw
    | HostKw
    | PortKw
    | NetKw
    | ProtoKw(proto: Proto)
    | Number(n: u32)
    | Ipv4(addr: Addr)

  type Token = G.Tok<CapWord>

  /** A primitive as written; without a direction it matches either end. */
  datatype Primitive =
    | IsProto(proto: Proto)
    | HasHost(dir: Option<Dir>, addr: Addr)
    | HasPort(dir: Option<Dir>, port: u32)
    | InNet(dir: Option<Dir>, addr: Addr, prefixLen: u32)

  type Filter = G.Expr<Primitive>

  predicate ValidPrimitive(p: Primitive) {
    match p
    case HasPort(_, port) => port <= 65535
    case InNet(_, _, n) => n <= 32
    case _ => true
  }

  function DirWords(dir: Option<Dir>): seq<CapWord> {
    match dir
    case None => []
    case Some(Src) => [SrcKw]
    case Some(Dst) => [DstKw]
  }

  function PrimitiveWords(p: Primitive): (ws: seq<CapWord>)
    ensures |ws| >= 1
  {
    match p
    case IsProto(proto) => [ProtoKw(proto)]
    case HasHost(dir, addr) => DirWords(dir) + [HostKw, Ipv4(addr)]
    case HasPort(dir, port) => DirWords(dir) + [PortKw, Number(port)]
    case InNet(dir, addr, n) => DirWords(dir) + [NetKw, Ipv4(addr), Slash, Number(n)]
  }

  predicate WordAt(ts: seq<Token>, i: nat) {
    i < |ts| && ts[i].Word?
  }

  predicate Ipv4At(ts: seq<Token>, i: nat) {
    WordAt(ts, i) && ts[i].w.Ipv4?
  }

  predicate NumberAt(ts: seq<Token>, i: nat, most: u32) {
    WordAt(ts, i) && ts[i].w.Number? && ts[i].w.n <= most
  }

  /** parse_primitive behind an optional direction that ended at j. */
  function ReadBody(ts: seq<Token>, j: nat, dir: Option<Dir>): Option<(Primitive, nat)> {
    if !WordAt(ts, j) then None
    else match ts[j].w
      case ProtoKw(proto) => if dir.Some? then None else Some((IsProto(proto), j + 1))
      case HostKw => if Ipv4At(ts, j + 1) then Some((HasHost(dir, ts[j + 1].w.addr), j + 2)) else None
      case PortKw => if NumberAt(ts, j + 1, 65535) then Some((HasPort(dir, ts[j + 1].w.n), j + 2)) else None
      case NetKw =>
        if Ipv4At(ts, j + 1) && WordAt(ts, j + 2) && ts[j + 2].w == Slash && NumberAt(ts, j + 3, 32)
        then Some((InNet(dir, ts[j + 1].w.addr, ts[j + 3].w.n), j + 4)) else None
      case _ => None
  }

  /** parse_primitive */
  function ReadPrimitive(ts: seq<Token>, i: nat): Option<(Primitive, nat)> {
    if WordAt(ts, i) && ts[i].w == SrcKw then ReadBody(ts, i + 1, Some(Src))
    else if WordAt(ts, i) && ts[i].w == DstKw then ReadBody(ts, i + 1, Some(Dst))
    else ReadBody(ts, i, None)
  }

  const CAPTURE: G.Language<CapWord, Primitive> :=
    G.Language(ReadPrimitive, PrimitiveWords, ValidPrimitive)

  lemma SpellAt(ts: seq<Token>, i: nat, ws: seq<CapWord>)
    ensures G.At(ts, i, G.Spell(ws)) <==>
            i + |ws| <= |ts| && forall k | 0 <= k < |ws| :: ts[i + k] == G.Word(ws[k])
  {
    if i + |ws| <= |ts| {
      var s := ts[i..i + |ws|];
      assert forall k | 0 <= k < |ws| :: s[k] == ts[i + k];
      if forall k | 0 <= k < |ws| :: ts[i + k] == G.Word(ws[k]) {
        assert s == G.Spell(ws);
      }
      if s == G.Spell(ws) {
        forall k | 0 <= k < |ws| ensures ts[i + k] == G.Word(ws[k]) {
          assert s[k] == G.Spell(ws)[k];
        }
      }
    }
  }

  /** What is read is a valid primitive, in its own words. */
  lemma ReadIsSound(ts: seq<Token>, i: nat)
    requires ReadPrimitive(ts, i).Some?
    ensures var (p, j) := ReadPrimitive(ts, i).value;
            ValidPrimitive(p) && j == i + |PrimitiveWords(p)| && G.At(ts, i, G.Spell(PrimitiveWords(p)))
  {
    var (p, j) := ReadPrimitive(ts, i).value;
    SpellAt(ts, i, PrimitiveWords(p));
  }

  /** Every valid primitive is read back from its words. */
  lemma ReadIsComplete(ts: seq<Token>, i: nat, p: Primitive)
    requires ValidPrimitive(p) && G.At(ts, i, G.Spell(PrimitiveWords(p)))
    ensures ReadPrimitive(ts, i) == Some((p, i + |PrimitiveWords(p)|))
  {
    var ws := PrimitiveWords(p);
    SpellAt(ts, i, ws);
    var d := if p.IsProto? then 0 else |DirWords(p.dir)|;
    assert forall k | 0 <= k < |ws| :: ts[i + k] == G.Word(ws[k]);
    assert ts[i] == G.Word(ws[0]);
    assert ts[i + d] == G.Word(ws[d]);
    if !p.IsProto? {
      assert ts[i + d + 1] == G.Word(ws[d + 1]);
    }
    if p.InNet? {
      assert ts[i + d + 2] == G.Word(ws[d + 2]) && ts[i + d + 3] == G.Word(ws[d + 3]);
    }
  }

  lemma CaptureIsLawful()
    ensures G.Lawful(CAPTURE)
  {
    forall ts: seq<Token>, i: nat | CAPTURE.read(ts, i).Some?
      ensures var (p, j) := CAPTURE.read(ts, i).value;
              && CAPTURE.valid(p) && j == i + |CAPTURE.words(p)|
              && G.At(ts, i, G.Spell(CAPTURE.words(p)))
    {
      ReadIsSound(ts, i);
    }
    forall ts: seq<Token>, i: nat, p | CAPTURE.valid(p) && G.At(ts, i, G.Spell(CAPTURE.words(p)))
      ensures CAPTURE.read(ts, i) == Some((p, i + |CAPTURE.words(p)|))
    {
      ReadIsComplete(ts, i, p);
    }
  }

  // ----- desugaring -----

  /** A test of one direction's field, or of either when no direction is given. */
  function Directed(dir: Option<Dir>, src: Leaf, dst: Leaf): Node {
    match dir
    case Some(Src) => Test(src)
    case Some(Dst) => Test(dst)
    case None => Or(Test(src), Test(dst))
  }

  const ISIPV4: Node := Test(EtherType(ETHERTYPE_IPV4))
  const TCPORUDP: Node := Or(Test(IpProto(PROTO_TCP)), Test(IpProto(PROTO_UDP)))

  /** The test a primitive stands for; the prefix length is cast to eight bits. */
  function Desugared(p: Primitive): Node {
    match p
    case IsProto(Tcp) => And(ISIPV4, Test(IpProto(PROTO_TCP)))
    case IsProto(Udp) => And(ISIPV4, Test(IpProto(PROTO_UDP)))
    case IsProto(Icmp) => And(ISIPV4, Test(IpProto(PROTO_ICMP)))
    case IsProto(Ip) => ISIPV4
    case IsProto(Ip6) => Test(EtherType(ETHERTYPE_IPV6))
    case IsProto(Arp) => Test(EtherType(ETHERTYPE_ARP))
    case HasHost(dir, addr) => And(ISIPV4, Directed(dir, Host(Src, addr), Host(Dst, addr)))
    case HasPort(dir, port) =>
      And(ISIPV4, And(TCPORUDP, Directed(dir, Port(Src, port), Port(Dst, port))))
    case InNet(dir, addr, n) => And(ISIPV4, Directed(dir, Net(Src, addr, n % 0x100), Net(Dst, addr, n % 0x100)))
  }

  predicate ValidFilter(e: Filter) {
    G.AllValid(e, ValidPrimitive)
  }

  function Lowered(e: Filter): Node {
    match e
    case And(l, r) => And(Lowered(l), Lowered(r))
    case Or(l, r) => Or(Lowered(l), Lowered(r))
    case Not(x) => Not(Lowered(x))
    case Prim(p) => Desugared(p)
  }
}
