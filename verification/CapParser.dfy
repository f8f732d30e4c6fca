/**
  The capture filter's recursive-descent parser as it runs: a token cursor, a sticky failure
  flag and a bounded node arena (src/c/capfilter.c, "AST" and "Parser").
 */
module CapParser {
  import opened Words
  import opened CapAst
  import opened CapLanguage
  import G = Grammar

  datatype Kind = KAnd | KOr | KNot | KLeaf(leaf: Leaf)

  /** node_t; children are arena positions, NULL is -1. */
  datatype Slot = Slot(kind: Kind, left: int, right: int)

  const NULL := -1

  /** Position i of the arena holds the tree t, every child below its parent. */
  predicate Holds(pool: seq<Slot>, i: int, t: Node)
    decreases t
  {
    && 0 <= i < |pool|
    && match t
       case And(l, r) =>
         && pool[i].kind == KAnd && pool[i].left < i && pool[i].right < i
         && Holds(pool, pool[i].left, l) && Holds(pool, pool[i].right, r)
       case Or(l, r) =>
         && pool[i].kind == KOr && pool[i].left < i && pool[i].right < i
         && Holds(pool, pool[i].left, l) && Holds(pool, pool[i].right, r)
       case Not(x) =>
         pool[i].kind == KNot && pool[i].left < i && Holds(pool, pool[i].left, x)
       case Test(leaf) =>
         pool[i] == Slot(KLeaf(leaf), NULL, NULL)
  }

  /** Growing the arena keeps the trees in it. */
  lemma {:induction false} HoldsInLarger(pool: seq<Slot>, more: seq<Slot>, i: int, t: Node)
    requires pool <= more && Holds(pool, i, t)
    ensures Holds(more, i, t)
    decreases t
  {
    match t
    case And(l, r) => HoldsInLarger(pool, more, pool[i].left, l); HoldsInLarger(pool, more, pool[i].right, r);
    case Or(l, r) => HoldsInLarger(pool, more, pool[i].left, l); HoldsInLarger(pool, more, pool[i].right, r);
    case Not(x) => HoldsInLarger(pool, more, pool[i].left, x);
    case Test(_) =>
  }

  /** A result that a parse from an arena of the given size cannot return: none, or too big. */
  predicate Refused(x: Option<G.Parsed<Primitive>>, used: nat) {
    x.None? || used + Lowered(x.value.e).Nodes() > MAX_NODES
  }

  /** The loops only grow the operand they hold. */
  lemma {:induction false} AndTailGrows(ts: seq<Token>, x: G.Parsed<Primitive>)
    requires G.AndTail(CAPTURE, ts, x).Some?
    ensures Lowered(G.AndTail(CAPTURE, ts, x).value.e).Nodes() >= Lowered(x.e).Nodes()
    decreases |ts| - x.next
  {
    if x.next < |ts| && ts[x.next] == G.AndOp {
      var y := G.ParseNot(CAPTURE, ts, x.next + 1).value;
      AndTailGrows(ts, G.Parsed(G.And(x.e, y.e), y.next));
    }
  }

  lemma {:induction false} OrTailGrows(ts: seq<Token>, x: G.Parsed<Primitive>)
    requires G.OrTail(CAPTURE, ts, x).Some?
    ensures Lowered(G.OrTail(CAPTURE, ts, x).value.e).Nodes() >= Lowered(x.e).Nodes()
    decreases |ts| - x.next
  {
    if x.next < |ts| && ts[x.next] == G.OrOp {
      var y := G.ParseAnd(CAPTURE, ts, x.next + 1).value;
      OrTailGrows(ts, G.Parsed(G.Or(x.e, y.e), y.next));
    }
  }

  function PrimitiveParsed(ts: seq<Token>, i: nat): Option<G.Parsed<Primitive>> {
    match ReadPrimitive(ts, i)
    case None => None
    case Some(x) => Some(G.Parsed(G.Prim(x.0), x.1))
  }

  datatype State = State(pos: nat, failed: bool, pool: seq<Slot>)

  /** What every parsing step keeps: progress only forward, failure sticky, the arena only grows. */
  predicate Kept(s: State, s': State) {
    s.pos <= s'.pos && (s.failed ==> s'.failed) && s.pool <= s'.pool
  }

  /** What building tree t leaves behind: t in the arena, or a failure when it does not fit. */
  predicate Built(s: State, s': State, n: int, t: Node) {
    && (s'.failed <==> s.failed || |s.pool| + t.Nodes() > MAX_NODES)
    && (!s'.failed ==> |s'.pool| == |s.pool| + t.Nodes() && Holds(s'.pool, n, t))
  }

  /**
    What a parsing function leaves behind, x being the grammar's result at the old cursor:
    success exactly when x exists and fits the arena, and then x's tree and x's end.
   */
  predicate Parses(s: State, s': State, r: int, x: Option<G.Parsed<Primitive>>) {
    && (s'.failed <==> s.failed || Refused(x, |s.pool|))
    && (!s'.failed ==> s'.pos == x.value.next)
    && (!s'.failed ==> |s'.pool| == |s.pool| + Lowered(x.value.e).Nodes() && Holds(s'.pool, r, Lowered(x.value.e)))
  }

  /** A refused operand makes the whole expression refused. */
  lemma AndTailRefused(ts: seq<Token>, x: G.Parsed<Primitive>, used: nat)
    requires Refused(Some(x), used)
    ensures Refused(G.AndTail(CAPTURE, ts, x), used)
  {
    if G.AndTail(CAPTURE, ts, x).Some? { AndTailGrows(ts, x); }
  }

  lemma OrTailRefused(ts: seq<Token>, x: G.Parsed<Primitive>, used: nat)
    requires Refused(Some(x), used)
    ensures Refused(G.OrTail(CAPTURE, ts, x), used)
  {
    if G.OrTail(CAPTURE, ts, x).Some? { OrTailGrows(ts, x); }
  }

  /** cf_ctx_t, parser_t and node_arena_t */
  class Parser {
    const toks: seq<Token>
    var pos: nat
    var failed: bool
    var pool: seq<Slot>

    /** The cursor never passes the closing End, and the arena never overflows. */
    ghost predicate Valid()
      reads this
    {
      G.Closed(toks) && pos < |toks| && |pool| <= MAX_NODES
    }

    constructor (toks: seq<Token>)
      requires G.Closed(toks)
      ensures Valid() && this.toks == toks && pos == 0 && !failed && pool == []
    {
      this.toks := toks;
      pos := 0;
      failed := false;
      pool := [];
    }

    ghost function Now(): State
      reads this
    {
      State(pos, failed, pool)
    }

    /** mk_node */
    method MkNode(kind: Kind) returns (n: int)
      requires Valid()
      modifies this`failed, this`pool
      ensures Valid() && Kept(old(Now()), Now())
      ensures n == NULL ==> failed && pool == old(pool)
      ensures n != NULL ==> n == |old(pool)| && pool == old(pool) + [Slot(kind, NULL, NULL)]
      ensures n != NULL <==> !old(failed) && |old(pool)| < MAX_NODES
      ensures n != NULL ==> !failed
    {
      if failed {
        return NULL;
      }
      if |pool| >= MAX_NODES {
        failed := true;
        return NULL;
      }
      pool := pool + [Slot(kind, NULL, NULL)];
      return |pool| - 1;
    }

    /** mk_ethertype, mk_ipproto, mk_host, mk_port and mk_net */
    method MkLeaf(leaf: Leaf) returns (n: int)
      requires Valid()
      modifies this`failed, this`pool
      ensures Valid() && Kept(old(Now()), Now()) && Built(old(Now()), Now(), n, Test(leaf))
    {
      n := MkNode(KLeaf(leaf));
    }

    /** mk_and and mk_or, on operands that hold tl and tr unless something failed already */
    method MkBinary(isAnd: bool, l: int, r: int, ghost tl: Node, ghost tr: Node) returns (n: int)
      requires Valid()
      requires !failed ==> Holds(pool, l, tl) && Holds(pool, r, tr)
      modifies this`failed, this`pool
      ensures Valid() && Kept(old(Now()), Now())
      ensures failed <==> old(failed) || |old(pool)| >= MAX_NODES
      ensures !failed ==>
                |pool| == |old(pool)| + 1 && Holds(pool, n, if isAnd then And(tl, tr) else Or(tl, tr))
    {
      n := MkNode(if isAnd then KAnd else KOr);
      if n == NULL {
        return;
      }
      pool := pool[n := pool[n].(left := l, right := r)];
      HoldsInLarger(old(pool), pool, l, tl);
      HoldsInLarger(old(pool), pool, r, tr);
    }

    /** The N_NOT node of parse_not. */
    method MkNot(x: int, ghost t: Node) returns (n: int)
      requires Valid()
      requires !failed ==> Holds(pool, x, t)
      modifies this`failed, this`pool
      ensures Valid() && Kept(old(Now()), Now())
      ensures failed <==> old(failed) || |old(pool)| >= MAX_NODES
      ensures !failed ==> |pool| == |old(pool)| + 1 && Holds(pool, n, Not(t))
    {
      n := MkNode(KNot);
      if n == NULL {
        return;
      }
      pool := pool[n := pool[n].(left := x)];
      HoldsInLarger(old(pool), pool, x, t);
    }

    /** `has_dir ? mk_x(dir) : mk_or(mk_x(DIR_SRC), mk_x(DIR_DST))` */
    method MkDirected(dir: Option<Dir>, src: Leaf, dst: Leaf) returns (n: int)
      requires Valid()
      modifies this`failed, this`pool
      ensures Valid() && Kept(old(Now()), Now()) && Built(old(Now()), Now(), n, Directed(dir, src, dst))
    {
      match dir {
        case Some(Src) => n := MkLeaf(src);
        case Some(Dst) => n := MkLeaf(dst);
        case None => n := MkEither(src, dst);
      }
    }

    method MkEither(a: Leaf, b: Leaf) returns (n: int)
      requires Valid()
      modifies this`failed, this`pool
      ensures Valid() && Kept(old(Now()), Now()) && Built(old(Now()), Now(), n, Or(Test(a), Test(b)))
    {
      var l := MkLeaf(a);
      ghost var before := pool;
      var r := MkLeaf(b);
      if !failed { HoldsInLarger(before, pool, l, Test(a)); }
      n := MkBinary(false, l, r, Test(a), Test(b));
    }

    /** An IPv4 check in front of a test that is still to be built. */
    method MkUnderIpv4(dir: Option<Dir>, src: Leaf, dst: Leaf) returns (n: int)
      requires Valid()
      modifies this`failed, this`pool
      ensures Valid() && Kept(old(Now()), Now()) && Built(old(Now()), Now(), n, And(ISIPV4, Directed(dir, src, dst)))
    {
      var ip := MkLeaf(ISIPV4.leaf);
      ghost var before := pool;
      var x := MkDirected(dir, src, dst);
      if !failed { HoldsInLarger(before, pool, ip, ISIPV4); }
      n := MkBinary(true, ip, x, ISIPV4, Directed(dir, src, dst));
    }

    /** mk_l4_proto */
    method MkL4Proto(proto: u32) returns (n: int)
      requires Valid()
      modifies this`failed, this`pool
      ensures Valid() && Kept(old(Now()), Now()) && Built(old(Now()), Now(), n, And(ISIPV4, Test(IpProto(proto))))
    {
      var ip := MkLeaf(ISIPV4.leaf);
      ghost var before := pool;
      var x := MkLeaf(IpProto(proto));
      if !failed { HoldsInLarger(before, pool, ip, ISIPV4); }
      n := MkBinary(true, ip, x, ISIPV4, Test(IpProto(proto)));
    }

    /** The protocol keywords. */
    method MkProto(proto: Proto) returns (n: int)
      requires Valid()
      modifies this`failed, this`pool
      ensures Valid() && Kept(old(Now()), Now()) && Built(old(Now()), Now(), n, Desugared(IsProto(proto)))
    {
      match proto {
        case Tcp => n := MkL4Proto(PROTO_TCP);
        case Udp => n := MkL4Proto(PROTO_UDP);
        case Icmp => n := MkL4Proto(PROTO_ICMP);
        case Ip => n := MkLeaf(EtherType(ETHERTYPE_IPV4));
        case Ip6 => n := MkLeaf(EtherType(ETHERTYPE_IPV6));
        case Arp => n := MkLeaf(EtherType(ETHERTYPE_ARP));
      }
    }

    /** TCP or UDP, and then the port. */
    method MkL4Port(dir: Option<Dir>, port: u32) returns (n: int)
      requires Valid()
      modifies this`failed, this`pool
      ensures Valid() && Kept(old(Now()), Now())
      ensures Built(old(Now()), Now(), n, And(TCPORUDP, Directed(dir, Port(Src, port), Port(Dst, port))))
    {
      var l4 := MkEither(IpProto(PROTO_TCP), IpProto(PROTO_UDP));
      ghost var before := pool;
      var x := MkDirected(dir, Port(Src, port), Port(Dst, port));
      if !failed { HoldsInLarger(before, pool, l4, TCPORUDP); }
      hide Holds;
      n := MkBinary(true, l4, x, TCPORUDP, Directed(dir, Port(Src, port), Port(Dst, port)));
    }

    /** The port primitive: IPv4, then TCP or UDP, then the port. */
    method MkPort(dir: Option<Dir>, port: u32) returns (n: int)
      requires Valid()
      modifies this`failed, this`pool
      ensures Valid() && Kept(old(Now()), Now()) && Built(old(Now()), Now(), n, Desugared(HasPort(dir, port)))
    {
      ghost var rest := And(TCPORUDP, Directed(dir, Port(Src, port), Port(Dst, port)));
      var ip := MkLeaf(ISIPV4.leaf);
      ghost var before := pool;
      var x := MkL4Port(dir, port);
      if !failed { HoldsInLarger(before, pool, ip, ISIPV4); }
      hide Holds;
      n := MkBinary(true, ip, x, ISIPV4, rest);
    }

    // ----- tokens -----

    /** p_advance */
    method Advance() returns (t: Token)
      requires Valid()
      modifies this`pos
      ensures Valid() && Kept(old(Now()), Now()) && t == toks[old(pos)]
      ensures pos == if t.End? then old(pos) else old(pos) + 1
    {
      t := toks[pos];
      if !t.End? {
        pos := pos + 1;
      }
    }

    // ----- parsing -----

    /** parse_primitive */
    method ParsePrimitive() returns (r: int)
      requires Valid()
      modifies this
      ensures Valid() && Kept(old(Now()), Now()) && Parses(old(Now()), Now(), r, PrimitiveParsed(toks, old(pos)))
    {
      var dir: Option<Dir> := None;
      if toks[pos] == G.Word(SrcKw) {
        dir := Some(Src);
        var _ := Advance();
      } else if toks[pos] == G.Word(DstKw) {
        dir := Some(Dst);
        var _ := Advance();
      }
      r := ParseBody(dir);
    }

    /** The rest of parse_primitive, behind an optional direction. */
    method ParseBody(dir: Option<Dir>) returns (r: int)
      requires Valid()
      modifies this
      ensures Valid() && Kept(old(Now()), Now())
      ensures Parses(old(Now()), Now(), r, match ReadBody(toks, old(pos), dir)
                        case None => None
                        case Some(x) => Some(G.Parsed(G.Prim(x.0), x.1)))
    {
      hide Holds;
      r := NULL;
      var t := toks[pos];
      if !t.Word? || (dir.Some? && t.w !in {HostKw, PortKw, NetKw}) {
        failed := true;
        return;
      }
      match t.w {
        case ProtoKw(proto) =>
          var _ := Advance();
          r := MkProto(proto);
        case HostKw =>
          var _ := Advance();
          var a := Advance();
          if !a.Word? || !a.w.Ipv4? {
            failed := true;
            return;
          }
          r := MkUnderIpv4(dir, Host(Src, a.w.addr), Host(Dst, a.w.addr));
        case PortKw =>
          var _ := Advance();
          var n := Advance();
          if !n.Word? || !n.w.Number? || n.w.n > 65535 {
            failed := true;
            return;
          }
          r := MkPort(dir, n.w.n);
        case NetKw =>
          r := ParseNet(dir);
        case _ =>
          failed := true;
      }
    }

    /** The `net` case of parse_primitive. */
    method ParseNet(dir: Option<Dir>) returns (r: int)
      requires Valid() && toks[pos] == G.Word(NetKw)
      modifies this
      ensures Valid() && Kept(old(Now()), Now())
      ensures Parses(old(Now()), Now(), r, match ReadBody(toks, old(pos), dir)
                        case None => None
                        case Some(x) => Some(G.Parsed(G.Prim(x.0), x.1)))
    {
      hide Holds;
      r := NULL;
      var _ := Advance();
      var a := Advance();
      if !a.Word? || !a.w.Ipv4? {
        failed := true;
        return;
      }
      var slash := Advance();
      if slash != G.Word(Slash) {
        failed := true;
        return;
      }
      var n := Advance();
      if !n.Word? || !n.w.Number? || n.w.n > 32 {
        failed := true;
        return;
      }
      var prefixLen := n.w.n % 0x100;
      r := MkUnderIpv4(dir, Net(Src, a.w.addr, prefixLen), Net(Dst, a.w.addr, prefixLen));
    }

    /** parse_not */
    method ParseNot() returns (r: int)
      requires Valid()
      modifies this
      ensures Valid() && Kept(old(Now()), Now()) && Parses(old(Now()), Now(), r, G.ParseNot(CAPTURE, toks, old(pos)))
      decreases |toks| - pos, 0
    {
      hide Holds;
      if toks[pos].NotOp? {
        var _ := Advance();
        ghost var y := G.ParseNot(CAPTURE, toks, pos);
        var x := ParseNot();
        r := MkNot(x, if failed then ISIPV4 else Lowered(y.value.e));
      } else if toks[pos].LParen? {
        var _ := Advance();
        r := ParseExpr();
        var t := Advance();
        if !t.RParen? {
          failed := true;
          return;
        }
      } else {
        r := ParsePrimitive();
      }
    }

    /** parse_and: one turn of its loop, behind the operand at r. */
    method ParseAndTurn(r: int, ghost s: State, ghost held: G.Parsed<Primitive>) returns (n: int)
      requires Valid() && toks[pos].AndOp?
      requires !failed ==> Parses(s, Now(), r, Some(held))
      modifies this
      ensures Valid() && Kept(old(Now()), Now()) && pos > old(pos)
      ensures !old(failed) ==>
                Parses(s, Now(), n, match G.ParseNot(CAPTURE, toks, held.next + 1)
                                    case None => None
                                    case Some(y) => Some(G.Parsed(G.And(held.e, y.e), y.next)))
      decreases |toks| - pos, 1
    {
      var _ := Advance();
      ghost var y := G.ParseNot(CAPTURE, toks, pos);
      ghost var before := pool;
      var right := ParseNot();
      if failed {
        n := MkBinary(true, r, right, ISIPV4, ISIPV4);
      } else {
        HoldsInLarger(before, pool, r, Lowered(held.e));
        n := MkBinary(true, r, right, Lowered(held.e), Lowered(y.value.e));
      }
    }

    /** parse_and */
    method ParseAnd() returns (r: int)
      requires Valid()
      modifies this
      ensures Valid() && Kept(old(Now()), Now()) && Parses(old(Now()), Now(), r, G.ParseAnd(CAPTURE, toks, old(pos)))
      decreases |toks| - pos, 2
    {
      hide Holds, Lowered;
      ghost var s := Now();
      ghost var whole := G.ParseAnd(CAPTURE, toks, pos);
      ghost var held := G.ParseNot(CAPTURE, toks, pos);
      r := ParseNot();
      if held.Some? && Refused(held, |s.pool|) { AndTailRefused(toks, held.value, |s.pool|); }
      while toks[pos].AndOp?
        invariant Valid() && Kept(s, Now())
        invariant failed ==> s.failed || Refused(whole, |s.pool|)
        invariant !failed ==> held.Some? && Parses(s, Now(), r, held) && whole == G.AndTail(CAPTURE, toks, held.value)
        decreases |toks| - pos
      {
        ghost var known := !failed;
        ghost var x := if known then held.value else G.Parsed(G.Prim(IsProto(Ip)), 0);
        r := ParseAndTurn(r, s, x);
        ghost var y := G.ParseNot(CAPTURE, toks, x.next + 1);
        held := if y.None? then None else Some(G.Parsed(G.And(x.e, y.value.e), y.value.next));
        if known && held.Some? && Refused(held, |s.pool|) { AndTailRefused(toks, held.value, |s.pool|); }
      }
    }

    /** parse_expr: one turn of its loop, behind the operand at r. */
    method ParseExprTurn(r: int, ghost s: State, ghost held: G.Parsed<Primitive>) returns (n: int)
      requires Valid() && toks[pos].OrOp?
      requires !failed ==> Parses(s, Now(), r, Some(held))
      modifies this
      ensures Valid() && Kept(old(Now()), Now()) && pos > old(pos)
      ensures !old(failed) ==>
                Parses(s, Now(), n, match G.ParseAnd(CAPTURE, toks, held.next + 1)
                                    case None => None
                                    case Some(y) => Some(G.Parsed(G.Or(held.e, y.e), y.next)))
      decreases |toks| - pos, 3
    {
      var _ := Advance();
      ghost var y := G.ParseAnd(CAPTURE, toks, pos);
      ghost var before := pool;
      var right := ParseAnd();
      if failed {
        n := MkBinary(false, r, right, ISIPV4, ISIPV4);
      } else {
        HoldsInLarger(before, pool, r, Lowered(held.e));
        n := MkBinary(false, r, right, Lowered(held.e), Lowered(y.value.e));
      }
    }

    /** parse_expr */
    method ParseExpr() returns (r: int)
      requires Valid()
      modifies this
      ensures Valid() && Kept(old(Now()), Now()) && Parses(old(Now()), Now(), r, G.ParseExpr(CAPTURE, toks, old(pos)))
      decreases |toks| - pos, 4
    {
      hide Holds, Lowered;
      ghost var s := Now();
      ghost var whole := G.ParseExpr(CAPTURE, toks, pos);
      ghost var held := G.ParseAnd(CAPTURE, toks, pos);
      r := ParseAnd();
      if held.Some? && Refused(held, |s.pool|) { OrTailRefused(toks, held.value, |s.pool|); }
      while toks[pos].OrOp?
        invariant Valid() && Kept(s, Now())
        invariant failed ==> s.failed || Refused(whole, |s.pool|)
        invariant !failed ==> held.Some? && Parses(s, Now(), r, held) && whole == G.OrTail(CAPTURE, toks, held.value)
        decreases |toks| - pos
      {
        ghost var known := !failed;
        ghost var x := if known then held.value else G.Parsed(G.Prim(IsProto(Ip)), 0);
        r := ParseExprTurn(r, s, x);
        ghost var y := G.ParseAnd(CAPTURE, toks, x.next + 1);
        held := if y.None? then None else Some(G.Parsed(G.Or(x.e, y.value.e), y.value.next));
        if known && held.Some? && Refused(held, |s.pool|) { OrTailRefused(toks, held.value, |s.pool|); }
      }
    }

  }
}
