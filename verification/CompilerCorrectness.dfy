/** The compiled filter does what the tree means, within the machine's limits. */
module CompilerCorrectness {
  import opened Words
  import opened Bpf
  import opened CapAst
  import opened Codegen

  /** The whole program: resolve true to the accepting return and false to the rejecting one. */
  function Program(n: Node): (p: Option<seq<Insn>>)
    ensures p.Some? ==> |p.value| == Len(n) + 2
  {
    var acceptPc, rejectPc := Len(n), Len(n) + 1;
    match Gen(n)
    case None => None
    case Some(c) =>
      if !c.Resolvable(acceptPc, rejectPc) then None
      else
        var accepting := PatchAll(c.insns, c.t, acceptPc) + [Insn(RET_K, 0, 0, ACCEPT_LEN)];
        Some(PatchAll(accepting, c.f, rejectPc) + [Insn(RET_K, 0, 0, 0)])
  }

  const RETURNS := [Insn(RET_K, 0, 0, ACCEPT_LEN), Insn(RET_K, 0, 0, 0)]

  /** A tree compiles exactly when all its jumps fit, and then to its direct code and two returns. */
  lemma ProgramIsDirect(n: Node)
    ensures Program(n).Some? <==> Fits(n, Len(n), Len(n) + 1)
    ensures Program(n).Some? ==> Program(n).value == Direct(n, Len(n), Len(n) + 1).value + RETURNS
  {
    hide PatchAll, Fits, Direct, Gen;
    BackpatchIsDirect(n, Len(n), Len(n) + 1);
    if Program(n).Some? {
      var c := Gen(n).value;
      PatchFront(PatchAll(c.insns, c.t, Len(n)), [RETURNS[0]], c.f, Len(n) + 1);
    }
  }

  // ----- simulation -----

  /** One absolute load of a field that fits the address space. */
  lemma LoadStep(prog: seq<Insn>, pkt: Packet, m: Machine, code: u16, off: u32, width: int) returns (m': Machine)
    requires m.pc < |prog| && prog[m.pc] == Insn(code, 0, 0, off)
    requires Class(code) == LD && Mode(code) == ABS && width == Width(code) && off < 0x100
    ensures Field(pkt, off, width).None? ==> Eval(prog, pkt, m) == REJECT
    ensures Field(pkt, off, width).Some? ==>
              && m'.pc == m.pc + 1
              && m'.a == Field(pkt, off, width).value
              && Eval(prog, pkt, m) == Eval(prog, pkt, m')
  {
    hide BigEndian;
    m' := m;
    if Field(pkt, off, width).Some? {
      m' := Step(prog, pkt, m).m;
    }
  }

  /** What a leaf's loads establish: rejection on abort, else A equals the operand exactly on true. */
  ghost predicate LeafDone(prog: seq<Insn>, leaf: Leaf, pkt: Packet, m: Machine, m': Machine) {
    if LeafMeaning(leaf, pkt) == Abort then Eval(prog, pkt, m) == REJECT
    else
      && m'.pc == m.pc + |Loads(leaf)|
      && Eval(prog, pkt, m) == Eval(prog, pkt, m')
      && (m'.a == Operand(leaf) <==> LeafMeaning(leaf, pkt) == True)
  }

  lemma LeafRuns(prog: seq<Insn>, leaf: Leaf, pkt: Packet, m: Machine) returns (m': Machine)
    requires m.pc + |Loads(leaf)| <= |prog|
    requires prog[m.pc..m.pc + |Loads(leaf)|] == Loads(leaf)
    ensures LeafDone(prog, leaf, pkt, m, m')
  {
    hide BigEndian, BitAnd, Eval, PrefixMask;
    assert prog[m.pc] == Loads(leaf)[0];
    match leaf
    case EtherType(k) => m' := LoadStep(prog, pkt, m, LD_H_ABS, OFF_ETHERTYPE, 2);
    case IpProto(k) => m' := LoadStep(prog, pkt, m, LD_B_ABS, OFF_IP_PROTO, 1);
    case Host(dir, _) => m' := LoadStep(prog, pkt, m, LD_W_ABS, AddrOffset(dir), 4);
    case Net(_, _, _) => m' := NetRuns(prog, leaf, pkt, m);
    case Port(_, _) => m' := PortRuns(prog, leaf, pkt, m);
  }

  lemma MaskStep(prog: seq<Insn>, pkt: Packet, m: Machine, k: u32)
    requires m.pc < |prog| && prog[m.pc] == Insn(ALU_AND_K, 0, 0, k)
    ensures Eval(prog, pkt, m) == Eval(prog, pkt, m.(a := BitAnd(m.a, k), pc := m.pc + 1))
  {
    hide BitAnd;
  }

  lemma NetRuns(prog: seq<Insn>, leaf: Leaf, pkt: Packet, m: Machine) returns (m': Machine)
    requires leaf.Net?
    requires m.pc + 2 <= |prog| && prog[m.pc..m.pc + 2] == Loads(leaf)
    ensures LeafDone(prog, leaf, pkt, m, m')
  {
    hide BigEndian, BitAnd, PrefixMask, Eval;
    assert prog[m.pc] == Loads(leaf)[0] && prog[m.pc + 1] == Loads(leaf)[1];
    m' := LoadStep(prog, pkt, m, LD_W_ABS, AddrOffset(leaf.dir), 4);
    if LeafMeaning(leaf, pkt) != Abort {
      var mask := PrefixMask(leaf.prefixLen);
      MaskedCompare(m'.a, AddrToU32(leaf.addr), leaf.prefixLen);
      MaskStep(prog, pkt, m', mask);
      m' := m'.(a := BitAnd(m'.a, mask), pc := m'.pc + 1);
    }
  }

  /** X = 4 * (low nibble of the byte at k), or rejection when the frame ends before it. */
  lemma HeaderLengthStep(prog: seq<Insn>, pkt: Packet, m: Machine)
    requires m.pc < |prog| && prog[m.pc] == Insn(LDX_B_MSH, 0, 0, OFF_IP_IHL_BYTE)
    ensures |pkt| <= OFF_IP_IHL_BYTE ==> Eval(prog, pkt, m) == REJECT
    ensures |pkt| > OFF_IP_IHL_BYTE ==>
              Eval(prog, pkt, m) == Eval(prog, pkt, m.(x := pkt[OFF_IP_IHL_BYTE] % 0x10 * 4, pc := m.pc + 1))
  {
    if |pkt| > OFF_IP_IHL_BYTE {
      OneByte(pkt, OFF_IP_IHL_BYTE);
    }
    hide BigEndian;
  }

  lemma IndexedStep(prog: seq<Insn>, pkt: Packet, m: Machine, k: u32) returns (m': Machine)
    requires m.pc < |prog| && prog[m.pc] == Insn(LD_H_IND, 0, 0, k) && k + m.x < 0x100
    ensures Field(pkt, k + m.x, 2).None? ==> Eval(prog, pkt, m) == REJECT
    ensures Field(pkt, k + m.x, 2).Some? ==>
              && m'.pc == m.pc + 1
              && m'.a == Field(pkt, k + m.x, 2).value
              && Eval(prog, pkt, m) == Eval(prog, pkt, m')
  {
    hide BigEndian;
    m' := m;
    if Field(pkt, k + m.x, 2).Some? {
      m' := Step(prog, pkt, m).m;
    }
  }

  lemma PortRuns(prog: seq<Insn>, leaf: Leaf, pkt: Packet, m: Machine) returns (m': Machine)
    requires leaf.Port?
    requires m.pc + 2 <= |prog| && prog[m.pc..m.pc + 2] == Loads(leaf)
    ensures LeafDone(prog, leaf, pkt, m, m')
  {
    hide BigEndian, Eval;
    assert prog[m.pc] == Loads(leaf)[0] && prog[m.pc + 1] == Loads(leaf)[1];
    HeaderLengthStep(prog, pkt, m);
    m' := m;
    if |pkt| > OFF_IP_IHL_BYTE {
      m' := m.(x := pkt[OFF_IP_IHL_BYTE] % 0x10 * 4, pc := m.pc + 1);
      m' := IndexedStep(prog, pkt, m', prog[m.pc + 1].k);
    }
  }

  lemma OneByte(pkt: Packet, off: nat)
    requires off < |pkt|
    ensures BigEndian(pkt[off..off + 1]) == pkt[off]
  {
    var s := pkt[off..off + 1];
    assert s[..0] == [];
  }

  /** Where code at m.pc must lead: rejection on abort, else the true or the false target. */
  ghost predicate Leads(prog: seq<Insn>, pkt: Packet, m: Machine, m': Machine, v: Tri, pcT: nat, pcF: nat) {
    if v == Abort then Eval(prog, pkt, m) == REJECT
    else
      && m'.pc == m.pc + (if v == True then pcT else pcF)
      && Eval(prog, pkt, m) == Eval(prog, pkt, m')
  }

  lemma TestSimulates(prog: seq<Insn>, leaf: Leaf, pcT: nat, pcF: nat, pkt: Packet, m: Machine)
    returns (m': Machine)
    requires pcT >= Len(Test(leaf)) && pcF >= Len(Test(leaf)) && Fits(Test(leaf), pcT, pcF)
    requires m.pc + Len(Test(leaf)) <= |prog|
    requires prog[m.pc..m.pc + Len(Test(leaf))] == Direct(Test(leaf), pcT, pcF).value
    ensures Leads(prog, pkt, m, m', LeafMeaning(leaf, pkt), pcT, pcF)
  {
    hide Loads, Operand, LeafMeaning;
    var code := Direct(Test(leaf), pcT, pcF).value;
    var j := |Loads(leaf)|;
    assert prog[m.pc..m.pc + j] == code[..j] == Loads(leaf);
    m' := LeafRuns(prog, leaf, pkt, m);
    assert prog[m.pc + j] == code[j];
    if LeafMeaning(leaf, pkt) != Abort {
      m' := Step(prog, pkt, m').m;
    }
  }

  /**
    Direct code placed anywhere in a program computes the three-valued meaning: it rejects on
    abort, and otherwise continues at the true or the false target, whatever A and X held.
   */
  lemma {:induction false} DirectSimulates(prog: seq<Insn>, n: Node, pcT: nat, pcF: nat,
                                           pkt: Packet, m: Machine) returns (m': Machine)
    requires pcT >= Len(n) && pcF >= Len(n) && Fits(n, pcT, pcF)
    requires m.pc + Len(n) <= |prog|
    requires prog[m.pc..m.pc + Len(n)] == Direct(n, pcT, pcF).value
    ensures Leads(prog, pkt, m, m', Meaning(n, pkt), pcT, pcF)
    decreases n
  {
    hide Eval, LeafMeaning;
    match n
    case Test(leaf) => m' := TestSimulates(prog, leaf, pcT, pcF, pkt, m);
    case Not(l) => m' := DirectSimulates(prog, l, pcF, pcT, pkt, m);
    case And(l, r) => m' := AndSimulates(prog, l, r, pcT, pcF, pkt, m);
    case Or(l, r) => m' := OrSimulates(prog, l, r, pcT, pcF, pkt, m);
  }

  lemma {:induction false} AndSimulates(prog: seq<Insn>, l: Node, r: Node, pcT: nat, pcF: nat,
                                        pkt: Packet, m: Machine) returns (m': Machine)
    requires pcT >= Len(And(l, r)) && pcF >= Len(And(l, r)) && Fits(And(l, r), pcT, pcF)
    requires m.pc + Len(And(l, r)) <= |prog|
    requires prog[m.pc..m.pc + Len(And(l, r))] == Direct(And(l, r), pcT, pcF).value
    ensures Leads(prog, pkt, m, m', Meaning(And(l, r), pkt), pcT, pcF)
    decreases And(l, r), 0
  {
    hide Eval, LeafMeaning;
    var k := Len(l);
    SliceHalves(prog, m.pc, Direct(l, k, pcF).value, Direct(r, pcT - k, pcF - k).value);
    m' := DirectSimulates(prog, l, k, pcF, pkt, m);
    if Meaning(l, pkt) == True {
      m' := DirectSimulates(prog, r, pcT - k, pcF - k, pkt, m');
    }
  }

  lemma {:induction false} OrSimulates(prog: seq<Insn>, l: Node, r: Node, pcT: nat, pcF: nat,
                                       pkt: Packet, m: Machine) returns (m': Machine)
    requires pcT >= Len(Or(l, r)) && pcF >= Len(Or(l, r)) && Fits(Or(l, r), pcT, pcF)
    requires m.pc + Len(Or(l, r)) <= |prog|
    requires prog[m.pc..m.pc + Len(Or(l, r))] == Direct(Or(l, r), pcT, pcF).value
    ensures Leads(prog, pkt, m, m', Meaning(Or(l, r), pkt), pcT, pcF)
    decreases Or(l, r), 0
  {
    hide Eval, LeafMeaning;
    var k := Len(l);
    SliceHalves(prog, m.pc, Direct(l, pcT, k).value, Direct(r, pcT - k, pcF - k).value);
    m' := DirectSimulates(prog, l, pcT, k, pkt, m);
    if Meaning(l, pkt) == False {
      m' := DirectSimulates(prog, r, pcT - k, pcF - k, pkt, m');
    }
  }

  lemma SliceHalves<T>(s: seq<T>, at: nat, a: seq<T>, b: seq<T>)
    requires at + |a| + |b| <= |s| && s[at..at + |a| + |b|] == a + b
    ensures s[at..at + |a|] == a && s[at + |a|..at + |a| + |b|] == b
  {
    var t := s[at..at + |a| + |b|];
    assert s[at..at + |a|] == t[..|a|];
    assert s[at + |a|..at + |a| + |b|] == t[|a|..];
  }

  /** Compiler correctness from any register contents, on the guard-free machine. */
  lemma ProgramEvaluates(n: Node, pkt: Packet, a: u32, x: u32)
    requires Program(n).Some?
    ensures Eval(Program(n).value, pkt, Machine(a, x, 0))
         == Returned(if Meaning(n, pkt) == True then ACCEPT_LEN else 0)
  {
    hide Direct, Fits, Meaning, Program, Len;
    ProgramIsDirect(n);
    var p := Program(n).value;
    var d := Direct(n, Len(n), Len(n) + 1).value;
    assert p[0..Len(n)] == d;
    assert p[Len(n)] == RETURNS[0] && p[Len(n) + 1] == RETURNS[1];
    var m' := DirectSimulates(p, n, Len(n), Len(n) + 1, pkt, Machine(a, x, 0));
  }

  // ----- limits -----

  const MAX_INSNS := 1024

  /** A tree that fits the node arena has at most 128 leaves and 386 instructions. */
  lemma CapacityBounds(n: Node)
    requires n.Nodes() <= MAX_NODES
    ensures n.Leaves() <= 128
    ensures Len(n) + 2 <= 386
    ensures Gen(n).Some? ==> |Gen(n).value.t| <= 128 && |Gen(n).value.f| <= 128
  {
    n.LeavesBound();
    LenBound(n);
  }

  /** Any program of at most 258 instructions stays clear of the jump-range limit. */
  lemma {:induction false} ShortProgramsFit(n: Node)
    requires Len(n) + 2 <= 258
    ensures Program(n).Some?
  {
    FitsWhenNear(n, Len(n), Len(n) + 1, 2);
    ProgramIsDirect(n);
  }

  /** Jumps fit when both targets lie within 255 of the first comparison, which has a load before it. */
  lemma {:induction false} FitsWhenNear(n: Node, pcT: nat, pcF: nat, j: nat)
    requires pcT >= Len(n) && pcF >= Len(n)
    requires j <= 2 && pcT <= 255 + j && pcF <= 255 + j
    ensures Fits(n, pcT, pcF)
  {
    match n
    case Test(_) =>
    case Not(l) => FitsWhenNear(l, pcF, pcT, j);
    case And(l, r) =>
      FitsWhenNear(l, Len(l), pcF, j);
      FitsWhenNear(r, pcT - Len(l), pcF - Len(l), j);
    case Or(l, r) =>
      FitsWhenNear(l, pcT, Len(l), j);
      FitsWhenNear(r, pcT - Len(l), pcF - Len(l), j);
  }

  /** The same test, with one more `and` each time. */
  function Conjunction(leaf: Leaf, k: nat): Node {
    if k == 0 then Test(leaf) else And(Conjunction(leaf, k - 1), Test(leaf))
  }

  /** The first test's false exit spans all the code but its own. */
  lemma {:induction false} FirstExitSpans(leaf: Leaf, k: nat, pcT: nat, pcF: nat)
    requires pcT >= Len(Conjunction(leaf, k)) && pcF >= Len(Conjunction(leaf, k))
    requires Fits(Conjunction(leaf, k), pcT, pcF)
    ensures pcF <= 255 + Len(Test(leaf))
    decreases k
  {
    hide Loads;
    if k > 0 { FirstExitSpans(leaf, k - 1, Len(Conjunction(leaf, k - 1)), pcF); }
  }

  lemma {:induction false} ConjunctionSize(leaf: Leaf, k: nat)
    ensures Len(Conjunction(leaf, k)) == Len(Test(leaf)) * (k + 1) && Conjunction(leaf, k).Nodes() == 2 * k + 1
    decreases k
  {
    hide Loads;
    if k > 0 { ConjunctionSize(leaf, k - 1); }
  }

  lemma LongConjunctionMisses(leaf: Leaf, last: Leaf, k: nat)
    requires Len(Test(leaf)) == 2 && Len(Test(last)) == 3 && k == 126
    ensures var n := And(Conjunction(leaf, k), Test(last));
            Len(n) + 2 == 259 && n.Nodes() <= MAX_NODES && Program(n).None?
  {
    var c := Conjunction(leaf, k);
    var n := And(c, Test(last));
    ConjunctionSize(leaf, k);
    ProgramIsDirect(n);
    hide Loads, Program, Conjunction;
    assert Len(n) == 257;
    if Fits(n, Len(n), Len(n) + 1) {
      FirstExitSpans(leaf, k, Len(c), Len(n) + 1);
      assert false;
    }
  }

  /** The bound is exact: a tree within the arena whose program would have 259 instructions has a jump of 256. */
  lemma OneInstructionMoreMisses() returns (n: Node)
    ensures Len(n) + 2 == 259 && n.Nodes() <= MAX_NODES && Program(n).None?
  {
    var leaf, last := EtherType(ETHERTYPE_IPV4), Net(Src, [0, 0, 0, 0], 8);
    var k: nat :| k == 126;
    assert Len(Test(leaf)) == 2 && Len(Test(last)) == 3;
    hide *;
    LongConjunctionMisses(leaf, last, k);
    n := And(Conjunction(leaf, k), Test(last));
  }

  /**
    End-to-end correctness of code generation: for a tree from the arena, the interpreter,
    guard included, returns 65535 exactly when the meaning is true, and 0 when it is false
    or some load ran past the frame; it never reads outside the frame.
   */
  lemma CompiledFilterCorrect(n: Node, pkt: Packet)
    requires n.Nodes() <= MAX_NODES && Program(n).Some?
    ensures Run(Program(n).value, pkt) == Returned(if Meaning(n, pkt) == True then ACCEPT_LEN else 0)
    ensures StepsTaken(Program(n).value, pkt, Machine(0, 0, 0)) <= |Program(n).value| <= 386
  {
    CapacityBounds(n);
    GuardUnreachable(Program(n).value, pkt, Machine(0, 0, 0), 0);
    ProgramEvaluates(n, pkt, 0, 0);
  }
}
