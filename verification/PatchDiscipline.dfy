/** Which jump fields backpatching writes, and the shape of the finished program. */
module PatchDiscipline {
  import opened Words
  import opened Bpf
  import opened CapAst
  import opened Codegen
  import opened CompilerCorrectness

  /** The jump fields written while n's code is generated, in order. */
  function Resolved(n: Node): seq<Patch> {
    match n
    case Test(_) => []
    case Not(l) => Resolved(l)
    case And(l, r) => Resolved(l) + Pending(l).t + Shift(Resolved(r), Len(l))
    case Or(l, r) => Resolved(l) + Pending(l).f + Shift(Resolved(r), Len(l))
  }

  function Pending(n: Node): Code {
    if Gen(n).Some? then Gen(n).value else Code([], [], [])
  }

  function Occurrences(ps: seq<Patch>, p: Patch): nat {
    if ps == [] then 0
    else Occurrences(ps[..|ps| - 1], p) + if ps[|ps| - 1] == p then 1 else 0
  }

  lemma {:induction false} OccurrencesAppend(ps: seq<Patch>, qs: seq<Patch>, p: Patch)
    ensures Occurrences(ps + qs, p) == Occurrences(ps, p) + Occurrences(qs, p)
  {
    if qs == [] {
      assert ps + qs == ps;
    } else {
      var k := |qs| - 1;
      OccurrencesAppend(ps, qs[..k], p);
      assert (ps + qs)[..|ps + qs| - 1] == ps + qs[..k];
    }
  }

  lemma {:induction false} OccurrencesShift(ps: seq<Patch>, d: nat, p: Patch)
    ensures Occurrences(Shift(ps, d), p) ==
            if p.idx >= d then Occurrences(ps, Patch(p.idx - d, p.isJt)) else 0
  {
    if ps != [] {
      OccurrencesShift(ps[..|ps| - 1], d, p);
      ShiftSnoc(ps, d);
    }
  }

  /** How often field p is written while n's code is generated, or still pending afterwards. */
  function Touched(n: Node, p: Patch): nat {
    Occurrences(Resolved(n), p) + Occurrences(Pending(n).t, p) + Occurrences(Pending(n).f, p)
  }

  /** How often field p of a stretch of code should be written: once per jump, never elsewhere. */
  function Due(code: seq<Insn>, p: Patch): nat {
    if p.idx < |code| && code[p.idx].code == JMP_JEQ_K then 1 else 0
  }

  lemma {:induction false} PatchKeepsCodes(s: seq<Insn>, ps: seq<Patch>, target: int, i: nat)
    requires Within(ps, |s|) && InRange(ps, target) && i < |s|
    ensures PatchAll(s, ps, target)[i].code == s[i].code
  {
    if ps != [] { PatchKeepsCodes(s, ps[..|ps| - 1], target, i); }
  }

  /** The fields of code in two parts are those of the parts, the second part's moved along. */
  lemma DueParts(cl: Code, cr: Code, early: seq<Patch>, p: Patch)
    requires Within(early, |cl.insns|) && InRange(early, |cl.insns|)
    ensures Due(PatchAll(cl.insns, early, |cl.insns|) + cr.insns, p)
         == if p.idx < |cl.insns| then Due(cl.insns, p) else Due(cr.insns, Patch(p.idx - |cl.insns|, p.isJt))
  {
    if p.idx < |cl.insns| {
      PatchKeepsCodes(cl.insns, early, |cl.insns|, p.idx);
    }
  }

  /** A chain's fields: the first part's, and the second part's moved along. */
  lemma {:induction false} TouchedChain(rl: seq<Patch>, rr: seq<Patch>, cl: Code, cr: Code, k: nat, p: Patch)
    requires k == |cl.insns|
    ensures Occurrences(rl + cl.t + Shift(rr, k), p) + Occurrences(Shift(cr.t, k), p)
            + Occurrences(cl.f + Shift(cr.f, k), p)
         == Occurrences(rl, p) + Occurrences(cl.t, p) + Occurrences(cl.f, p)
            + if p.idx < k then 0
              else Occurrences(rr, Patch(p.idx - k, p.isJt)) + Occurrences(cr.t, Patch(p.idx - k, p.isJt))
                   + Occurrences(cr.f, Patch(p.idx - k, p.isJt))
  {
    hide Occurrences, Shift;
    OccurrencesAppend(rl + cl.t, Shift(rr, k), p);
    OccurrencesAppend(rl, cl.t, p);
    OccurrencesAppend(cl.f, Shift(cr.f, k), p);
    OccurrencesShift(rr, k, p);
    OccurrencesShift(cr.t, k, p);
    OccurrencesShift(cr.f, k, p);
  }

  /** Each jump has each of its two fields resolved or pending exactly once, and nothing else is. */
  lemma {:induction false} TouchedOnce(n: Node, p: Patch)
    requires Gen(n).Some?
    ensures Touched(n, p) == Due(Gen(n).value.insns, p)
    decreases n, 1
  {
    hide Shift, PatchAll, Occurrences, Loads;
    match n
    case Test(leaf) => TestTouchedOnce(leaf, p);
    case Not(l) => TouchedOnce(l, p);
    case And(l, r) =>
      TouchedOnce(l, p);
      if p.idx >= Len(l) { TouchedOnce(r, Patch(p.idx - Len(l), p.isJt)); }
      var cl, cr := Gen(l).value, Gen(r).value;
      DueParts(cl, cr, cl.t, p);
      TouchedChain(Resolved(l), Resolved(r), cl, cr, Len(l), p);
    case Or(l, r) => OrTouchedOnce(l, r, p);
  }

  lemma {:induction false} OrTouchedOnce(l: Node, r: Node, p: Patch)
    requires Gen(Or(l, r)).Some?
    ensures Touched(Or(l, r), p) == Due(Gen(Or(l, r)).value.insns, p)
    decreases Or(l, r), 0
  {
    hide Shift, PatchAll, Occurrences, Loads;
    TouchedOnce(l, p);
    if p.idx >= Len(l) { TouchedOnce(r, Patch(p.idx - Len(l), p.isJt)); }
    var cl, cr := Gen(l).value.Swap(), Gen(r).value.Swap();
    assert Gen(Or(l, r)).value.Swap() == cl.Then(cr).value;
    DueParts(cl, cr, cl.t, p);
    TouchedChain(Resolved(l), Resolved(r), cl, cr, Len(l), p);
  }

  lemma TestTouchedOnce(leaf: Leaf, p: Patch)
    ensures Touched(Test(leaf), p) == Due(Gen(Test(leaf)).value.insns, p)
  {
    LoadsDoNotJump(leaf);
    var c := Gen(Test(leaf)).value;
    assert c.t[..0] == [] && c.f[..0] == [];
    assert Occurrences(c.t, p) == (if c.t[0] == p then 1 else 0);
    assert Occurrences(c.f, p) == (if c.f[0] == p then 1 else 0);
  }

  lemma LoadsDoNotJump(leaf: Leaf)
    ensures forall i | 0 <= i < |Loads(leaf)| :: Loads(leaf)[i].code != JMP_JEQ_K
  {
  }

  /** Everything written while a whole program is produced. */
  function Written(n: Node): seq<Patch> {
    Resolved(n) + Pending(n).t + Pending(n).f
  }

  /** In a finished program, every jump had its jt and its jf written exactly once, and nothing else was written. */
  lemma PatchedExactlyOnce(n: Node, i: nat, isJt: bool)
    requires Program(n).Some?
    ensures Occurrences(Written(n), Patch(i, isJt)) == Due(Program(n).value, Patch(i, isJt))
  {
    TouchedOnce(n, Patch(i, isJt));
    OccurrencesAppend(Resolved(n) + Pending(n).t, Pending(n).f, Patch(i, isJt));
    OccurrencesAppend(Resolved(n), Pending(n).t, Patch(i, isJt));
    if i < |Program(n).value| {
      ProgramCode(n, i);
    }
  }

  lemma ProgramCode(n: Node, i: nat)
    requires Program(n).Some? && i < |Program(n).value|
    ensures Program(n).value[i].code == if i < Len(n) then Gen(n).value.insns[i].code else RET_K
  {
    hide Gen, PatchAll;
    var c := Gen(n).value;
    var accepting := PatchAll(c.insns, c.t, Len(n)) + [Insn(RET_K, 0, 0, ACCEPT_LEN)];
    if i < Len(n) {
      PatchKeepsCodes(c.insns, c.t, Len(n), i);
    }
    if i <= Len(n) {
      PatchKeepsCodes(accepting, c.f, Len(n) + 1, i);
    }
  }

  /** Every instruction returns or continues, strictly forward, inside the program. */
  predicate WellFormed(p: seq<Insn>, end: nat) {
    forall i | 0 <= i < |p| ::
      || p[i].code == RET_K
      || (p[i].code == JMP_JEQ_K && i + 1 + p[i].jt as int < end && i + 1 + p[i].jf as int < end)
      || (p[i].code != JMP_JEQ_K && p[i].code in {LD_W_ABS, LD_H_ABS, LD_B_ABS, LD_H_IND, LDX_B_MSH, ALU_AND_K}
          && i + 1 < end)
  }

  lemma {:induction false} DirectWellFormed(n: Node, pcT: nat, pcF: nat, end: nat)
    requires pcT >= Len(n) && pcF >= Len(n) && Fits(n, pcT, pcF)
    requires pcT < end && pcF < end
    ensures WellFormed(Direct(n, pcT, pcF).value, end)
  {
    hide WellFormed, Loads, Operand;
    match n
    case Test(leaf) => TestWellFormed(leaf, pcT, pcF, end);
    case Not(l) => DirectWellFormed(l, pcF, pcT, end);
    case And(l, r) =>
      var k := Len(l);
      DirectWellFormed(l, k, pcF, end);
      DirectWellFormed(r, pcT - k, pcF - k, end - k);
      WellFormedJoin(Direct(l, k, pcF).value, Direct(r, pcT - k, pcF - k).value, end);
    case Or(l, r) => OrWellFormed(l, r, pcT, pcF, end);
  }

  lemma {:induction false} OrWellFormed(l: Node, r: Node, pcT: nat, pcF: nat, end: nat)
    requires pcT >= Len(l) + Len(r) && pcF >= Len(l) + Len(r) && Fits(Or(l, r), pcT, pcF)
    requires pcT < end && pcF < end
    ensures WellFormed(Direct(Or(l, r), pcT, pcF).value, end)
    decreases Or(l, r), 0
  {
    hide WellFormed;
    var k := Len(l);
    DirectWellFormed(l, pcT, k, end);
    DirectWellFormed(r, pcT - k, pcF - k, end - k);
    WellFormedJoin(Direct(l, pcT, k).value, Direct(r, pcT - k, pcF - k).value, end);
  }

  lemma TestWellFormed(leaf: Leaf, pcT: nat, pcF: nat, end: nat)
    requires pcT >= Len(Test(leaf)) && pcF >= Len(Test(leaf)) && Fits(Test(leaf), pcT, pcF)
    requires pcT < end && pcF < end
    ensures WellFormed(Direct(Test(leaf), pcT, pcF).value, end)
  {
    LoadsDoNotJump(leaf);
  }

  lemma WellFormedJoin(a: seq<Insn>, b: seq<Insn>, end: nat)
    requires |a| <= end && WellFormed(a, end) && WellFormed(b, end - |a|)
    ensures WellFormed(a + b, end)
  {
  }

  /** No jump of a compiled program is truncated, points backward or leaves the program. */
  lemma ProgramWellFormed(n: Node)
    requires Program(n).Some?
    ensures WellFormed(Program(n).value, |Program(n).value|)
  {
    hide Direct, Fits, Len, Program;
    ProgramIsDirect(n);
    DirectWellFormed(n, Len(n), Len(n) + 1, Len(n) + 2);
    assert WellFormed(RETURNS, 2);
    WellFormedJoin(Direct(n, Len(n), Len(n) + 1).value, RETURNS, Len(n) + 2);
  }

  /** Where the last executed instruction of a run sits, if it stays inside the program. */
  function LastPc(p: seq<Insn>, pkt: Packet, m: Machine): Option<nat>
    decreases |p| - m.pc
  {
    if m.pc >= |p| then None
    else match Step(p, pkt, m)
      case Halt(_) => Some(m.pc)
      case Next(m') => LastPc(p, pkt, m')
  }

  const LOADS: set<u16> := {LD_W_ABS, LD_H_ABS, LD_B_ABS, LD_H_IND, LDX_B_MSH}

  /** Every path through a well-formed program stops inside it, at a return with its value or at a load that failed. */
  lemma {:induction false} PathsEnd(p: seq<Insn>, pkt: Packet, m: Machine)
    requires WellFormed(p, |p|) && m.pc < |p|
    ensures LastPc(p, pkt, m).Some? && LastPc(p, pkt, m).value < |p|
    ensures var last := p[LastPc(p, pkt, m).value];
            || (last.code == RET_K && Eval(p, pkt, m) == Returned(last.k))
            || (last.code in LOADS && (Eval(p, pkt, m) == REJECT || Eval(p, pkt, m) == WildRead))
    decreases |p| - m.pc
  {
    hide LoadSpec, BitAnd;
    if Step(p, pkt, m).Next? {
      PathsEnd(p, pkt, Step(p, pkt, m).m);
    }
  }

  /** In a compiled program that load rejects the packet, from any A and X. */
  lemma ProgramPathsEnd(n: Node, pkt: Packet, a: u32, x: u32)
    requires Program(n).Some?
    ensures var p, m := Program(n).value, Machine(a, x, 0);
            && LastPc(p, pkt, m).Some? && LastPc(p, pkt, m).value < |p|
            && var last := p[LastPc(p, pkt, m).value];
               || (last.code == RET_K && Eval(p, pkt, m) == Returned(last.k))
               || (last.code in LOADS && Eval(p, pkt, m) == REJECT)
  {
    hide WellFormed, Program, Eval, LastPc, Meaning, Len, Direct;
    ProgramWellFormed(n);
    ProgramEvaluates(n, pkt, a, x);
    ProgramIsDirect(n);
    PathsEnd(Program(n).value, pkt, Machine(a, x, 0));
  }
}
