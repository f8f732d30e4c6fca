/**
  Code generation as a specification: `Direct` lays code out with its jump targets known
  in advance, `Gen` is the backpatching scheme of src/c/capfilter.c, and `BackpatchIsDirect`
  says that the two agree. Positions are relative to the start of a subtree's code, since
  BPF jumps are relative too.
 */
module Codegen {
  import opened Words
  import opened Bpf
  import opened CapAst

  const LD_W_ABS: u16 := 0x20
  const LD_H_ABS: u16 := 0x28
  const LD_B_ABS: u16 := 0x30
  const LD_H_IND: u16 := 0x48
  const LDX_B_MSH: u16 := 0xb1
  const ALU_AND_K: u16 := 0x54
  const JMP_JEQ_K: u16 := 0x15
  const RET_K: u16 := 0x06

  const ACCEPT_LEN: u32 := 65535

  // ----- leaves -----

  lemma AddrBound(addr: Addr)
    ensures BigEndian(addr) < TWO32
  {
    BigEndianBound(addr);
    WideBound(4);
  }

  /** addr_to_u32 */
  function AddrToU32(addr: Addr): u32 {
    AddrBound(addr);
    BigEndian(addr)
  }

  /** prefix_mask: a left shift of all ones, as multiplication modulo 2^32 */
  function PrefixMask(p: u8): u32 {
    if p == 0 then 0
    else if p >= 32 then 0xFFFF_FFFF
    else 0xFFFF_FFFF * Pow2(32 - p) % TWO32
  }

  lemma PrefixMaskValue(p: u8)
    ensures PrefixMask(p) == TWO32 - Pow2(FreeBits(p))
  {
    Pow2Of32();
    assert Pow2(0) == 1;
    if 0 < p < 32 {
      var s := 32 - p;
      Pow2Monotone(s, 31);
      assert Pow2(32) == 2 * Pow2(31);
      assert 0xFFFF_FFFF * Pow2(s) == (Pow2(s) - 1) * TWO32 + (TWO32 - Pow2(s));
      DivUnique(0xFFFF_FFFF * Pow2(s), TWO32, Pow2(s) - 1, TWO32 - Pow2(s));
    }
  }

  /** The masked comparison holds exactly when the leading bits agree. */
  lemma MaskedCompare(v: u32, w: u32, p: u8)
    ensures BitAnd(v, PrefixMask(p)) == BitAnd(w, PrefixMask(p)) <==> SamePrefix(v, w, FreeBits(p))
  {
    PrefixMaskValue(p);
    Pow2Of32();
    var d := Pow2(FreeBits(p));
    BitAndMask(v, 32, FreeBits(p));
    BitAndMask(w, 32, FreeBits(p));
    if v / d * d == w / d * d {
      assert v / d == w / d by {
        DivUnique(v / d * d, d, v / d, 0);
        DivUnique(w / d * d, d, w / d, 0);
      }
    }
  }

  /** The instructions that bring a leaf's field into A. */
  function Loads(leaf: Leaf): (s: seq<Insn>)
    ensures |s| == 1 || |s| == 2
  {
    match leaf
    case EtherType(_) => [Insn(LD_H_ABS, 0, 0, OFF_ETHERTYPE)]
    case IpProto(_) => [Insn(LD_B_ABS, 0, 0, OFF_IP_PROTO)]
    case Host(dir, _) => [Insn(LD_W_ABS, 0, 0, AddrOffset(dir))]
    case Net(dir, _, p) => [Insn(LD_W_ABS, 0, 0, AddrOffset(dir)), Insn(ALU_AND_K, 0, 0, PrefixMask(p))]
    case Port(dir, _) =>
      [Insn(LDX_B_MSH, 0, 0, OFF_IP_IHL_BYTE),
       Insn(LD_H_IND, 0, 0, if dir == Src then OFF_IP_IHL_BYTE else OFF_IP_IHL_BYTE + 2)]
  }

  /** The constant a leaf's field is compared against. */
  function Operand(leaf: Leaf): u32
  {
    match leaf
    case EtherType(k) => k
    case IpProto(k) => k
    case Host(_, addr) => AddrToU32(addr)
    case Net(_, addr, p) => BitAnd(AddrToU32(addr), PrefixMask(p))
    case Port(_, k) => k
  }

  function Len(n: Node): (r: nat)
    ensures r >= 2
  {
    match n
    case And(l, r) => Len(l) + Len(r)
    case Or(l, r) => Len(l) + Len(r)
    case Not(l) => Len(l)
    case Test(leaf) => |Loads(leaf)| + 1
  }

  lemma {:induction false} LenBound(n: Node)
    ensures 2 * n.Leaves() <= Len(n) <= 3 * n.Leaves()
  {
    match n
    case And(l, r) => LenBound(l); LenBound(r);
    case Or(l, r) => LenBound(l); LenBound(r);
    case Not(l) => LenBound(l);
    case Test(_) =>
  }

  // ----- direct code, with the targets known -----

  /** Every jump of n's code, given where true and false lead, spans at most 255 instructions. */
  predicate Fits(n: Node, pcT: nat, pcF: nat)
    requires pcT >= Len(n) && pcF >= Len(n)
  {
    match n
    case And(l, r) => Fits(l, Len(l), pcF) && Fits(r, pcT - Len(l), pcF - Len(l))
    case Or(l, r) => Fits(l, pcT, Len(l)) && Fits(r, pcT - Len(l), pcF - Len(l))
    case Not(l) => Fits(l, pcF, pcT)
    case Test(_) => pcT - Len(n) <= 255 && pcF - Len(n) <= 255
  }

  /** Code laid out with both targets known; None when some jump is too far. */
  function Direct(n: Node, pcT: nat, pcF: nat): (code: Option<seq<Insn>>)
    requires pcT >= Len(n) && pcF >= Len(n)
    ensures code.Some? <==> Fits(n, pcT, pcF)
    ensures code.Some? ==> |code.value| == Len(n)
  {
    match n
    case And(l, r) => Join(Direct(l, Len(l), pcF), Direct(r, pcT - Len(l), pcF - Len(l)))
    case Or(l, r) => Join(Direct(l, pcT, Len(l)), Direct(r, pcT - Len(l), pcF - Len(l)))
    case Not(l) => Direct(l, pcF, pcT)
    case Test(leaf) =>
      var t, f := pcT - Len(n), pcF - Len(n);
      if t > 255 || f > 255 then None
      else Some(Loads(leaf) + [Insn(JMP_JEQ_K, t, f, Operand(leaf))])
  }

  function Join(a: Option<seq<Insn>>, b: Option<seq<Insn>>): Option<seq<Insn>> {
    if a.Some? && b.Some? then Some(a.value + b.value) else None
  }

  // ----- backpatching -----

  /** One pending jump: an instruction and which of its two fields awaits a target. */
  datatype Patch = Patch(idx: nat, isJt: bool)

  /** pl_resolve's overflow check */
  predicate InRange(ps: seq<Patch>, target: int) {
    forall i | 0 <= i < |ps| :: 0 <= target - (ps[i].idx + 1) <= 255
  }

  predicate Within(ps: seq<Patch>, n: nat) {
    forall i | 0 <= i < |ps| :: ps[i].idx < n
  }

  function PatchOne(s: seq<Insn>, p: Patch, target: int): (r: seq<Insn>)
    requires p.idx < |s| && 0 <= target - (p.idx + 1) <= 255
    ensures |r| == |s|
  {
    var off := target - (p.idx + 1);
    s[p.idx := if p.isJt then s[p.idx].(jt := off) else s[p.idx].(jf := off)]
  }

  /** pl_resolve: point every pending jump at `target`. */
  function PatchAll(s: seq<Insn>, ps: seq<Patch>, target: int): (r: seq<Insn>)
    requires Within(ps, |s|) && InRange(ps, target)
    ensures |r| == |s|
  {
    if ps == [] then s
    else PatchOne(PatchAll(s, ps[..|ps| - 1], target), ps[|ps| - 1], target)
  }

  function Shift(ps: seq<Patch>, d: nat): (r: seq<Patch>)
    ensures |r| == |ps|
  {
    seq(|ps|, i requires 0 <= i < |ps| => Patch(ps[i].idx + d, ps[i].isJt))
  }

  /** Generated code with its pending true and false jumps. */
  datatype Code = Code(insns: seq<Insn>, t: seq<Patch>, f: seq<Patch>) {
    predicate Sound() {
      Within(t, |insns|) && Within(f, |insns|)
    }

    /** Negation: exchange the roles of the two lists. */
    function Swap(): Code {
      Code(insns, f, t)
    }

    /** Conjunction: fall from this code's true exits into `next`; the false exits stay pending. */
    function Then(next: Code): (r: Option<Code>)
      requires Sound() && next.Sound()
      ensures r.Some? ==> r.value.Sound() && |r.value.insns| == |insns| + |next.insns|
    {
      var k := |insns|;
      if !InRange(t, k) then None
      else Some(Code(PatchAll(insns, t, k) + next.insns, Shift(next.t, k), f + Shift(next.f, k)))
    }

    predicate Resolvable(pcT: int, pcF: int) {
      InRange(t, pcT) && InRange(f, pcF)
    }

    function TrueFirst(pcT: int, pcF: int): seq<Insn>
      requires Sound() && Resolvable(pcT, pcF)
    {
      PatchAll(PatchAll(insns, t, pcT), f, pcF)
    }

    function FalseFirst(pcT: int, pcF: int): seq<Insn>
      requires Sound() && Resolvable(pcT, pcF)
    {
      PatchAll(PatchAll(insns, f, pcF), t, pcT)
    }
  }

  function Swapped(c: Option<Code>): Option<Code> {
    if c.Some? then Some(c.value.Swap()) else None
  }

  function ThenBoth(cl: Option<Code>, cr: Option<Code>): Option<Code>
    requires (cl.Some? ==> cl.value.Sound()) && (cr.Some? ==> cr.value.Sound())
  {
    if cl.Some? && cr.Some? then cl.value.Then(cr.value) else None
  }

  /** compile_node; None when a jump is out of range. Disjunction is the dual of conjunction. */
  function Gen(n: Node): (r: Option<Code>)
    ensures r.Some? ==> r.value.Sound() && |r.value.insns| == Len(n)
    ensures r.Some? ==> |r.value.t| <= n.Leaves() && |r.value.f| <= n.Leaves()
  {
    match n
    case Not(l) => Swapped(Gen(l))
    case And(l, r) => ThenBoth(Gen(l), Gen(r))
    case Or(l, r) => Swapped(ThenBoth(Swapped(Gen(l)), Swapped(Gen(r))))
    case Test(leaf) =>
      var j := |Loads(leaf)|;
      Some(Code(Loads(leaf) + [Insn(JMP_JEQ_K, 0, 0, Operand(leaf))], [Patch(j, true)], [Patch(j, false)]))
  }

  lemma {:induction false} PatchAppend(s: seq<Insn>, ps: seq<Patch>, qs: seq<Patch>, target: int)
    requires Within(ps + qs, |s|) && InRange(ps + qs, target)
    ensures Within(ps, |s|) && InRange(ps, target) && Within(qs, |s|) && InRange(qs, target)
    ensures PatchAll(s, ps + qs, target) == PatchAll(PatchAll(s, ps, target), qs, target)
  {
    WithinParts(ps, qs, |s|);
    AppendRange(ps, qs, target);
    if qs == [] {
      assert ps + qs == ps;
    } else {
      var k := |qs| - 1;
      assert (ps + qs)[..|ps + qs| - 1] == ps + qs[..k];
      PatchAppend(s, ps, qs[..k], target);
    }
  }

  /** Patches into the front part leave the back part alone. */
  lemma {:induction false} PatchFront(s: seq<Insn>, u: seq<Insn>, ps: seq<Patch>, target: int)
    requires Within(ps, |s|) && InRange(ps, target)
    ensures Within(ps, |s + u|)
    ensures PatchAll(s + u, ps, target) == PatchAll(s, ps, target) + u
  {
    if ps != [] { PatchFront(s, u, ps[..|ps| - 1], target); }
  }

  lemma PatchOneBack(s: seq<Insn>, u: seq<Insn>, p: Patch, target: int)
    requires p.idx < |u| && 0 <= target - (p.idx + 1) <= 255
    ensures PatchOne(s + u, Patch(p.idx + |s|, p.isJt), target + |s|) == s + PatchOne(u, p, target)
  {
    assert (s + u)[p.idx + |s|] == u[p.idx];
  }

  lemma ShiftSnoc(ps: seq<Patch>, d: nat)
    requires ps != []
    ensures Shift(ps, d)[..|ps| - 1] == Shift(ps[..|ps| - 1], d)
  {
  }

  /** Patches into the back part are the back part's own, moved along. */
  lemma {:induction false} PatchBack(s: seq<Insn>, u: seq<Insn>, ps: seq<Patch>, target: int)
    requires Within(ps, |u|) && InRange(ps, target)
    ensures Within(Shift(ps, |s|), |s + u|) && InRange(Shift(ps, |s|), target + |s|)
    ensures PatchAll(s + u, Shift(ps, |s|), target + |s|) == s + PatchAll(u, ps, target)
  {
    ShiftRange(ps, |s|, target);
    if ps != [] {
      var k := |ps| - 1;
      ShiftSnoc(ps, |s|);
      PatchBack(s, u, ps[..k], target);
      var v := PatchAll(u, ps[..k], target);
      hide Shift;
      hide InRange;
      calc {
        PatchAll(s + u, Shift(ps, |s|), target + |s|);
        PatchOne(s + v, Patch(ps[k].idx + |s|, ps[k].isJt), target + |s|);
        { PatchOneBack(s, v, ps[k], target); }
        s + PatchOne(v, ps[k], target);
        s + PatchAll(u, ps, target);
      }
    }
  }

  lemma ShiftRange(ps: seq<Patch>, d: nat, target: int)
    ensures InRange(Shift(ps, d), target + d) <==> InRange(ps, target)
  {
    if InRange(Shift(ps, d), target + d) {
      forall i | 0 <= i < |ps| ensures 0 <= target - (ps[i].idx + 1) <= 255 {
        assert Shift(ps, d)[i].idx == ps[i].idx + d;
      }
    }
  }

  lemma AppendRange(ps: seq<Patch>, qs: seq<Patch>, target: int)
    ensures InRange(ps + qs, target) <==> InRange(ps, target) && InRange(qs, target)
  {
    if InRange(ps + qs, target) {
      assert forall i | 0 <= i < |ps| :: (ps + qs)[i] == ps[i];
      assert forall i | 0 <= i < |qs| :: (ps + qs)[|ps| + i] == qs[i];
    }
  }

  lemma WithinParts(ps: seq<Patch>, qs: seq<Patch>, n: nat)
    requires Within(ps + qs, n)
    ensures Within(ps, n) && Within(qs, n)
  {
    assert forall i | 0 <= i < |ps| :: (ps + qs)[i] == ps[i];
    assert forall i | 0 <= i < |qs| :: (ps + qs)[|ps| + i] == qs[i];
  }

  /** Appending one subtree's code to another's: each half is patched on its own. */
  lemma PatchBoth(s: seq<Insn>, u: seq<Insn>, ps: seq<Patch>, qs: seq<Patch>, target: nat)
    requires Within(ps, |s|) && Within(qs, |u|)
    requires target >= |s| && InRange(ps, target) && InRange(qs, target - |s|)
    ensures Within(ps + Shift(qs, |s|), |s + u|) && InRange(ps + Shift(qs, |s|), target)
    ensures PatchAll(s + u, ps + Shift(qs, |s|), target)
         == PatchAll(s, ps, target) + PatchAll(u, qs, target - |s|)
  {
    ShiftRange(qs, |s|, target - |s|);
    AppendRange(ps, Shift(qs, |s|), target);
    PatchAppend(s + u, ps, Shift(qs, |s|), target);
    PatchFront(s, u, ps, target);
    PatchBack(PatchAll(s, ps, target), u, qs, target - |s|);
  }

  lemma PatchSingle(s: seq<Insn>, p: Patch, target: int)
    requires p.idx < |s| && 0 <= target - (p.idx + 1) <= 255
    ensures PatchAll(s, [p], target) == PatchOne(s, p, target)
  {
    assert [p][..0] == [];
    assert PatchAll(s, [p][..0], target) == s;
  }

  /** Chained code resolves exactly when both parts do ... */
  lemma ThenResolvable(cl: Code, cr: Code, pcT: nat, pcF: nat)
    requires cl.Sound() && cr.Sound()
    requires pcT >= |cl.insns| && pcF >= |cl.insns|
    ensures cl.Then(cr).Some? && cl.Then(cr).value.Resolvable(pcT, pcF)
       <==> cl.Resolvable(|cl.insns|, pcF) && cr.Resolvable(pcT - |cl.insns|, pcF - |cl.insns|)
  {
    var k := |cl.insns|;
    ShiftRange(cr.t, k, pcT - k);
    ShiftRange(cr.f, k, pcF - k);
    AppendRange(cl.f, Shift(cr.f, k), pcF);
  }

  /** ... and then each part is patched by itself. */
  lemma ThenPatched(cl: Code, cr: Code, pcT: nat, pcF: nat)
    requires cl.Sound() && cr.Sound()
    requires pcT >= |cl.insns| && pcF >= |cl.insns|
    requires cl.Resolvable(|cl.insns|, pcF) && cr.Resolvable(pcT - |cl.insns|, pcF - |cl.insns|)
    ensures cl.Then(cr).Some? && cl.Then(cr).value.Resolvable(pcT, pcF)
    ensures cl.Then(cr).value.TrueFirst(pcT, pcF)
         == cl.TrueFirst(|cl.insns|, pcF) + cr.TrueFirst(pcT - |cl.insns|, pcF - |cl.insns|)
    ensures cl.Then(cr).value.FalseFirst(pcT, pcF)
         == cl.TrueFirst(|cl.insns|, pcF) + cr.FalseFirst(pcT - |cl.insns|, pcF - |cl.insns|)
  {
    ThenResolvable(cl, cr, pcT, pcF);
    var s := PatchAll(cl.insns, cl.t, |cl.insns|);
    PatchHalves(s, cr.insns, cl.f, cr.f, cr.t, pcF, pcT);
    PatchHalvesReversed(s, cr.insns, cl.f, cr.f, cr.t, pcF, pcT);
  }

  // Code s followed by code u, with jumps `early` of s and `later` of u bound for pcA and
  // jumps `other` of u bound for pcB: in both patching orders the halves stay separate.

  lemma PatchHalves(s: seq<Insn>, u: seq<Insn>, early: seq<Patch>, later: seq<Patch>,
                    other: seq<Patch>, pcA: nat, pcB: nat)
    requires pcA >= |s| && pcB >= |s|
    requires Within(early, |s|) && Within(later, |u|) && Within(other, |u|)
    requires InRange(early, pcA) && InRange(later, pcA - |s|) && InRange(other, pcB - |s|)
    ensures Within(early + Shift(later, |s|), |s + u|) && Within(Shift(other, |s|), |s + u|)
    ensures InRange(early + Shift(later, |s|), pcA) && InRange(Shift(other, |s|), pcB)
    ensures PatchAll(PatchAll(s + u, Shift(other, |s|), pcB), early + Shift(later, |s|), pcA)
         == PatchAll(s, early, pcA) + PatchAll(PatchAll(u, other, pcB - |s|), later, pcA - |s|)
  {
    hide PatchAll;
    PatchBack(s, u, other, pcB - |s|);
    PatchBoth(s, PatchAll(u, other, pcB - |s|), early, later, pcA);
  }

  lemma PatchHalvesReversed(s: seq<Insn>, u: seq<Insn>, early: seq<Patch>, later: seq<Patch>,
                            other: seq<Patch>, pcA: nat, pcB: nat)
    requires pcA >= |s| && pcB >= |s|
    requires Within(early, |s|) && Within(later, |u|) && Within(other, |u|)
    requires InRange(early, pcA) && InRange(later, pcA - |s|) && InRange(other, pcB - |s|)
    ensures Within(early + Shift(later, |s|), |s + u|) && Within(Shift(other, |s|), |s + u|)
    ensures InRange(early + Shift(later, |s|), pcA) && InRange(Shift(other, |s|), pcB)
    ensures PatchAll(PatchAll(s + u, early + Shift(later, |s|), pcA), Shift(other, |s|), pcB)
         == PatchAll(s, early, pcA) + PatchAll(PatchAll(u, later, pcA - |s|), other, pcB - |s|)
  {
    hide PatchAll;
    PatchBoth(s, u, early, later, pcA);
    PatchBack(PatchAll(s, early, pcA), PatchAll(u, later, pcA - |s|), other, pcB - |s|);
  }

  /**
    Backpatched code c stands for the direct code d: its pending jumps can be resolved exactly
    when d exists, and then, in whichever order the two lists are resolved, they give d.
   */
  predicate Realizes(c: Option<Code>, d: Option<seq<Insn>>, pcT: int, pcF: int) {
    && (c.Some? ==> c.value.Sound())
    && (d.Some? <==> c.Some? && c.value.Resolvable(pcT, pcF))
    && (d.Some? ==> c.value.TrueFirst(pcT, pcF) == d.value && c.value.FalseFirst(pcT, pcF) == d.value)
  }

  lemma ThenRealizes(cl: Option<Code>, cr: Option<Code>, dl: Option<seq<Insn>>, dr: Option<seq<Insn>>,
                     k: nat, pcT: nat, pcF: nat)
    requires pcT >= k && pcF >= k && (cl.Some? ==> |cl.value.insns| == k)
    requires Realizes(cl, dl, k, pcF) && Realizes(cr, dr, pcT - k, pcF - k)
    ensures Realizes(ThenBoth(cl, cr), Join(dl, dr), pcT, pcF)
  {
    if cl.Some? && cr.Some? {
      ThenResolvable(cl.value, cr.value, pcT, pcF);
      if dl.Some? && dr.Some? {
        ThenPatched(cl.value, cr.value, pcT, pcF);
      }
    }
  }

  lemma SwapRealizes(c: Option<Code>, d: Option<seq<Insn>>, pcT: int, pcF: int)
    requires Realizes(c, d, pcT, pcF)
    ensures Realizes(Swapped(c), d, pcF, pcT)
  {
  }

  lemma OrRealizes(cl: Option<Code>, cr: Option<Code>, dl: Option<seq<Insn>>, dr: Option<seq<Insn>>,
                   k: nat, pcT: nat, pcF: nat)
    requires pcT >= k && pcF >= k && (cl.Some? ==> |cl.value.insns| == k)
    requires Realizes(cl, dl, pcT, k) && Realizes(cr, dr, pcT - k, pcF - k)
    ensures Realizes(Swapped(ThenBoth(Swapped(cl), Swapped(cr))), Join(dl, dr), pcT, pcF)
  {
    SwapRealizes(cl, dl, pcT, k);
    SwapRealizes(cr, dr, pcT - k, pcF - k);
    ThenRealizes(Swapped(cl), Swapped(cr), dl, dr, k, pcF, pcT);
    SwapRealizes(ThenBoth(Swapped(cl), Swapped(cr)), Join(dl, dr), pcF, pcT);
  }

  /** Backpatching is correct: the generated code, once resolved, is the direct code. */
  lemma {:induction false} BackpatchIsDirect(n: Node, pcT: nat, pcF: nat)
    requires pcT >= Len(n) && pcF >= Len(n)
    ensures Realizes(Gen(n), Direct(n, pcT, pcF), pcT, pcF)
  {
    match n
    case Test(leaf) => BackpatchLeaf(leaf, pcT, pcF);
    case Not(l) =>
      BackpatchIsDirect(l, pcF, pcT);
      SwapRealizes(Gen(l), Direct(l, pcF, pcT), pcF, pcT);
    case And(l, r) => BackpatchAnd(l, r, pcT, pcF);
    case Or(l, r) => BackpatchOr(l, r, pcT, pcF);
  }

  lemma {:induction false} BackpatchAnd(l: Node, r: Node, pcT: nat, pcF: nat)
    requires pcT >= Len(l) + Len(r) && pcF >= Len(l) + Len(r)
    ensures Realizes(Gen(And(l, r)), Direct(And(l, r), pcT, pcF), pcT, pcF)
    decreases And(l, r), 0
  {
    hide PatchAll, InRange, Within;
    var k := Len(l);
    BackpatchIsDirect(l, k, pcF);
    BackpatchIsDirect(r, pcT - k, pcF - k);
    ThenRealizes(Gen(l), Gen(r), Direct(l, k, pcF), Direct(r, pcT - k, pcF - k), k, pcT, pcF);
  }

  lemma {:induction false} BackpatchOr(l: Node, r: Node, pcT: nat, pcF: nat)
    requires pcT >= Len(l) + Len(r) && pcF >= Len(l) + Len(r)
    ensures Realizes(Gen(Or(l, r)), Direct(Or(l, r), pcT, pcF), pcT, pcF)
    decreases Or(l, r), 0
  {
    hide PatchAll, InRange, Within;
    var k := Len(l);
    BackpatchIsDirect(l, pcT, k);
    BackpatchIsDirect(r, pcT - k, pcF - k);
    OrRealizes(Gen(l), Gen(r), Direct(l, pcT, k), Direct(r, pcT - k, pcF - k), k, pcT, pcF);
  }

  lemma BackpatchLeaf(leaf: Leaf, pcT: nat, pcF: nat)
    requires pcT >= Len(Test(leaf)) && pcF >= Len(Test(leaf))
    ensures Realizes(Gen(Test(leaf)), Direct(Test(leaf), pcT, pcF), pcT, pcF)
  {
    var c := Gen(Test(leaf)).value;
    assert c.t[0].idx + 1 == Len(Test(leaf)) == c.f[0].idx + 1;
    if Fits(Test(leaf), pcT, pcF) {
      PatchSingle(c.insns, c.t[0], pcT);
      PatchSingle(PatchOne(c.insns, c.t[0], pcT), c.f[0], pcF);
      PatchSingle(c.insns, c.f[0], pcF);
      PatchSingle(PatchOne(c.insns, c.f[0], pcF), c.t[0], pcT);
    }
  }
}
