/**
  The classic BPF machine: instruction words and the interpreter that gives a
  compiled capture filter its meaning (src/tests/bpf_interp.c).
 */
module Bpf {
  import opened Words

  // Opcode fields of linux/filter.h.
  const LD: u16 := 0x00
  const LDX: u16 := 0x01
  const ALU: u16 := 0x04
  const JMP: u16 := 0x05
  const RET: u16 := 0x06

  const W: u16 := 0x00
  const H: u16 := 0x08
  const B: u16 := 0x10

  const ABS: u16 := 0x20
  const IND: u16 := 0x40
  const MSH: u16 := 0xa0

  const AND: u16 := 0x50
  const JEQ: u16 := 0x10

  function Class(code: u16): u16 { code % 0x08 }
  function Size(code: u16): u16 { code / 0x08 % 0x04 * 0x08 }
  function Mode(code: u16): u16 { code / 0x20 % 0x08 * 0x20 }
  function Op(code: u16): u16 { code / 0x10 % 0x10 * 0x10 }

  /** struct sock_filter */
  datatype Insn = Insn(code: u16, jt: u8, jf: u8, k: u32)

  type Packet = s: seq<u8> | |s| < TWO32

  /** A load yields a word, is refused, or (after offset wrap-around) reads outside the buffer. */
  datatype Load = Loaded(v: u32) | Refused | Wild

  /** What bpf_interp_run returns; WildRead marks the out-of-buffer read that C leaves undefined. */
  datatype Verdict = Returned(k: u32) | WildRead

  const REJECT := Returned(0)

  function LoadSpec(pkt: Packet, off: u32, width: int): (r: Load)
    requires width == 1 || width == 2 || width == 4
  {
    if (off + width) % TWO32 > |pkt| then Refused
    else if off + width > |pkt| then Wild
    else
      assert Pow256(1) == 0x100 && Pow256(2) == 0x1_0000 && Pow256(4) == 0x100 * (0x100 * Pow256(2));
      BigEndianBound(pkt[off..off + width]);
      Loaded(BigEndian(pkt[off..off + width]))
  }

  /** load_u */
  method LoadU(pkt: Packet, off: u32, width: int) returns (r: Load)
    requires width == 1 || width == 2 || width == 4
    ensures r == LoadSpec(pkt, off, width)
  {
    if (off + width) % TWO32 > |pkt| {
      return Refused;
    }
    if off + width > |pkt| {
      return Wild;
    }
    var v: u32 := 0;
    for i := 0 to width
      invariant v == BigEndian(pkt[off..off + i])
    {
      ghost var done := pkt[off..off + i + 1];
      assert done[..i] == pkt[off..off + i];
      assert BigEndian(done) == v * 0x100 + pkt[off + i];
      BigEndianBound(done);
      WideBound(i + 1);
      v := (v * 0x100 + pkt[off + i]) % TWO32;
    }
    return Loaded(v);
  }

  lemma WideBound(n: nat)
    requires n <= 4
    ensures Pow256(n) <= TWO32
  {
    assert Pow256(4) == 0x100 * Pow256(3) && Pow256(3) == 0x100 * Pow256(2);
    assert Pow256(2) == 0x100 * Pow256(1) && Pow256(1) == 0x100;
  }

  datatype Machine = Machine(a: u32, x: u32, pc: nat)

  datatype StepResult = Next(m: Machine) | Halt(v: Verdict)

  function Width(code: u16): int {
    if Size(code) == W then 4 else if Size(code) == H then 2 else 1
  }

  /** One turn of the interpreter loop on the instruction at m.pc. */
  function Step(prog: seq<Insn>, pkt: Packet, m: Machine): (r: StepResult)
    requires m.pc < |prog|
    ensures r.Next? ==> r.m.pc > m.pc
  {
    var f := prog[m.pc];
    var cls := Class(f.code);
    if cls == LD || cls == LDX then
      if Mode(f.code) == MSH then
        match LoadSpec(pkt, f.k, 1)
        case Loaded(v) => Next(m.(x := v % 0x10 * 4, pc := m.pc + 1))
        case Refused => Halt(REJECT)
        case Wild => Halt(WildRead)
      else if Mode(f.code) == ABS || Mode(f.code) == IND then
        var off := if Mode(f.code) == ABS then f.k else (f.k + m.x) % TWO32;
        match LoadSpec(pkt, off, Width(f.code))
        case Loaded(v) =>
          Next(if cls == LD then m.(a := v, pc := m.pc + 1) else m.(x := v, pc := m.pc + 1))
        case Refused => Halt(REJECT)
        case Wild => Halt(WildRead)
      else Halt(REJECT)
    else if cls == ALU then
      Next(m.(a := if Op(f.code) == AND then BitAnd(m.a, f.k) else m.a, pc := m.pc + 1))
    else if cls == JMP then
      if Op(f.code) == JEQ then
        Next(m.(pc := m.pc + 1 + if m.a == f.k then f.jt as int else f.jf as int))
      else Halt(REJECT)
    else if cls == RET then Halt(Returned(f.k))
    else Halt(REJECT)
  }

  const STEP_LIMIT := 10000

  /** The interpreter loop with its step guard. */
  function Guarded(prog: seq<Insn>, pkt: Packet, m: Machine, steps: nat): Verdict
    requires steps <= STEP_LIMIT
    decreases STEP_LIMIT - steps
  {
    if m.pc >= |prog| then REJECT
    else if steps + 1 > STEP_LIMIT then REJECT
    else match Step(prog, pkt, m)
      case Halt(v) => v
      case Next(m') => Guarded(prog, pkt, m', steps + 1)
  }

  /** The same loop without the guard: every step moves forward, so it stops by itself. */
  function Eval(prog: seq<Insn>, pkt: Packet, m: Machine): Verdict
    decreases |prog| - m.pc
  {
    if m.pc >= |prog| then REJECT
    else match Step(prog, pkt, m)
      case Halt(v) => v
      case Next(m') => Eval(prog, pkt, m')
  }

  /** The number of loop turns Eval takes. */
  function StepsTaken(prog: seq<Insn>, pkt: Packet, m: Machine): nat
    decreases |prog| - m.pc
  {
    if m.pc >= |prog| then 0
    else match Step(prog, pkt, m)
      case Halt(v) => 1
      case Next(m') => 1 + StepsTaken(prog, pkt, m')
  }

  /** A run takes at most one step per remaining instruction, so the guard never fires in time. */
  lemma {:induction false} GuardUnreachable(prog: seq<Insn>, pkt: Packet, m: Machine, steps: nat)
    requires m.pc <= |prog| ==> steps + |prog| - m.pc <= STEP_LIMIT
    requires steps <= STEP_LIMIT
    ensures Guarded(prog, pkt, m, steps) == Eval(prog, pkt, m)
    ensures m.pc <= |prog| ==> StepsTaken(prog, pkt, m) <= |prog| - m.pc
    decreases |prog| - m.pc
  {
    if m.pc < |prog| && Step(prog, pkt, m).Next? {
      var m' := Step(prog, pkt, m).m;
      GuardUnreachable(prog, pkt, m', steps + 1);
    }
  }

  /** An opcode is read by its bits, and every code that is not listed rejects the packet. */
  lemma StepByOpcode(prog: seq<Insn>, pkt: Packet, m: Machine)
    requires m.pc < |prog|
    ensures var f := prog[m.pc];
            var kind, mode, op := f.code % 8, f.code / 0x20 % 8, f.code / 0x10 % 0x10;
            var r := Step(prog, pkt, m);
            && (kind == 6 ==> r == Halt(Returned(f.k)))
            && (kind == 5 ==> r == if op != 1 then Halt(Returned(0))
                                    else Next(m.(pc := m.pc + 1 + (if m.a == f.k then f.jt as int else f.jf as int))))
            && (kind == 4 ==> r == Next(m.(a := if op == 5 then BitAnd(m.a, f.k) else m.a, pc := m.pc + 1)))
            && (kind == 2 || kind == 3 || kind == 7 ==> r == Halt(Returned(0)))
            && (kind <= 1 && mode != 1 && mode != 2 && mode != 5 ==> r == Halt(Returned(0)))
  {
  }

  const EMPTY_ACCEPT := Returned(0xFFFF)

  function Run(prog: seq<Insn>, pkt: Packet): Verdict {
    if prog == [] then EMPTY_ACCEPT else Guarded(prog, pkt, Machine(0, 0, 0), 0)
  }

  lemma {:induction false} GuardedExactly(prog: seq<Insn>, pkt: Packet, m: Machine, steps: nat)
    requires steps <= STEP_LIMIT
    ensures Guarded(prog, pkt, m, steps)
         == if steps + StepsTaken(prog, pkt, m) <= 10000 then Eval(prog, pkt, m) else Returned(0)
    decreases |prog| - m.pc
  {
    hide LoadSpec, BitAnd;
    if m.pc < |prog| && steps < STEP_LIMIT && Step(prog, pkt, m).Next? {
      GuardedExactly(prog, pkt, Step(prog, pkt, m).m, steps + 1);
    }
  }

  /** An empty program accepts; any other gives its verdict, unless that takes more than 10000 steps. */
  lemma RunExactly(prog: seq<Insn>, pkt: Packet)
    ensures Run(prog, pkt)
         == if |prog| == 0 then Returned(65535)
            else if StepsTaken(prog, pkt, Machine(0, 0, 0)) <= 10000 then Eval(prog, pkt, Machine(0, 0, 0))
            else Returned(0)
  {
    GuardedExactly(prog, pkt, Machine(0, 0, 0), 0);
  }

  /** bpf_interp_run */
  method BpfInterpRun(prog: seq<Insn>, pkt: Packet) returns (r: Verdict)
    ensures r == Run(prog, pkt)
  {
    hide LoadSpec, BitAnd;
    if prog == [] {
      return EMPTY_ACCEPT;
    }
    var a: u32, x: u32 := 0, 0;
    var pc: nat := 0;
    var steps: nat := 0;
    while pc < |prog|
      invariant steps <= STEP_LIMIT
      invariant Run(prog, pkt) == Guarded(prog, pkt, Machine(a, x, pc), steps)
      decreases STEP_LIMIT - steps
    {
      steps := steps + 1;
      if steps > STEP_LIMIT {
        return REJECT;
      }
      var f := prog[pc];
      var cls := Class(f.code);
      if cls == LD || cls == LDX {
        var mode := Mode(f.code);
        var off: u32;
        if mode == ABS {
          off := f.k;
        } else if mode == IND {
          off := (f.k + x) % TWO32;
        } else if mode == MSH {
          var b := LoadU(pkt, f.k, 1);
          match b {
            case Refused => return REJECT;
            case Wild => return WildRead;
            case Loaded(v) => x := v % 0x10 * 4;
          }
          pc := pc + 1;
          continue;
        } else {
          return REJECT;
        }
        var w := LoadU(pkt, off, Width(f.code));
        match w {
          case Refused => return REJECT;
          case Wild => return WildRead;
          case Loaded(v) =>
            if cls == LD {
              a := v;
            } else {
              x := v;
            }
        }
        pc := pc + 1;
        continue;
      }
      if cls == ALU {
        if Op(f.code) == AND {
          a := BitAnd(a, f.k);
        }
        pc := pc + 1;
        continue;
      }
      if cls == JMP {
        if Op(f.code) != JEQ {
          return REJECT;
        }
        pc := pc + 1 + if a == f.k then f.jt as int else f.jf as int;
        continue;
      }
      if cls == RET {
        return Returned(f.k);
      }
      return REJECT;
    }
    return REJECT;
  }
}
