/**
  The capture with a filter attached (src/c/capture_backend_linux.c, run_impl). The ring is mapped
  before the program is attached, so the first packets in it may have passed no filter.
 */
module FilteredCapture {
  import opened Bpf
  import opened CapAst
  import opened Pipeline
  import opened Words
  import CapFilter
  import CapLanguage
  import Codegen
  import PipelineDrain
  import R = Ring
  import RingProtocol

  // ----- what the kernel keeps -----

  /** The verdict of an accepting program is also the number of bytes that are kept. */
  function Cut(wire: Packet): Packet {
    if |wire| <= Codegen.ACCEPT_LEN then wire else wire[..Codegen.ACCEPT_LEN]
  }

  /** With the program attached, a packet is stored only if it accepts the frame on the wire, and then cut. */
  ghost predicate KeptBy(program: seq<Insn>, data: seq<u8>) {
    exists wire: Packet :: Run(program, wire) == Returned(Codegen.ACCEPT_LEN) && data == Cut(wire)
  }

  /** The frame is what the kernel keeps of a frame on the wire of which the filter text is true. */
  ghost predicate Matches(text: string, f: R.CapturedFrame) {
    && CapFilter.FilterOf(text).Some?
    && exists wire: Packet ::
         Meaning(CapLanguage.Lowered(CapFilter.FilterOf(text).value), wire) == True && f.data == Cut(wire)
  }

  function ProgramOf(text: string): seq<Insn>
    requires CapFilter.CompileSpec(Some(text)).Program?
  {
    CapFilter.CompileSpec(Some(text)).insns
  }

  /** A received packet matches the text exactly when the program's kernel would have kept it. */
  lemma KeptExactly(text: string, p: R.Pkt)
    requires CapFilter.CompileSpec(Some(text)).Program?
    ensures Matches(text, R.Received(p)) <==> KeptBy(ProgramOf(text), p.data)
  {
    forall wire: Packet
      ensures CapFilter.FilterOf(text).Some?
      ensures Run(ProgramOf(text), wire) == Returned(Codegen.ACCEPT_LEN) <==>
              Meaning(CapLanguage.Lowered(CapFilter.FilterOf(text).value), wire) == True
    {
      CapFilter.CompiledTextCorrect(text, wire);
    }
    hide CapFilter.CompileSpec, CapFilter.FilterOf, Meaning, Run, ProgramOf;
    forall wire: Packet
      ensures R.Received(p).data == Cut(wire) <==> p.data == Cut(wire)
    {
      CutFits(p.data, wire);
    }
  }

  /** What is kept is never so long that the receive buffer cuts it again. */
  lemma CutFits(data: seq<u8>, wire: Packet)
    ensures R.Clipped(data) == Cut(wire) <==> data == Cut(wire)
  {
  }

  // ----- packets in the order of storing -----

  /** All but the first n packets were stored with the program attached. */
  ghost predicate FilteredFrom(program: seq<Insn>, retired: seq<seq<R.Pkt>>, n: nat) {
    forall k | n <= k < |R.AllPackets(retired)| :: KeptBy(program, R.AllPackets(retired)[k].data)
  }

  // ----- what is printed -----

  /** Printed frame number i is packet number i, as received. */
  lemma PrintedIsPacket(s0: Pipe, run: seq<Action>, i: nat)
    requires Init(s0) && LegalRun(s0, run) && i < |Exec(s0, run).threads.printed|
    ensures var s := Exec(s0, run);
            i < |R.AllPackets(s.ring.retired)| && s.threads.printed[i] == R.Received(R.AllPackets(s.ring.retired)[i])
  {
    hide Do, Legal, R.AllOf, R.AllPackets;
    EndToEnd(s0, run);
    RingProtocol.FramesArePackets(Exec(s0, run).ring.retired);
  }

  /**
    From the text on the command line to the terminal: with n packets stored before the program
    was attached, every printed frame from number n on matches the text.
   */
  lemma PrintedFramesMatch(text: string, s0: Pipe, run: seq<Action>, n: nat, i: nat)
    requires CapFilter.CompileSpec(Some(text)).Program? && Init(s0) && LegalRun(s0, run)
    requires FilteredFrom(ProgramOf(text), Exec(s0, run).ring.retired, n)
    requires n <= i < |Exec(s0, run).threads.printed|
    ensures Matches(text, Exec(s0, run).threads.printed[i])
  {
    hide CapFilter.CompileSpec, Matches, KeptBy, Do, Legal, R.AllPackets, ProgramOf;
    PrintedIsPacket(s0, run, i);
    KeptExactly(text, R.AllPackets(Exec(s0, run).ring.retired)[i]);
  }

  /** All printed frames match exactly when the program would have kept the early ones among them. */
  lemma AllMatchExactlyWhen(text: string, s0: Pipe, run: seq<Action>, n: nat)
    requires CapFilter.CompileSpec(Some(text)).Program? && Init(s0) && LegalRun(s0, run)
    requires FilteredFrom(ProgramOf(text), Exec(s0, run).ring.retired, n)
    ensures var s := Exec(s0, run);
            && |s.threads.printed| <= |R.AllPackets(s.ring.retired)|
            && ((forall i | 0 <= i < |s.threads.printed| :: Matches(text, s.threads.printed[i])) <==>
                (forall i | 0 <= i < |s.threads.printed| && i < n ::
                   KeptBy(ProgramOf(text), R.AllPackets(s.ring.retired)[i].data)))
  {
    hide CapFilter.CompileSpec, Matches, KeptBy, Do, Legal, R.AllPackets, ProgramOf;
    var s := Exec(s0, run);
    if |s.threads.printed| > 0 {
      PrintedIsPacket(s0, run, |s.threads.printed| - 1);
    }
    forall i | 0 <= i < |s.threads.printed|
      ensures Matches(text, s.threads.printed[i]) <==> KeptBy(ProgramOf(text), R.AllPackets(s.ring.retired)[i].data)
    {
      PrintedIsPacket(s0, run, i);
      KeptExactly(text, R.AllPackets(s.ring.retired)[i]);
    }
  }

  // ----- the gap between mapping and attaching -----

  /** A packet retired before the first call is printed, whatever the filter says of it. */
  lemma EarlyFrameIsPrinted(s0: Pipe, p: R.Pkt) returns (run: seq<Action>)
    requires Init(s0) && s0.threads.max >= 1 && !s0.ring.socket.stop
    ensures LegalRun(s0, run) && |run| > 0 && run[0].Outside? && run[0].move.Retire?
    ensures Exec(s0, run).ring.retired == [[p]] && Exec(s0, run).threads.printed == [R.Received(p)]
  {
    var retire := Outside(R.Retire(0, 1, [p], 0, map[0 := R.Header(p, 0)]));
    var s1 := Do(s0, retire);
    assert s1.ring.retired == [[p]];
    StepThen(s0, retire, []);
    var rest := PipelineDrain.PrintsEverything(s0, [retire]);
    StepThen(s0, retire, rest);
    run := [retire] + rest;
    OneBlock(p);
  }

  lemma StepThen(s: Pipe, a: Action, rest: seq<Action>)
    requires Legal(s, a) && LegalRun(Do(s, a), rest)
    ensures LegalRun(s, [a] + rest) && Exec(s, [a] + rest) == Exec(Do(s, a), rest)
    ensures rest == [] ==> [a] + rest == [a]
  {
    hide Do, Legal;
    var run := [a] + rest;
    assert run[1..] == rest;
  }

  lemma OneBlock(p: R.Pkt)
    ensures R.AllOf([[p]]) == [R.Received(p)] && R.AllPackets([[p]]) == [p]
  {
    var retired := [[p]];
    assert retired[..0] == [];
    assert R.AllOf(retired) == R.AllOf(retired[..0]) + R.Frames([p]);
    assert R.Frames([p]) == [R.Received(p)];
    assert R.AllPackets(retired) == R.AllPackets(retired[..0]) + [p];
  }

  /** No filter is true of an empty frame: its first load already fails. */
  lemma {:induction false} EmptyFrameAborts(n: Node)
    ensures Meaning(n, []) == Abort
  {
    match n
    case And(l, _) => EmptyFrameAborts(l);
    case Or(l, _) => EmptyFrameAborts(l);
    case Not(l) => EmptyFrameAborts(l);
    case Test(_) =>
  }

  lemma EmptyFrameIsNotKept(text: string)
    requires CapFilter.CompileSpec(Some(text)).Program?
    ensures !KeptBy(ProgramOf(text), [])
  {
    if KeptBy(ProgramOf(text), []) {
      var wire: Packet :| Run(ProgramOf(text), wire) == Returned(Codegen.ACCEPT_LEN) && [] == Cut(wire);
      assert wire == [];
      CapFilter.CompiledTextCorrect(text, wire);
      EmptyFrameAborts(CapLanguage.Lowered(CapFilter.FilterOf(text).value));
      assert false;
    }
  }

  /**
    So under every filter that compiles there is a run in which all but the first packet passed
    the filter, and a frame is printed that does not match it.
   */
  lemma GapPrintsUnmatched(text: string, s0: Pipe) returns (run: seq<Action>)
    requires CapFilter.CompileSpec(Some(text)).Program?
    requires Init(s0) && s0.threads.max >= 1 && !s0.ring.socket.stop
    ensures LegalRun(s0, run) && FilteredFrom(ProgramOf(text), Exec(s0, run).ring.retired, 1)
    ensures |Exec(s0, run).threads.printed| == 1 && !Matches(text, Exec(s0, run).threads.printed[0])
  {
    var p := R.Pkt([], 0, 0);
    run := EarlyFrameIsPrinted(s0, p);
    OneBlock(p);
    EmptyFrameIsNotKept(text);
    KeptExactly(text, p);
    hide CapFilter.CompileSpec, Matches, KeptBy, Do, Legal, LegalRun, ProgramOf;
  }
}
