/** Safety and progress of the receive ring, over every interleaving of its steps. */
module RingProtocol {
  import opened Words
  import opened Ring

  // ----- one move of the kernel or the signal handler -----

  lemma FillKeeps(s: System, v: Move)
    requires Inv(s) && v.Fill? && LegalMove(s, v)
    ensures Inv(Moved(s, v))
  {
    hide Slot, Chain, AllOf, Frames, Received;
    var n := |s.socket.blocks|;
    assert forall j | s.released <= j < |s.retired| :: Holds(s.socket.blocks[Slot(j, n)], s.retired[j]);
  }

  /** The kernel never runs into a block that is still the process's. */
  lemma RoomToRetire(s: System)
    requires Ownership(s) && !User(s.socket.blocks[s.kblock])
    ensures |s.retired| < s.released + |s.socket.blocks|
  {
    hide Slot, Chain;
    if |s.retired| == s.released + |s.socket.blocks| {
      SlotShift(s.released, |s.socket.blocks|, |s.socket.blocks|);
      assert false;
    }
  }

  lemma RetireOwnership(s: System, v: Move)
    requires Ownership(s) && v.Retire? && LegalMove(s, v)
    ensures Ownership(Moved(s, v))
  {
    hide Slot, Chain;
    RoomToRetire(s);
    var n, m := |s.socket.blocks|, |s.retired|;
    SlotNext(m, n);
    forall j | s.released <= j < s.released + n && j != m
      ensures Slot(j, n) != Slot(m, n)
    {
      if j < m { SlotsDiffer(j, m, n); } else { SlotsDiffer(m, j, n); }
    }
  }

  lemma RetireKeeps(s: System, v: Move)
    requires Inv(s) && v.Retire? && LegalMove(s, v)
    ensures Inv(Moved(s, v))
  {
    hide Slot, Chain, AllOf, Frames, Received;
    RetireOwnership(s, v);
    var s' := Moved(s, v);
    assert s'.retired[..s.released] == s.retired[..s.released];
    if s.released < |s.retired| {
      assert Holds(s.socket.blocks[Slot(s.released, |s.socket.blocks|)], s.retired[s.released]);
    }
  }

  lemma MoveKeeps(s: System, v: Move)
    requires Inv(s) && LegalMove(s, v)
    ensures Inv(Moved(s, v))
  {
    hide Inv, Moved;
    match v
    case Fill(_, _, _, _) => FillKeeps(s, v);
    case Retire(_, _, _, _, _) => RetireKeeps(s, v);
    case RequestStop => StopKeeps(s);
  }

  lemma StopKeeps(s: System)
    requires Inv(s)
    ensures Inv(Moved(s, RequestStop))
  {
    hide Slot, Holds, Chain, AllOf, Frames, Received, Last;
  }

  // ----- one step of the receiver -----

  /** The block under the cursor, until it is given back. */
  lemma CurrentHolds(s: System)
    requires Ownership(s) && !s.socket.pc.Advancing? && s.released < |s.retired|
    ensures s.socket.curBlock < |s.socket.blocks|
    ensures Holds(s.socket.blocks[s.socket.curBlock], s.retired[s.released])
  {
    hide Slot, Chain;
  }

  /** With nothing retired, the block under the cursor is the kernel's. */
  lemma CurrentIsKernels(s: System)
    requires Ownership(s) && !s.socket.pc.Advancing? && s.released == |s.retired|
    ensures s.socket.curBlock < |s.socket.blocks| && !User(s.socket.blocks[s.socket.curBlock])
  {
    hide Slot, Chain;
  }

  /** The header under the cursor is the next packet of the current block. */
  lemma ChainHead(mem: map<nat, Header>, off: nat, pkts: seq<Pkt>, k: nat)
    requires k < |pkts| && Chain(mem, off, pkts[k..])
    ensures off in mem && mem[off].pkt == pkts[k]
    ensures k + 1 < |pkts| ==> off + mem[off].next < TWO32 && Chain(mem, off + mem[off].next, pkts[k + 1..])
  {
    assert pkts[k..][1..] == pkts[k + 1..];
  }

  lemma AllOfStep(retired: seq<seq<Pkt>>, k: nat)
    requires k < |retired|
    ensures AllOf(retired[..k + 1]) == AllOf(retired[..k]) + Frames(retired[k])
  {
    assert retired[..k + 1][..k] == retired[..k];
  }

  lemma FramesStep(pkts: seq<Pkt>, k: nat)
    requires k < |pkts|
    ensures Frames(pkts[..k + 1]) == Frames(pkts[..k]) + [Received(pkts[k])]
  {
  }

  /** What every reading step finds: a block of the process, and the header it is after. */
  ghost predicate SafeToRead(r: Socket) {
    && (r.pc.LoadCount? || r.pc.LoadOffset? || r.pc.Storing? ==> Readable(r))
    && (r.pc.Copying? || r.pc.Stamping? || r.pc.Counting? ==> HeaderReadable(r))
  }

  lemma ReadsAreSafe(s: System)
    requires Inv(s)
    ensures SafeToRead(s.socket)
  {
    hide Slot, InOrder;
    var r := s.socket;
    if r.pc.LoadCount? || r.pc.LoadOffset? || r.pc.Storing? || r.pc.Copying? || r.pc.Stamping? || r.pc.Counting? {
      CurrentHolds(s);
    }
    if r.pc.Copying? || r.pc.Stamping? || r.pc.Counting? {
      ChainHead(r.blocks[r.curBlock].mem, r.off, s.retired[s.released], r.idx);
    }
  }

  /** Steps that change neither a block nor the number of packets read: checks and polling ... */
  predicate Checks(pc: Pc) {
    pc.CheckStop? || pc.CheckStatus? || pc.Polling?
  }

  /** ... and reads of the current block. */
  predicate Reads(pc: Pc) {
    pc.LoadCount? || pc.LoadOffset? || pc.Copying? || pc.Stamping?
  }

  lemma CheckKeeps(s: System, pollFails: bool)
    requires Inv(s) && Checks(s.socket.pc)
    ensures Inv(Advanced(s, pollFails))
  {
    hide Slot, AllOf, Frames, Chain, Received;
    if s.released == |s.retired| {
      CurrentIsKernels(s);
    }
  }

  lemma ReadCursor(s: System, pollFails: bool)
    requires Ownership(s) && Cursor(s) && SafeToRead(s.socket) && Reads(s.socket.pc)
    ensures Cursor(Advanced(s, pollFails)) && SafeStep(s.socket, Advanced(s, pollFails).socket)
  {
    hide Slot;
    CurrentHolds(s);
    hide Ownership;
    var pkts := s.retired[s.released];
    assert pkts[0..] == pkts;
    if s.socket.pc.Copying? || s.socket.pc.Stamping? {
      ChainHead(s.socket.blocks[s.socket.curBlock].mem, s.socket.off, pkts, s.socket.idx);
    }
  }

  /** A read moves neither block nor packet count, and leaves nothing in hand. */
  predicate SafeStep(r: Socket, r': Socket) {
    && r'.blocks == r.blocks && r'.curBlock == r.curBlock && r'.idx == r.idx
    && !r'.pc.Returned? && !r'.pc.Advancing? && |CopiedOut(r'.pc)| == 0
  }

  lemma ReadKeeps(s: System, pollFails: bool)
    requires Inv(s) && Reads(s.socket.pc)
    ensures Inv(Advanced(s, pollFails))
  {
    ReadsAreSafe(s);
    ReadCursor(s, pollFails);
    hide Slot, AllOf, Frames, Chain, Cursor, Step;
  }

  /** The packet is counted: it is returned at once, or kept in hand until the block is given back. */
  lemma CountKeeps(s: System, pollFails: bool)
    requires Inv(s) && s.socket.pc.Counting?
    ensures Inv(Advanced(s, pollFails))
  {
    hide Slot, AllOf, Frames, Received;
    ReadsAreSafe(s);
    CurrentHolds(s);
    var pkts := s.retired[s.released];
    ChainHead(s.socket.blocks[s.socket.curBlock].mem, s.socket.off, pkts, s.socket.idx);
    CountInOrder(s, pollFails);
    hide Chain;
  }

  lemma CountInOrder(s: System, pollFails: bool)
    requires InOrder(s) && Cursor(s) && s.socket.pc.Counting? && HeaderReadable(s.socket)
    ensures InOrder(Advanced(s, pollFails))
  {
    hide Chain, AllOf;
    var pkts, k := s.retired[s.released], s.socket.idx;
    FramesStep(pkts, k);
    assert Frames(pkts[..0]) == [];
    hide Frames, Received;
    var s', f, before := Advanced(s, pollFails), s.socket.pc.frame, AllOf(s.retired[..s.released]);
    assert s.delivered == before + Frames(pkts[..k]) by {
      assert s.delivered + [] == s.delivered;
    }
    assert s.delivered + [f] == before + (Frames(pkts[..k]) + [f]);
    assert s'.delivered + CopiedOut(s'.socket.pc) == s.delivered + [f];
  }

  lemma StoreOwnership(s: System, pollFails: bool)
    requires Ownership(s) && s.socket.pc.Storing? && s.released < |s.retired|
    ensures Ownership(Advanced(s, pollFails))
  {
    hide Slot, Chain;
    var n := |s.socket.blocks|;
    SlotShift(s.released, n, n);
    forall j | s.released < j < s.released + n
      ensures Slot(j, n) != Slot(s.released, n)
    {
      SlotsDiffer(s.released, j, n);
    }
  }

  lemma StoreKeeps(s: System, pollFails: bool)
    requires Inv(s) && s.socket.pc.Storing?
    ensures Inv(Advanced(s, pollFails))
  {
    hide Slot, Chain, AllOf, Received;
    StoreOwnership(s, pollFails);
    var pkts := s.retired[s.released];
    AllOfStep(s.retired, s.released);
    assert pkts[..|pkts|] == pkts;
    assert |pkts| == 0 ==> Frames(pkts) == [];
    hide Frames;
  }

  lemma AdvanceKeeps(s: System, pollFails: bool)
    requires Inv(s) && s.socket.pc.Advancing?
    ensures Inv(Advanced(s, pollFails))
  {
    hide Slot, Chain, AllOf, Frames, Received;
    SlotNext(s.released - 1, |s.socket.blocks|);
  }

  lemma ReceiverKeeps(s: System, pollFails: bool)
    requires Inv(s) && InCall(s.socket.pc)
    ensures Inv(Advanced(s, pollFails))
  {
    hide Inv, Advanced;
    if s.socket.pc.Counting? {
      CountKeeps(s, pollFails);
    } else if s.socket.pc.Storing? {
      StoreKeeps(s, pollFails);
    } else if s.socket.pc.Advancing? {
      AdvanceKeeps(s, pollFails);
    } else if Reads(s.socket.pc) {
      ReadKeeps(s, pollFails);
    } else {
      CheckKeeps(s, pollFails);
    }
  }

  lemma CallKeeps(s: System)
    requires Inv(s) && !InCall(s.socket.pc)
    ensures Inv(Do(s, Call))
  {
    hide Slot, Chain, AllOf, Frames, Received;
  }

  lemma StepKeeps(s: System, a: Action)
    requires Inv(s) && Legal(s, a)
    ensures Inv(Do(s, a))
  {
    hide Inv, Moved, Advanced;
    match a
    case Outside(v) => MoveKeeps(s, v);
    case Call => CallKeeps(s);
    case Advance(pollFails) => ReceiverKeeps(s, pollFails);
  }

  // ----- every run -----

  lemma InitKeeps(s: System)
    requires Init(s)
    ensures Inv(s)
  {
    assert s.retired[..0] == [];
  }

  lemma {:induction false} RunKeeps(s: System, run: seq<Action>)
    requires Inv(s) && LegalRun(s, run)
    ensures Inv(Exec(s, run))
    decreases |run|
  {
    hide Inv, Do, Legal;
    if |run| > 0 {
      StepKeeps(s, run[0]);
      RunKeeps(Do(s, run[0]), run[1..]);
    }
  }

  lemma {:induction false} AllOfPrefix(retired: seq<seq<Pkt>>, k: nat)
    requires k <= |retired|
    ensures AllOf(retired[..k]) <= AllOf(retired)
    decreases |retired| - k
  {
    if k == |retired| {
      assert retired[..k] == retired;
    } else {
      AllOfStep(retired, k);
      AllOfPrefix(retired, k + 1);
    }
  }

  lemma DeliveredPrefix(s: System)
    requires InOrder(s)
    ensures s.delivered <= AllOf(s.retired)
  {
    hide AllOf;
    AllOfPrefix(s.retired, s.released);
    if ReadHere(s) > 0 {
      var pkts := s.retired[s.released];
      AllOfStep(s.retired, s.released);
      AllOfPrefix(s.retired, s.released + 1);
      var x, y, z := AllOf(s.retired[..s.released]), Frames(pkts[..ReadHere(s)]), Frames(pkts);
      assert y <= z;
      assert x + y <= x + z;
    }
    assert s.delivered <= s.delivered + CopiedOut(s.socket.pc);
  }

  /**
    In every run of kernel, signal handler and receiver, stopped between any two of its accesses:
    the frames delivered or in hand are exactly the packets of the released blocks and the read
    ones of the current block, each once, in the order the kernel retired them. Every access finds
    a block of the process and the header it is after, so no call ends in a fault.
   */
  lemma RingDelivers(s0: System, run: seq<Action>)
    requires Init(s0) && LegalRun(s0, run)
    ensures var s := Exec(s0, run);
            && InOrder(s) && s.delivered <= AllOf(s.retired)
            && SafeToRead(s.socket) && s.socket.pc != Returned(Fault)
  {
    InitKeeps(s0);
    RunKeeps(s0, run);
    var s := Exec(s0, run);
    DeliveredPrefix(s);
    ReadsAreSafe(s);
  }

  lemma {:induction false} FramesArePackets(retired: seq<seq<Pkt>>)
    ensures |AllOf(retired)| == |AllPackets(retired)|
    ensures forall i | 0 <= i < |AllOf(retired)| :: AllOf(retired)[i] == Received(AllPackets(retired)[i])
    decreases |retired|
  {
    hide Received;
    if |retired| > 0 {
      FramesArePackets(retired[..|retired| - 1]);
    }
  }

  /**
    The frame delivered as number i, in any run, is packet number i: its first 65536 bytes, its
    second, and its nanoseconds cut to the microsecond below.
   */
  lemma DeliveredIsPacket(s0: System, run: seq<Action>, i: nat)
    requires Init(s0) && LegalRun(s0, run) && i < |Exec(s0, run).delivered|
    ensures var s := Exec(s0, run);
            && i < |AllPackets(s.retired)|
            && var f, p := s.delivered[i], AllPackets(s.retired)[i];
               && f.data <= p.data && |f.data| == (if |p.data| <= 65536 then |p.data| else 65536)
               && f.sec == p.sec && f.usec * 1000 <= p.nsec < f.usec * 1000 + 1000
  {
    hide Do, Legal, AllOf, AllPackets;
    RingDelivers(s0, run);
    FramesArePackets(Exec(s0, run).retired);
  }

  /**
    Where the receiver is about to give a block back, in any run, the block is still its own and
    all its packets are copied out; the store changes that block's status and nothing else.
   */
  lemma CopiedBeforeReleased(s0: System, run: seq<Action>, pollFails: bool)
    requires Init(s0) && LegalRun(s0, run) && Exec(s0, run).socket.pc.Storing?
    ensures var s := Exec(s0, run);
            var c := s.socket.curBlock;
            && s.released < |s.retired| && Readable(s.socket) && Holds(s.socket.blocks[c], s.retired[s.released])
            && s.delivered + CopiedOut(s.socket.pc) == AllOf(s.retired[..s.released + 1])
            && Advanced(s, pollFails).socket
               == s.socket.(blocks := s.socket.blocks[c := s.socket.blocks[c].(status := STATUS_KERNEL)],
                            pc := Advancing(s.socket.pc.held))
  {
    InitKeeps(s0);
    RunKeeps(s0, run);
    hide Inv, Do, Legal, Advanced;
    DrainedBlock(Exec(s0, run), pollFails);
  }

  lemma DrainedBlock(s: System, pollFails: bool)
    requires Inv(s) && s.socket.pc.Storing?
    ensures var c := s.socket.curBlock;
            && s.released < |s.retired| && Readable(s.socket) && Holds(s.socket.blocks[c], s.retired[s.released])
            && s.delivered + CopiedOut(s.socket.pc) == AllOf(s.retired[..s.released + 1])
            && Advanced(s, pollFails).socket
               == s.socket.(blocks := s.socket.blocks[c := s.socket.blocks[c].(status := STATUS_KERNEL)],
                            pc := Advancing(s.socket.pc.held))
  {
    CurrentHolds(s);
    hide Chain, Slot, AllOf, Received, Ownership;
    AllOfStep(s.retired, s.released);
    var pkts := s.retired[s.released];
    assert pkts[..|pkts|] == pkts;
    assert |pkts| == 0 ==> Frames(pkts) == [];
    hide Frames;
  }

  /** Only that store changes a block: no other step of the receiver writes to shared memory. */
  lemma OnlyTheStoreWrites(r: Socket, pollFails: bool)
    requires Step(r, pollFails).blocks != r.blocks
    ensures r.pc.Storing? && Step(r, pollFails).pc == Advancing(r.pc.held)
  {
  }

  /** The process's blocks after a run, slot by slot: those retired and not released, with their packets. */
  lemma OwnershipIsExact(s0: System, run: seq<Action>, i: nat)
    requires Init(s0) && LegalRun(s0, run) && i < |Exec(s0, run).socket.blocks|
    ensures var s := Exec(s0, run);
            var b := s.socket.blocks[i];
            User(b) <==>
            exists j | s.released <= j < |s.retired| :: Slot(j, |s.socket.blocks|) == i && Holds(b, s.retired[j])
  {
    InitKeeps(s0);
    RunKeeps(s0, run);
    var s := Exec(s0, run);
    var j := SlotOwner(i, s.released, |s.socket.blocks|);
    hide Slot, Chain, Cursor, InOrder;
    if User(s.socket.blocks[i]) {
      assert Slot(j, |s.socket.blocks|) == i && j < |s.retired|;
    }
  }

  /** Every slot is the slot of some block number in the cycle that starts at c. */
  lemma SlotOwner(i: nat, c: nat, n: nat) returns (j: nat)
    requires i < n
    ensures c <= j < c + n && Slot(j, n) == i
  {
    var r := c % n;
    j := if i >= r then c + (i - r) else c + (i + n - r);
    SlotShift(c, j - c, n);
  }

  // ----- progress -----

  function Packets(blocks: seq<seq<Pkt>>): nat {
    if |blocks| == 0 then 0 else |blocks[0]| + Packets(blocks[1..])
  }

  function Rank(pc: Pc): nat {
    match pc
    case Advancing(_) => 11
    case Idle => 10
    case Returned(_) => 10
    case CheckStop => 9
    case CheckStatus => 8
    case Polling => 11
    case LoadCount => 7
    case LoadOffset => 6
    case Copying => 5
    case Stamping(_) => 4
    case Counting(_) => 3
    case Storing(_) => 2
  }

  /** Steps still needed: eight per packet, ten per block, and what is left of this round. */
  function Pending(s: System): int
    requires s.released <= |s.retired|
  {
    8 * (Packets(s.retired[s.released..]) - ReadHere(s)) + 10 * (|s.retired| - s.released) + Rank(s.socket.pc)
  }

  /** Everything retired is delivered. */
  predicate Drained(s: System) {
    s.released == |s.retired| && !s.socket.pc.Advancing?
  }

  lemma DrainedHasAll(s: System)
    requires Inv(s) && Drained(s)
    ensures s.delivered == AllOf(s.retired)
  {
    hide Slot, Chain, AllOf, Frames;
    assert s.retired[..s.released] == s.retired;
    assert s.delivered + [] == s.delivered;
  }

  lemma PendingPositive(s: System)
    requires Inv(s)
    ensures Pending(s) > 0
  {
    hide Slot, Chain, AllOf, Frames, Received;
    if s.released < |s.retired| {
      assert s.retired[s.released..][0] == s.retired[s.released];
    }
  }

  /** The receiver's own next action: a new call, or the next step of this one. */
  function Next(s: System, pollFails: bool): Action {
    if InCall(s.socket.pc) then Advance(pollFails) else Call
  }

  lemma NextProgress(s: System, pollFails: bool)
    requires Inv(s) && !s.socket.stop && !Drained(s)
    ensures var s' := Do(s, Next(s, pollFails));
            !s'.socket.stop && s'.retired == s.retired && s'.released <= |s'.retired| && Pending(s') < Pending(s)
  {
    ReadsAreSafe(s);
    if s.socket.pc.Advancing? {
      hide Ownership, InOrder, AllOf, Frames;
    } else {
      CurrentHolds(s);
      hide Ownership, InOrder, AllOf, Frames, Chain;
      PacketProgress(s, pollFails);
    }
  }

  lemma PacketProgress(s: System, pollFails: bool)
    requires Cursor(s) && SafeToRead(s.socket) && !s.socket.stop && !s.socket.pc.Advancing?
    requires s.released < |s.retired| && Readable(s.socket)
    ensures var s' := Do(s, Next(s, pollFails));
            !s'.socket.stop && s'.retired == s.retired && s'.released <= |s'.retired| && Pending(s') < Pending(s)
  {
    if s.socket.pc.Storing? {
      hide Received, User;
      var rest := s.retired[s.released..];
      assert rest[0] == s.retired[s.released] && rest[1..] == s.retired[s.released + 1..];
    } else {
      RankProgress(s, pollFails);
      hide Cursor, Packets, Step, Rank;
    }
  }

  /** Up to the store, a step lowers the rank, or counts a packet. */
  lemma RankProgress(s: System, pollFails: bool)
    requires Cursor(s) && SafeToRead(s.socket) && !s.socket.stop && !s.socket.pc.Advancing? && !s.socket.pc.Storing?
    requires s.released < |s.retired| && Readable(s.socket)
    ensures var r, s' := s.socket, Do(s, Next(s, pollFails));
            && !s'.socket.stop && s'.retired == s.retired && s'.released == s.released && !s'.socket.pc.Advancing?
            && Rank(s'.socket.pc) - 8 * s'.socket.idx < Rank(r.pc) - 8 * r.idx
  {
    hide AtPacket, Received, Clipped, User;
  }

  /** Left alone and not stopped, the receiver delivers everything retired in Pending steps, polls failing or not. */
  lemma {:induction false} Drains(s: System, pollFails: bool) returns (run: seq<Action>)
    requires Inv(s) && !s.socket.stop
    ensures LegalRun(s, run) && |run| <= Pending(s) && forall k | 0 <= k < |run| :: !run[k].Outside?
    ensures Exec(s, run).retired == s.retired && Exec(s, run).delivered == AllOf(s.retired)
    decreases if s.released <= |s.retired| then Pending(s) else 0
  {
    PendingPositive(s);
    if Drained(s) {
      run := [];
      DrainedHasAll(s);
    } else {
      var a := Next(s, pollFails);
      NextProgress(s, pollFails);
      StepKeeps(s, a);
      hide Inv, Do, Pending;
      var s' := Do(s, a);
      PendingPositive(s');
      var rest := Drains(s', pollFails);
      run := [a] + rest;
      assert run[1..] == rest;
    }
  }
}
