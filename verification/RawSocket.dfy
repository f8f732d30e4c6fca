/**
  raw_socket_recv itself, as a loop over the shared ring (src/c/raw_socket.c). Before each access
  to shared memory the kernel and the signal handler make the moves that a schedule gives them.
 */
module RawSocket {
  import opened Words
  import opened Ring
  import opened RingProtocol

  /** One turn of the loop: the moves made before each of its accesses, and how poll ends. */
  datatype Moment = Moment(stop: seq<Move>, status: seq<Move>, poll: seq<Move>, count: seq<Move>, offset: seq<Move>,
                           copy: seq<Move>, stamp: seq<Move>, next: seq<Move>, store: seq<Move>, advance: seq<Move>,
                           pollFails: bool)

  function Before(m: Moment, pc: Pc): seq<Move> {
    match pc
    case CheckStop => m.stop
    case CheckStatus => m.status
    case Polling => m.poll
    case LoadCount => m.count
    case LoadOffset => m.offset
    case Copying => m.copy
    case Stamping(_) => m.stamp
    case Counting(_) => m.next
    case Storing(_) => m.store
    case Advancing(_) => m.advance
    case _ => []
  }

  function Touched(r: Socket, moves: seq<Move>): (r': Socket)
    ensures r'.pc == r.pc && |r'.blocks| == |r.blocks|
    decreases |moves|
  {
    if |moves| == 0 then r else Touched(Touch(r, moves[0]), moves[1..])
  }

  /** The turn is over: the loop starts again, or the call has returned. */
  predicate TurnOver(pc: Pc) {
    pc.CheckStop? || !InCall(pc)
  }

  function Depth(pc: Pc): nat {
    match pc
    case CheckStatus => 9
    case Polling => 8
    case LoadCount => 7
    case LoadOffset => 6
    case Copying => 5
    case Stamping(_) => 4
    case Counting(_) => 3
    case Storing(_) => 2
    case Advancing(_) => 1
    case _ => 0
  }

  /** A turn goes only forward. */
  predicate Forward(pc: Pc, pc': Pc) {
    TurnOver(pc) || TurnOver(pc') || Depth(pc') < Depth(pc)
  }

  /** Interference, then the access. */
  function Interleaved(r: Socket, m: Moment): (r': Socket)
    ensures Forward(r.pc, r'.pc)
  {
    Step(Touched(r, Before(m, r.pc)), m.pollFails)
  }

  /** The rest of a turn, access by access. */
  function Rest(r: Socket, m: Moment): Socket
    decreases Depth(r.pc)
  {
    if TurnOver(r.pc) then r else Rest(Interleaved(r, m), m)
  }

  function Turn(r: Socket, m: Moment): Socket
    requires r.pc == CheckStop
  {
    Rest(Interleaved(r, m), m)
  }

  /** A call; it stands at the top of the loop if it is still waiting when the moments run out. */
  function Receive(r: Socket, moments: seq<Moment>): Socket
    requires r.pc == CheckStop
    decreases |moments|
  {
    if |moments| == 0 then r
    else
      var r' := Turn(r, moments[0]);
      if r'.pc == CheckStop then Receive(r', moments[1..]) else r'
  }

  lemma RestUnfolds(r: Socket, m: Moment)
    requires !TurnOver(r.pc)
    ensures Rest(r, m) == Rest(Step(Touched(r, Before(m, r.pc)), m.pollFails), m)
  {
  }

  lemma RestOver(r: Socket, m: Moment)
    requires TurnOver(r.pc)
    ensures Rest(r, m) == r
  {
  }

  /** Where the control of a turn stands when it is over. */
  function PcOf(o: Option<Outcome>): Pc {
    if o.None? then CheckStop else Returned(o.value)
  }

  class Receiver {
    var ring: array<Block>
    var curBlock: nat
    var curPktIdx: nat
    var curPktOffset: nat
    var curNumPkts: nat
    var stopRequested: bool

    /** The state, with the control at pc. */
    ghost function View(pc: Pc): Socket
      reads this, ring
    {
      Socket(ring[..], curBlock, curPktIdx, curPktOffset, curNumPkts, stopRequested, pc)
    }

    /** The end of raw_socket_open: a mapped ring, the cursor at its first block. */
    constructor (ring: array<Block>)
      ensures View(Idle) == Socket(ring[..], 0, 0, 0, 0, false, Idle) && this.ring == ring
    {
      this.ring := ring;
      curBlock, curPktIdx, curPktOffset, curNumPkts := 0, 0, 0, 0;
      stopRequested := false;
    }

    /** raw_socket_request_stop */
    method RequestStopNow()
      modifies this`stopRequested
      ensures forall pc :: View(pc) == Touch(old(View(pc)), RequestStop)
    {
      stopRequested := true;
    }

    /** The other side of the ring: a store by the kernel, or the signal handler. */
    method Interfere(v: Move, ghost pc: Pc)
      modifies this`stopRequested, ring
      ensures View(pc) == Touch(old(View(pc)), v)
    {
      match v
      case Fill(i, numPkts, first, mem) =>
        if i < ring.Length { ring[i] := Block(ring[i].status, numPkts, first, mem); }
      case Retire(i, status, pkts, first, mem) =>
        if i < ring.Length && |pkts| < TWO32 { ring[i] := Block(status, |pkts|, first, mem); }
      case RequestStop => RequestStopNow();
    }

    /** What the others do before the access at pc. */
    method Meanwhile(moves: seq<Move>, ghost pc: Pc)
      modifies this`stopRequested, ring
      ensures View(pc) == Touched(old(View(pc)), moves)
    {
      for k := 0 to |moves|
        invariant Touched(View(pc), moves[k..]) == Touched(old(View(pc)), moves)
      {
        Interfere(moves[k], pc);
        assert moves[k..][1..] == moves[k + 1..];
      }
    }

    /** The start of a block: status, packet count, first offset. `proceed` if there is a packet to read. */
    method OpenBlock(m: Moment) returns (proceed: bool, o: Option<Outcome>)
      requires curPktIdx == 0
      modifies this, ring
      ensures ring == old(ring)
      ensures Rest(View(if proceed then Copying else PcOf(o)), m) == Rest(old(View(CheckStatus)), m)
    {
      hide Rest, Touched;
      ghost var r0 := View(CheckStatus);
      RestUnfolds(r0, m);
      Meanwhile(m.status, CheckStatus);
      if curBlock >= ring.Length {
        return false, Some(Fault);
      }
      if ring[curBlock].status % 2 != 1 {
        assert Rest(View(Polling), m) == Rest(r0, m);
        RestUnfolds(View(Polling), m);
        Meanwhile(m.poll, Polling);
        return false, if m.pollFails then Some(PollError) else None;
      }
      assert Rest(View(LoadCount), m) == Rest(r0, m);
      proceed, o := LoadBlock(m);
    }

    method LoadBlock(m: Moment) returns (proceed: bool, o: Option<Outcome>)
      requires curPktIdx == 0
      modifies this, ring
      ensures ring == old(ring)
      ensures Rest(View(if proceed then Copying else PcOf(o)), m) == Rest(old(View(LoadCount)), m)
    {
      hide Rest, Touched;
      ghost var r0 := View(LoadCount);
      RestUnfolds(r0, m);
      Meanwhile(m.count, LoadCount);
      if curBlock >= ring.Length || !User(ring[curBlock]) {
        return false, Some(Fault);
      }
      curNumPkts := ring[curBlock].numPkts;
      assert Rest(View(LoadOffset), m) == Rest(r0, m);
      RestUnfolds(View(LoadOffset), m);
      Meanwhile(m.offset, LoadOffset);
      if curBlock >= ring.Length || !User(ring[curBlock]) {
        return false, Some(Fault);
      }
      curPktOffset := ring[curBlock].first;
      if curNumPkts == 0 {
        assert Rest(View(Storing(None)), m) == Rest(r0, m);
        o := ReleaseBlock(m, None);
        RestOver(View(PcOf(o)), m);
        return false, o;
      }
      return true, None;
    }

    /** memcpy and the two time stamps; None if the header is not the process's. */
    method CopyPacket(m: Moment) returns (frame: Option<CapturedFrame>)
      modifies this, ring
      ensures ring == old(ring)
      ensures Rest(View(if frame.Some? then Counting(frame.value) else Returned(Fault)), m)
           == Rest(old(View(Copying)), m)
    {
      hide Rest, Touched;
      ghost var r0 := View(Copying);
      RestUnfolds(r0, m);
      Meanwhile(m.copy, Copying);
      if curBlock >= ring.Length || !User(ring[curBlock]) || curPktOffset !in ring[curBlock].mem {
        return None;
      }
      var data := Clipped(ring[curBlock].mem[curPktOffset].pkt.data);
      assert Rest(View(Stamping(data)), m) == Rest(r0, m);
      RestUnfolds(View(Stamping(data)), m);
      Meanwhile(m.stamp, Stamping(data));
      if curBlock >= ring.Length || !User(ring[curBlock]) || curPktOffset !in ring[curBlock].mem {
        return None;
      }
      var hdr := ring[curBlock].mem[curPktOffset];
      return Some(CapturedFrame(data, hdr.pkt.sec, hdr.pkt.nsec / 1000));
    }

    /** Count the packet; go on to the next header, or give the block back. */
    method CountPacket(m: Moment, frame: CapturedFrame) returns (o: Option<Outcome>)
      modifies this, ring
      ensures ring == old(ring)
      ensures View(PcOf(o)) == Rest(old(View(Counting(frame))), m)
    {
      hide Touched, Rest;
      ghost var r0 := View(Counting(frame));
      RestUnfolds(r0, m);
      Meanwhile(m.next, Counting(frame));
      if curPktIdx + 1 >= curNumPkts {
        curPktIdx := curPktIdx + 1;
        assert Rest(View(Storing(Some(frame))), m) == Rest(r0, m);
        o := ReleaseBlock(m, Some(frame));
        return;
      }
      if curBlock >= ring.Length || !User(ring[curBlock]) || curPktOffset !in ring[curBlock].mem {
        RestOver(View(Returned(Fault)), m);
        return Some(Fault);
      }
      curPktIdx := curPktIdx + 1;
      curPktOffset := (curPktOffset + ring[curBlock].mem[curPktOffset].next) % TWO32;
      RestOver(View(Returned(Got(frame))), m);
      return Some(Got(frame));
    }

    /** The store that hands the block back, and then the move to the next one. */
    method ReleaseBlock(m: Moment, held: Option<CapturedFrame>) returns (o: Option<Outcome>)
      modifies this, ring
      ensures ring == old(ring)
      ensures View(PcOf(o)) == Rest(old(View(Storing(held))), m)
    {
      hide Touched, Rest;
      ghost var r0 := View(Storing(held));
      RestUnfolds(r0, m);
      Meanwhile(m.store, Storing(held));
      if curBlock >= ring.Length {
        RestOver(View(Returned(Fault)), m);
        return Some(Fault);
      }
      ring[curBlock] := ring[curBlock].(status := STATUS_KERNEL);
      assert Rest(View(Advancing(held)), m) == Rest(r0, m);
      RestUnfolds(View(Advancing(held)), m);
      Meanwhile(m.advance, Advancing(held));
      curBlock := (curBlock + 1) % ring.Length;
      curPktIdx := 0;
      o := if held.Some? then Some(Got(held.value)) else None;
      RestOver(View(PcOf(o)), m);
    }

    /** One turn of the for (;;) loop: None is `continue`. */
    method LoopBody(m: Moment) returns (o: Option<Outcome>)
      modifies this, ring
      ensures ring == old(ring)
      ensures View(PcOf(o)) == Turn(old(View(CheckStop)), m)
    {
      hide Touched;
      ghost var r0 := View(CheckStop);
      Meanwhile(m.stop, CheckStop);
      if stopRequested {
        return Some(Stopped);
      }
      assert Rest(View(CheckStatus), m) == Turn(r0, m);
      if curPktIdx == 0 {
        var proceed, o' := OpenBlock(m);
        if !proceed {
          return o';
        }
      } else {
        RestUnfolds(View(CheckStatus), m);
        Meanwhile(m.status, CheckStatus);
      }
      assert Rest(View(Copying), m) == Turn(r0, m);
      var frame := CopyPacket(m);
      if frame.None? {
        return Some(Fault);
      }
      o := CountPacket(m, frame.value);
    }

    /** raw_socket_recv; None if it is still waiting when the moments run out. */
    method Recv(moments: seq<Moment>) returns (o: Option<Outcome>)
      modifies this, ring
      ensures View(PcOf(o)) == Receive(old(View(CheckStop)), moments) && ring == old(ring)
    {
      hide Turn;
      for k := 0 to |moments|
        invariant ring == old(ring)
        invariant Receive(View(CheckStop), moments[k..]) == Receive(old(View(CheckStop)), moments)
      {
        assert moments[k..][1..] == moments[k + 1..];
        o := LoopBody(moments[k]);
        if o.Some? {
          return;
        }
      }
      return None;
    }
  }

  // ----- a call as part of a run -----

  /** The moves are legal, one after the other. */
  predicate LegalMoves(s: System, moves: seq<Move>)
    decreases |moves|
  {
    |moves| == 0 || (LegalMove(s, moves[0]) && LegalMoves(Moved(s, moves[0]), moves[1..]))
  }

  function Meantime(s: System, moves: seq<Move>): (s': System)
    requires LegalMoves(s, moves)
    ensures s'.socket == Touched(s.socket, moves) && s'.delivered == s.delivered
    decreases |moves|
  {
    if |moves| == 0 then s else Meantime(Moved(s, moves[0]), moves[1..])
  }

  predicate LegalAccess(s: System, m: Moment) {
    LegalMoves(s, Before(m, s.socket.pc))
  }

  function Access(s: System, m: Moment): (s': System)
    requires LegalAccess(s, m)
    ensures s'.socket == Interleaved(s.socket, m) && s'.delivered == s.delivered + Delivery(s'.socket.pc)
    ensures Forward(s.socket.pc, s'.socket.pc)
  {
    Advanced(Meantime(s, Before(m, s.socket.pc)), m.pollFails)
  }

  predicate LegalRest(s: System, m: Moment)
    decreases Depth(s.socket.pc)
  {
    TurnOver(s.socket.pc) || (LegalAccess(s, m) && LegalRest(Access(s, m), m))
  }

  /** The rest of a turn in the system. */
  function PlayRest(s: System, m: Moment): System
    requires LegalRest(s, m)
    decreases Depth(s.socket.pc)
  {
    if TurnOver(s.socket.pc) then s else PlayRest(Access(s, m), m)
  }

  predicate LegalTurn(s: System, m: Moment) {
    s.socket.pc == CheckStop && LegalAccess(s, m) && LegalRest(Access(s, m), m)
  }

  function PlayTurn(s: System, m: Moment): System
    requires LegalTurn(s, m)
  {
    PlayRest(Access(s, m), m)
  }

  predicate LegalMoments(s: System, moments: seq<Moment>)
    requires s.socket.pc == CheckStop
    decreases |moments|
  {
    |moments| == 0
    || (&& LegalTurn(s, moments[0])
        && (PlayTurn(s, moments[0]).socket.pc == CheckStop ==> LegalMoments(PlayTurn(s, moments[0]), moments[1..])))
  }

  lemma {:induction false} ExecAppend(s: System, x: seq<Action>, y: seq<Action>)
    requires LegalRun(s, x) && LegalRun(Exec(s, x), y)
    ensures LegalRun(s, x + y) && Exec(s, x + y) == Exec(Exec(s, x), y)
    decreases |x|
  {
    hide Do, Legal;
    if |x| == 0 {
      assert x + y == y;
    } else {
      assert (x + y)[1..] == x[1..] + y;
      ExecAppend(Do(s, x[0]), x[1..], y);
    }
  }

  lemma {:induction false} MovesAreRun(s: System, moves: seq<Move>) returns (run: seq<Action>)
    requires LegalMoves(s, moves)
    ensures LegalRun(s, run) && Exec(s, run) == Meantime(s, moves)
    decreases |moves|
  {
    hide Moved, LegalMove;
    if |moves| == 0 {
      run := [];
    } else {
      var rest := MovesAreRun(Moved(s, moves[0]), moves[1..]);
      run := [Outside(moves[0])] + rest;
      assert run[1..] == rest;
    }
  }

  lemma AccessIsRun(s: System, m: Moment) returns (run: seq<Action>)
    requires InCall(s.socket.pc) && LegalAccess(s, m)
    ensures LegalRun(s, run) && Exec(s, run) == Access(s, m)
  {
    hide Advanced, Moved, LegalMove;
    var moves := MovesAreRun(s, Before(m, s.socket.pc));
    var last := [Advance(m.pollFails)];
    assert last[1..] == [];
    run := moves + last;
    ExecAppend(s, moves, last);
  }

  lemma {:induction false} RestIsRun(s: System, m: Moment) returns (run: seq<Action>)
    requires LegalRest(s, m)
    ensures LegalRun(s, run) && Exec(s, run) == PlayRest(s, m)
    ensures PlayRest(s, m).socket == Rest(s.socket, m)
    ensures InCall(s.socket.pc) && !TurnOver(s.socket.pc) ==>
              PlayRest(s, m).delivered == s.delivered + Delivery(PlayRest(s, m).socket.pc)
    decreases Depth(s.socket.pc)
  {
    hide Access, LegalAccess, Interleaved, Before;
    if TurnOver(s.socket.pc) {
      run := [];
    } else {
      var first := AccessIsRun(s, m);
      var rest := RestIsRun(Access(s, m), m);
      run := first + rest;
      ExecAppend(s, first, rest);
    }
  }

  lemma TurnIsRun(s: System, m: Moment) returns (run: seq<Action>)
    requires LegalTurn(s, m)
    ensures LegalRun(s, run) && Exec(s, run) == PlayTurn(s, m)
    ensures PlayTurn(s, m).socket == Turn(s.socket, m)
    ensures PlayTurn(s, m).delivered == s.delivered + Delivery(PlayTurn(s, m).socket.pc)
  {
    hide Step;
    var first := AccessIsRun(s, m);
    var rest := RestIsRun(Access(s, m), m);
    run := first + rest;
    ExecAppend(s, first, rest);
  }

  lemma {:induction false} LoopIsRun(s: System, moments: seq<Moment>) returns (run: seq<Action>)
    requires s.socket.pc == CheckStop && LegalMoments(s, moments)
    ensures LegalRun(s, run)
    ensures var s' := Exec(s, run);
            s'.socket == Receive(s.socket, moments) && s'.delivered == s.delivered + Delivery(s'.socket.pc)
    decreases |moments|
  {
    hide Turn, PlayTurn, LegalTurn;
    if |moments| == 0 {
      run := [];
    } else {
      run := TurnIsRun(s, moments[0]);
      var s1 := PlayTurn(s, moments[0]);
      if s1.socket.pc == CheckStop {
        var rest := LoopIsRun(s1, moments[1..]);
        ExecAppend(s, run, rest);
        run := run + rest;
      }
    }
  }

  /**
    Whatever kernel and signal handler do between any two accesses, a call is a stretch of a run:
    it never reads what is not the process's, and it hands over exactly the next packet or nothing.
   */
  lemma CallIsRun(s: System, moments: seq<Moment>) returns (run: seq<Action>)
    requires Inv(s) && !InCall(s.socket.pc) && LegalMoments(Do(s, Call), moments)
    ensures LegalRun(s, run)
    ensures var s' := Exec(s, run);
            && s'.socket == Receive(Do(s, Call).socket, moments) && s'.socket.pc != Returned(Fault)
            && s'.delivered == s.delivered + Delivery(s'.socket.pc) && s'.delivered <= AllOf(s'.retired)
  {
    var rest := LoopIsRun(Do(s, Call), moments);
    run := [Call] + rest;
    assert run[1..] == rest;
    hide LegalMoments, Receive, Moved, Advanced, Inv;
    RunKeeps(s, run);
    SafeEnd(Exec(s, run));
  }

  lemma SafeEnd(s: System)
    requires Inv(s)
    ensures s.socket.pc != Returned(Fault) && s.delivered <= AllOf(s.retired)
  {
    hide Ownership, AtPacket, AllOf, Frames;
    DeliveredPrefix(s);
  }
}
