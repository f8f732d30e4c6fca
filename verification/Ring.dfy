/**
  The receive ring shared with the kernel (src/c/raw_socket.c). The kernel fills blocks in cyclic
  order and retires them to the process; raw_socket_recv walks the headers of a retired block and
  hands the block back. The receiver has a program counter: it stops at every access to shared
  memory, and kernel and signal handler may act between any two of them.
 */
module Ring {
  import opened Words

  const BLOCK_SIZE := 0x10_0000
  const MAX_FRAME := 65536

  /** A packet as the kernel stored it. */
  datatype Pkt = Pkt(data: seq<u8>, sec: u32, nsec: u32)

  /** tpacket3_hdr: the packet, and the distance to the next header. */
  datatype Header = Header(pkt: Pkt, next: u32)

  /** tpacket_block_desc with the memory behind it: the header at each offset that holds one. */
  datatype Block = Block(status: u32, numPkts: u32, first: u32, mem: map<nat, Header>)

  const STATUS_KERNEL: u32 := 0

  /** block_status & TP_STATUS_USER: the lowest bit */
  predicate User(b: Block) {
    b.status % 2 == 1
  }

  /** The headers from `off` on hold exactly these packets; the last one's distance means nothing. */
  predicate Chain(mem: map<nat, Header>, off: nat, pkts: seq<Pkt>)
    decreases |pkts|
  {
    |pkts| == 0
    || (&& off < BLOCK_SIZE && off in mem && mem[off].pkt == pkts[0]
        && (|pkts| == 1 || Chain(mem, off + mem[off].next, pkts[1..])))
  }

  /** What a caller of raw_socket_recv gets: at most MAX_FRAME bytes, and microseconds. */
  datatype CapturedFrame = CapturedFrame(data: seq<u8>, sec: u32, usec: u32)

  function Clipped(data: seq<u8>): seq<u8> {
    if |data| < MAX_FRAME then data else data[..MAX_FRAME]
  }

  function Received(p: Pkt): CapturedFrame {
    CapturedFrame(Clipped(p.data), p.sec, p.nsec / 1000)
  }

  // ----- raw_socket_recv -----

  /** How a call ends. Fault: a block or header was read that is not the process's. */
  datatype Outcome = Stopped | PollError | Got(frame: CapturedFrame) | Fault

  /** The next access of the receiver, with what its local variables hold. */
  datatype Pc =
    | Idle
    | CheckStop
    | CheckStatus
    | Polling
    | LoadCount
    | LoadOffset
    | Copying
    | Stamping(data: seq<u8>)
    | Counting(frame: CapturedFrame)
    | Storing(held: Option<CapturedFrame>)
    | Advancing(held: Option<CapturedFrame>)
    | Returned(outcome: Outcome)

  predicate InCall(pc: Pc) {
    !pc.Idle? && !pc.Returned?
  }

  /** raw_socket_ctx, with the mapped ring */
  datatype Socket = Socket(blocks: seq<Block>, curBlock: nat, idx: nat, off: nat, num: nat, stop: bool, pc: Pc)

  /** The current block may be read: it is the process's. */
  predicate Readable(r: Socket) {
    r.curBlock < |r.blocks| && User(r.blocks[r.curBlock])
  }

  /** So may the header under the cursor: it is there. */
  predicate HeaderReadable(r: Socket) {
    Readable(r) && r.off in r.blocks[r.curBlock].mem
  }

  function Faulted(r: Socket): Socket {
    r.(pc := Returned(Fault))
  }

  /** The store of TP_STATUS_KERNEL */
  function Stored(r: Socket): Socket
    requires r.curBlock < |r.blocks|
  {
    r.(blocks := r.blocks[r.curBlock := r.blocks[r.curBlock].(status := STATUS_KERNEL)])
  }

  /** The receiver's next step. */
  function Step(r: Socket, pollFails: bool): Socket {
    match r.pc
    case CheckStop => r.(pc := if r.stop then Returned(Stopped) else CheckStatus)
    case CheckStatus =>
      if r.idx > 0 then r.(pc := Copying)
      else if r.curBlock >= |r.blocks| then Faulted(r)
      else r.(pc := if User(r.blocks[r.curBlock]) then LoadCount else Polling)
    case Polling => r.(pc := if pollFails then Returned(PollError) else CheckStop)
    case LoadCount =>
      if Readable(r) then r.(num := r.blocks[r.curBlock].numPkts, pc := LoadOffset) else Faulted(r)
    case LoadOffset =>
      if Readable(r) then r.(off := r.blocks[r.curBlock].first, pc := if r.num == 0 then Storing(None) else Copying)
      else Faulted(r)
    case Copying =>
      if HeaderReadable(r) then r.(pc := Stamping(Clipped(r.blocks[r.curBlock].mem[r.off].pkt.data))) else Faulted(r)
    case Stamping(data) =>
      if HeaderReadable(r) then
        var p := r.blocks[r.curBlock].mem[r.off].pkt;
        r.(pc := Counting(CapturedFrame(data, p.sec, p.nsec / 1000)))
      else Faulted(r)
    case Counting(f) =>
      if r.idx + 1 >= r.num then r.(idx := r.idx + 1, pc := Storing(Some(f)))
      else if HeaderReadable(r) then
        r.(idx := r.idx + 1, off := (r.off + r.blocks[r.curBlock].mem[r.off].next) % TWO32, pc := Returned(Got(f)))
      else Faulted(r)
    case Storing(held) =>
      if r.curBlock < |r.blocks| then Stored(r).(pc := Advancing(held)) else Faulted(r)
    case Advancing(held) =>
      if |r.blocks| == 0 then Faulted(r)
      else r.(curBlock := (r.curBlock + 1) % |r.blocks|, idx := 0,
              pc := if held.Some? then Returned(Got(held.value)) else CheckStop)
    case Idle => r
    case Returned(_) => r
  }

  // ----- the system: kernel, signal handler, receiver -----

  /**
    Fill: the kernel writes into a block it owns. Retire: it hands over the next block of the
    cycle, with a status that has the user bit. RequestStop: the signal handler.
   */
  datatype Move =
    | Fill(i: nat, numPkts: u32, first: u32, mem: map<nat, Header>)
    | Retire(i: nat, status: u32, pkts: seq<Pkt>, first: u32, mem: map<nat, Header>)
    | RequestStop

  /** A move from outside, the start of a call, or a step of it. */
  datatype Action = Outside(move: Move) | Call | Advance(pollFails: bool)

  /** What a move does to the shared memory. */
  function Touch(r: Socket, v: Move): (r': Socket)
    ensures r'.pc == r.pc && |r'.blocks| == |r.blocks|
  {
    match v
    case Fill(i, numPkts, first, mem) =>
      if i < |r.blocks| then r.(blocks := r.blocks[i := Block(r.blocks[i].status, numPkts, first, mem)]) else r
    case Retire(i, status, pkts, first, mem) =>
      if i < |r.blocks| && |pkts| < TWO32 then r.(blocks := r.blocks[i := Block(status, |pkts|, first, mem)]) else r
    case RequestStop => r.(stop := true)
  }

  /** History: every retired block's packets, how many blocks came back, every frame delivered. */
  datatype System = System(socket: Socket, kblock: nat, retired: seq<seq<Pkt>>, released: nat,
                           delivered: seq<CapturedFrame>)

  /** The kernel writes only to blocks whose status says that they are its own. */
  predicate LegalMove(s: System, v: Move) {
    match v
    case Fill(i, _, _, _) => i < |s.socket.blocks| && !User(s.socket.blocks[i])
    case Retire(i, status, pkts, first, mem) =>
      && i == s.kblock && i < |s.socket.blocks| && !User(s.socket.blocks[i])
      && status % 2 == 1 && |pkts| < TWO32 && Chain(mem, first, pkts)
    case RequestStop => true
  }

  predicate Legal(s: System, a: Action) {
    match a
    case Outside(v) => LegalMove(s, v)
    case Call => !InCall(s.socket.pc)
    case Advance(_) => InCall(s.socket.pc)
  }

  function Moved(s: System, v: Move): System
    requires LegalMove(s, v)
  {
    var s1 := s.(socket := Touch(s.socket, v));
    if v.Retire? then s1.(kblock := (v.i + 1) % |s.socket.blocks|, retired := s.retired + [v.pkts]) else s1
  }

  function Delivery(pc: Pc): seq<CapturedFrame> {
    if pc.Returned? && pc.outcome.Got? then [pc.outcome.frame] else []
  }

  /** The receiver's step, with the history of releases and deliveries. */
  function Advanced(s: System, pollFails: bool): System {
    var r' := Step(s.socket, pollFails);
    s.(socket := r', released := if r'.pc.Advancing? then s.released + 1 else s.released,
       delivered := s.delivered + Delivery(r'.pc))
  }

  function Do(s: System, a: Action): System
    requires Legal(s, a)
  {
    match a
    case Outside(v) => Moved(s, v)
    case Call => s.(socket := s.socket.(pc := CheckStop))
    case Advance(pollFails) => Advanced(s, pollFails)
  }

  predicate Init(s: System) {
    && |s.socket.blocks| > 0
    && (forall i | 0 <= i < |s.socket.blocks| :: !User(s.socket.blocks[i]))
    && s.socket.curBlock == 0 && s.socket.idx == 0 && s.socket.pc == Idle
    && s.kblock == 0 && s.retired == [] && s.released == 0 && s.delivered == []
  }

  predicate LegalRun(s: System, run: seq<Action>)
    decreases |run|
  {
    |run| == 0 || (Legal(s, run[0]) && LegalRun(Do(s, run[0]), run[1..]))
  }

  function Exec(s: System, run: seq<Action>): System
    requires LegalRun(s, run)
    decreases |run|
  {
    if |run| == 0 then s else Exec(Do(s, run[0]), run[1..])
  }

  // ----- what every step keeps -----

  /** Block number j of the whole capture lives in this slot. */
  function Slot(j: nat, n: nat): (k: nat)
    requires n > 0
    ensures k < n
  {
    j % n
  }

  predicate Holds(b: Block, pkts: seq<Pkt>) {
    User(b) && b.numPkts == |pkts| && Chain(b.mem, b.first, pkts)
  }

  /** The number of the block under the cursor; it is already given back while the cursor advances. */
  function CurrentNumber(s: System): int {
    if s.socket.pc.Advancing? then s.released - 1 else s.released
  }

  /** Retired and not yet released blocks are the process's, intact; all others are the kernel's. */
  ghost predicate Ownership(s: System) {
    var n := |s.socket.blocks|;
    && n > 0 && s.released <= |s.retired| <= s.released + n
    && s.kblock == Slot(|s.retired|, n)
    && CurrentNumber(s) >= 0 && s.socket.curBlock == Slot(CurrentNumber(s), n)
    && (forall j | s.released <= j < |s.retired| :: Holds(s.socket.blocks[Slot(j, n)], s.retired[j]))
    && (forall j | |s.retired| <= j < s.released + n :: !User(s.socket.blocks[Slot(j, n)]))
  }

  /** The cursor stands at the header of packet idx of the current block. */
  ghost predicate AtPacket(s: System) {
    var r := s.socket;
    && r.curBlock < |r.blocks| && s.released < |s.retired|
    && r.idx < r.num == |s.retired[s.released]|
    && Chain(r.blocks[r.curBlock].mem, r.off, s.retired[s.released][r.idx..])
  }

  /** What the receiver has found out at each of its steps. */
  ghost predicate Cursor(s: System) {
    var r := s.socket;
    match r.pc
    case Polling => r.idx == 0
    case LoadCount => r.idx == 0 && s.released < |s.retired|
    case LoadOffset => r.idx == 0 && s.released < |s.retired| && r.num == |s.retired[s.released]|
    case Copying => AtPacket(s)
    case Stamping(data) => AtPacket(s) && data == Clipped(s.retired[s.released][r.idx].data)
    case Counting(f) => AtPacket(s) && f == Received(s.retired[s.released][r.idx])
    case Storing(held) =>
      && s.released < |s.retired| && r.idx == |s.retired[s.released]|
      && held == Last(s.retired[s.released])
    case Advancing(held) => 0 < s.released <= |s.retired| && held == Last(s.retired[s.released - 1])
    case Returned(Fault) => false
    case _ => r.idx == 0 || AtPacket(s)
  }

  /** The frame of a block's last packet, if it has one. */
  function Last(pkts: seq<Pkt>): Option<CapturedFrame> {
    if |pkts| == 0 then None else Some(Received(pkts[|pkts| - 1]))
  }

  function Frames(pkts: seq<Pkt>): seq<CapturedFrame> {
    seq(|pkts|, i requires 0 <= i < |pkts| => Received(pkts[i]))
  }

  /** All packets of these blocks, in order. */
  function AllOf(blocks: seq<seq<Pkt>>): seq<CapturedFrame> {
    if |blocks| == 0 then [] else AllOf(blocks[..|blocks| - 1]) + Frames(blocks[|blocks| - 1])
  }

  /** The same packets as the kernel stored them. */
  function AllPackets(retired: seq<seq<Pkt>>): seq<Pkt> {
    if |retired| == 0 then [] else AllPackets(retired[..|retired| - 1]) + retired[|retired| - 1]
  }

  /** A frame that is copied out of its block but not yet returned. */
  function CopiedOut(pc: Pc): seq<CapturedFrame> {
    if (pc.Storing? || pc.Advancing?) && pc.held.Some? then [pc.held.value] else []
  }

  /** Packets of the current block that are read. */
  function ReadHere(s: System): nat {
    if s.socket.pc.Advancing? then 0 else s.socket.idx
  }

  /** Delivered or in hand: every packet of every released block, and those read of the current one. */
  ghost predicate InOrder(s: System) {
    && s.released <= |s.retired|
    && (ReadHere(s) > 0 ==> s.released < |s.retired| && ReadHere(s) <= |s.retired[s.released]|)
    && s.delivered + CopiedOut(s.socket.pc)
       == AllOf(s.retired[..s.released])
        + (if ReadHere(s) == 0 then [] else Frames(s.retired[s.released][..ReadHere(s)]))
  }

  ghost predicate Inv(s: System) {
    Ownership(s) && Cursor(s) && InOrder(s)
  }

  // ----- slots -----

  lemma SlotShift(j: nat, d: nat, n: nat)
    requires n > 0 && d <= n
    ensures Slot(j + d, n) == if Slot(j, n) + d < n then Slot(j, n) + d else Slot(j, n) + d - n
  {
    var q, r := j / n, j % n;
    assert j == q * n + r;
    if r + d < n {
      DivUnique(j + d, n, q, r + d);
    } else {
      assert (q + 1) * n == q * n + n;
      DivUnique(j + d, n, q + 1, r + d - n);
    }
  }

  lemma SlotsDiffer(i: nat, j: nat, n: nat)
    requires n > 0 && i < j < i + n
    ensures Slot(i, n) != Slot(j, n)
  {
    hide Slot;
    SlotShift(i, j - i, n);
  }

  lemma SlotNext(j: nat, n: nat)
    requires n > 0
    ensures Slot(j + 1, n) == (Slot(j, n) + 1) % n
  {
    SlotShift(j, 1, n);
    if j % n + 1 < n {
      DivUnique(j % n + 1, n, 0, j % n + 1);
    } else {
      DivUnique(n, n, 1, 0);
    }
  }
}
