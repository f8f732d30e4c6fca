/**
  The whole capture (src/main.cpp, src/c/capture_backend_linux.c): the kernel's ring, the capture
  thread that receives from it, the queue, and the printing thread.
 */
module Pipeline {
  import R = Ring
  import RingProtocol
  import Q = Queue
  import QueueProtocol

  datatype Pipe = Pipe(ring: R.System, threads: Q.State)

  /** A move of kernel or signal handler, an action of raw_socket_recv, or a step of a thread. */
  datatype Action = Outside(move: R.Move) | Receiver(action: R.Action) | Inside(step: Q.Action)

  predicate Legal(s: Pipe, a: Action) {
    match a
    case Outside(move) => R.LegalMove(s.ring, move)
    case Receiver(action) => !action.Outside? && s.threads.producer.Receiving? && R.Legal(s.ring, action)
    case Inside(step) => !step.Receive? && !step.Leave? && Q.Legal(s.threads, step)
  }

  /** The loop of run_impl: when the call returns, a frame goes on to the record, and anything else ends the loop. */
  function Handled(threads: Q.State, pc: R.Pc): Q.State
    requires threads.producer.Receiving?
  {
    if !pc.Returned? then threads
    else if pc.outcome.Got? then Q.Do(threads, Q.Receive(pc.outcome.frame))
    else Q.Do(threads, Q.Leave)
  }

  function Do(s: Pipe, a: Action): Pipe
    requires Legal(s, a)
  {
    match a
    case Outside(move) => s.(ring := R.Moved(s.ring, move))
    case Receiver(action) =>
      var ring := R.Do(s.ring, action);
      Pipe(ring, Handled(s.threads, ring.socket.pc))
    case Inside(step) => s.(threads := Q.Do(s.threads, step))
  }

  predicate LegalRun(s: Pipe, run: seq<Action>)
    decreases |run|
  {
    |run| == 0 || (Legal(s, run[0]) && LegalRun(Do(s, run[0]), run[1..]))
  }

  function Exec(s: Pipe, run: seq<Action>): Pipe
    requires LegalRun(s, run)
    decreases |run|
  {
    if |run| == 0 then s else Exec(Do(s, run[0]), run[1..])
  }

  predicate Init(s: Pipe) {
    R.Init(s.ring) && s.threads == Q.Start(s.threads.max, s.threads.pcap)
  }

  ghost predicate Inv(s: Pipe) {
    R.Inv(s.ring) && Q.Inv(s.threads) && s.threads.received == s.ring.delivered
  }

  lemma OutsideKeeps(s: Pipe, move: R.Move)
    requires Inv(s) && R.LegalMove(s.ring, move)
    ensures Inv(Do(s, Outside(move))) && Do(s, Outside(move)).threads.max == s.threads.max
  {
    hide R.Inv, Q.Inv, R.Touch;
    RingProtocol.MoveKeeps(s.ring, move);
  }

  /** What a step returns is exactly what the history of deliveries gains. */
  lemma Returns(s: R.System, a: R.Action)
    requires R.Legal(s, a) && !a.Outside?
    ensures R.Do(s, a).delivered == s.delivered + R.Delivery(R.Do(s, a).socket.pc)
  {
    hide R.Step;
  }

  lemma ReceiverKeeps(s: Pipe, action: R.Action)
    requires Inv(s) && Legal(s, Receiver(action))
    ensures Inv(Do(s, Receiver(action))) && Do(s, Receiver(action)).threads.max == s.threads.max
  {
    hide R.Inv, Q.Inv, R.Do, R.Legal;
    RingProtocol.StepKeeps(s.ring, action);
    Returns(s.ring, action);
    var pc := R.Do(s.ring, action).socket.pc;
    var got := pc.Returned? && pc.outcome.Got?;
    QueueProtocol.StepKeeps(s.threads, if got then Q.Receive(pc.outcome.frame) else Q.Leave);
  }

  lemma InsideKeeps(s: Pipe, step: Q.Action)
    requires Inv(s) && Legal(s, Inside(step))
    ensures Inv(Do(s, Inside(step))) && Do(s, Inside(step)).threads.max == s.threads.max
  {
    QueueProtocol.StepKeeps(s.threads, step);
    hide R.Inv, Q.Inv;
  }

  lemma StepKeeps(s: Pipe, a: Action)
    requires Inv(s) && Legal(s, a)
    ensures Inv(Do(s, a)) && Do(s, a).threads.max == s.threads.max
  {
    hide Inv, Do;
    match a
    case Outside(move) => OutsideKeeps(s, move);
    case Receiver(action) => ReceiverKeeps(s, action);
    case Inside(step) => InsideKeeps(s, step);
  }

  lemma {:induction false} RunKeeps(s: Pipe, run: seq<Action>)
    requires Inv(s) && LegalRun(s, run)
    ensures Inv(Exec(s, run)) && Exec(s, run).threads.max == s.threads.max
    decreases |run|
  {
    hide Inv, Do, Legal;
    if |run| > 0 {
      StepKeeps(s, run[0]);
      RunKeeps(Do(s, run[0]), run[1..]);
    }
  }

  lemma Reachable(s0: Pipe, run: seq<Action>)
    requires Init(s0) && LegalRun(s0, run)
    ensures Inv(Exec(s0, run)) && Exec(s0, run).threads.max == s0.threads.max
  {
    hide Inv, Init, Do, Legal;
    InitKeeps(s0);
    RunKeeps(s0, run);
  }

  lemma InitKeeps(s: Pipe)
    requires Init(s)
    ensures Inv(s)
  {
    RingProtocol.InitKeeps(s.ring);
    hide R.Inv;
  }

  /** Frames on their way from the ring to the terminal. */
  function Buffered(t: Q.State): seq<R.CapturedFrame> {
    Q.InHand(t.consumer) + t.queue + Q.InFlight(t.producer) + t.lost
  }

  /**
    End to end, in every run: what is printed, followed by what is buffered, is a prefix of what
    the kernel retired, cut to the buffer size; and no more than max + 2 frames are buffered.
   */
  lemma EndToEnd(s0: Pipe, run: seq<Action>)
    requires Init(s0) && LegalRun(s0, run)
    ensures var s := Exec(s0, run);
            && s.threads.printed + Buffered(s.threads) == s.ring.delivered
            && s.threads.printed <= R.AllOf(s.ring.retired)
            && |Buffered(s.threads)| <= s.threads.max + 2
  {
    Reachable(s0, run);
    var s := Exec(s0, run);
    RingProtocol.DeliveredPrefix(s.ring);
    InvConserves(s.threads);
  }

  lemma InvConserves(t: Q.State)
    requires Q.Inv(t)
    ensures t.printed + Buffered(t) == t.received && |Buffered(t)| <= t.max + 2
  {
  }

  /** When the program ends, it has printed all that raw_socket_recv returned, but for a frame whose record failed. */
  lemma AllPrintedInTheEnd(s0: Pipe, run: seq<Action>)
    requires Init(s0) && LegalRun(s0, run) && Exec(s0, run).threads.consumer.Finished?
    ensures var s := Exec(s0, run);
            s.ring.delivered == s.threads.printed + s.threads.lost && |s.threads.lost| <= 1
  {
    Reachable(s0, run);
    var t := Exec(s0, run).threads;
    InvConserves(t);
    assert Buffered(t) == t.lost && |t.lost| <= 1;
  }

  // ----- shutdown -----

  predicate Spurious(a: Action) {
    a.Inside? && (a.step.WakeProducer? || a.step.WakeConsumer?)
  }

  predicate NoWakes(run: seq<Action>) {
    forall k | 0 <= k < |run| :: !Spurious(run[k])
  }

  /** Actions of the program itself, without those of kernel and signal handler. */
  function Own(run: seq<Action>): nat {
    if |run| == 0 then 0 else (if run[0].Outside? then 0 else 1) + Own(run[1..])
  }

  /** A call that is past its look at the stop flag may still return a frame. */
  function StopRank(pc: R.Pc): nat {
    match pc
    case CheckStatus => 22
    case LoadCount => 21
    case LoadOffset => 20
    case Copying => 19
    case Stamping(_) => 18
    case Counting(_) => 17
    case Storing(_) => 16
    case Advancing(_) => 15
    case Idle => 2
    case Returned(_) => 2
    case Polling => 2
    case CheckStop => 1
  }

  /** Steps left once a stop is requested. */
  function StopWork(s: Pipe): nat {
    Q.Work(s.threads) + if Q.Leaving(s.threads.producer) then 0 else StopRank(s.ring.socket.pc)
  }

  lemma StopWorkBound(s: Pipe)
    requires Inv(s)
    ensures StopWork(s) <= 48 + 6 * s.threads.max
  {
    hide R.Inv, Q.Control, Q.Recorded;
  }

  /** Frames that can still be received once a stop is requested. */
  function StillToCome(s: Pipe): (n: nat)
    ensures n <= 1
  {
    if !Q.Leaving(s.threads.producer) && StopRank(s.ring.socket.pc) >= 15 then 1 else 0
  }

  lemma StopStays(s: Pipe, a: Action)
    requires Legal(s, a) && s.ring.socket.stop
    ensures Do(s, a).ring.socket.stop
  {
  }

  lemma ReceiverStops(s: Pipe, action: R.Action)
    requires s.ring.socket.stop && Legal(s, Receiver(action))
    ensures var s' := Do(s, Receiver(action));
            && StopWork(s') < StopWork(s) && s'.threads.max == s.threads.max
            && |s'.ring.delivered| + StillToCome(s') <= |s.ring.delivered| + StillToCome(s)
  {
    hide R.Clipped, R.User;
    Returns(s.ring, action);
  }

  lemma InsideStops(s: Pipe, step: Q.Action)
    requires Inv(s) && Legal(s, Inside(step)) && !Spurious(Inside(step))
    ensures var s' := Do(s, Inside(step));
            && StopWork(s') < StopWork(s) && s'.threads.max == s.threads.max
            && s'.ring == s.ring && StillToCome(s') <= StillToCome(s)
  {
    QueueProtocol.StepBudget(s.threads, step);
    if Q.Leaving(s.threads.producer) {
      QueueProtocol.LeavingStays(s.threads, step);
    }
    hide R.Inv, Q.Inv, Q.Work, StopRank;
  }

  lemma StepStops(s: Pipe, a: Action)
    requires Inv(s) && Legal(s, a) && s.ring.socket.stop && !Spurious(a)
    ensures var s' := Do(s, a);
            && StopWork(s') + (if a.Outside? then 0 else 1) <= StopWork(s)
            && s'.threads.max == s.threads.max && s'.ring.socket.stop
            && |s'.ring.delivered| + StillToCome(s') <= |s.ring.delivered| + StillToCome(s)
  {
    StopStays(s, a);
    match a
    case Outside(move) => hide R.Inv, Q.Inv, R.User, R.Chain, StopRank, Q.Work;
    case Receiver(action) => ReceiverStops(s, action); hide *;
    case Inside(step) => InsideStops(s, step); hide *;
  }

  lemma {:induction false} StopRun(s: Pipe, run: seq<Action>)
    requires Inv(s) && s.ring.socket.stop && LegalRun(s, run) && NoWakes(run)
    ensures var s' := Exec(s, run);
            && Own(run) + StopWork(s') <= StopWork(s) && s'.threads.max == s.threads.max
            && |s'.ring.delivered| + StillToCome(s') <= |s.ring.delivered| + StillToCome(s)
    decreases |run|
  {
    hide Inv, Do, Legal, StopWork, StillToCome, Spurious;
    if |run| > 0 {
      StepStops(s, run[0]);
      StepKeeps(s, run[0]);
      assert NoWakes(run[1..]);
      StopRun(Do(s, run[0]), run[1..]);
    }
  }

  /** Nothing the program does by itself is possible. */
  ghost predicate AtRest(s: Pipe) {
    forall a: Action | Legal(s, a) :: a.Outside? || Spurious(a)
  }

  lemma AtRestIsStuck(s: Pipe)
    requires AtRest(s)
    ensures Q.Stuck(s.threads)
  {
    var t := s.threads;
    if t.producer.Receiving? {
      var a := Receiver(if R.InCall(s.ring.socket.pc) then R.Advance(false) else R.Call);
      assert Legal(s, a);
      assert false;
    }
    assert !Legal(s, Inside(Q.Produce)) && !Legal(s, Inside(Q.Consume));
  }

  /**
    Shutdown of the whole program: once a stop is requested, a run without spurious wakeups takes
    at most 48 steps of its own and six for each place in the queue, and receives at most one more
    frame, whatever the kernel does; and where it cannot go on, both threads are done and all that
    was received is printed, but for a frame whose record failed.
   */
  lemma ShutdownCompletes(s0: Pipe, before: seq<Action>, run: seq<Action>)
    requires Init(s0) && s0.threads.max >= 1 && LegalRun(s0, before)
    requires Exec(s0, before).ring.socket.stop && LegalRun(Exec(s0, before), run) && NoWakes(run)
    ensures var s := Exec(s0, before);
            var s' := Exec(s, run);
            && Own(run) <= 48 + 6 * s0.threads.max && |s'.ring.delivered| <= |s.ring.delivered| + 1
            && (AtRest(s') ==> && Q.Complete(s'.threads)
                               && s'.ring.delivered == s'.threads.printed + s'.threads.lost && |s'.threads.lost| <= 1)
  {
    hide Inv, Do, Legal, StopWork, StillToCome, AtRest;
    Reachable(s0, before);
    var s := Exec(s0, before);
    StopRun(s, run);
    RunKeeps(s, run);
    StopWorkBound(s);
    if AtRest(Exec(s, run)) {
      RestIsComplete(Exec(s, run));
    }
  }

  lemma RestIsComplete(s: Pipe)
    requires Inv(s) && AtRest(s) && s.threads.max >= 1
    ensures Q.Complete(s.threads) && s.ring.delivered == s.threads.printed + s.threads.lost && |s.threads.lost| <= 1
  {
    hide R.Inv, AtRest;
    AtRestIsStuck(s);
    QueueProtocol.StuckIsComplete(s.threads);
    var t := s.threads;
    InvConserves(t);
    assert Buffered(t) == t.lost;
  }
}
