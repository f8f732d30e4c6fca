/** Progress of the whole capture: whatever the kernel has retired, the program prints by its own steps. */
module PipelineDrain {
  import opened Pipeline
  import R = Ring
  import RingProtocol
  import Q = Queue
  import QueueProtocol

  /** Running: no stop requested, and the capture thread still in its loop. */
  ghost predicate Running(s: Pipe) {
    Inv(s) && s.threads.max >= 1 && !s.ring.socket.stop && !Q.Leaving(s.threads.producer)
  }

  function Undelivered(r: R.System): int {
    |R.AllOf(r.retired)| - |r.delivered|
  }

  /** Steps still to take: of the threads, of the receiver, and for each frame it has yet to return. */
  function DrainWork(s: Pipe): int
    requires s.ring.released <= |s.ring.retired|
  {
    Q.Work(s.threads) + RingProtocol.Pending(s.ring) + 12 * Undelivered(s.ring)
  }

  /** Something is left to do. */
  predicate Busy(s: Pipe) {
    || Q.CanConsume(s.threads) || Q.CanProduce(s.threads)
    || (s.threads.producer.Receiving? && !RingProtocol.Drained(s.ring))
  }

  /** The program's next step: the printing thread first, then the capture thread, then the receiver. */
  function NextOwn(s: Pipe): Action {
    if Q.CanConsume(s.threads) then Inside(Q.Consume)
    else if Q.CanProduce(s.threads) then Inside(Q.Produce)
    else Receiver(RingProtocol.Next(s.ring, false))
  }

  // ----- one step -----

  /** Without a stop and with poll working, a call returns nothing but frames. */
  lemma ReturnsFrames(s: R.System)
    requires R.Inv(s) && !s.socket.stop
    ensures R.Legal(s, RingProtocol.Next(s, false))
    ensures var pc := R.Do(s, RingProtocol.Next(s, false)).socket.pc; pc.Returned? ==> pc.outcome.Got?
  {
    RingProtocol.ReadsAreSafe(s);
    hide R.Ownership, R.InOrder, R.AtPacket, R.Clipped, R.User;
  }

  lemma ReceiverDrains(s: Pipe)
    requires Running(s) && s.threads.producer.Receiving? && !RingProtocol.Drained(s.ring)
    ensures var a := Receiver(RingProtocol.Next(s.ring, false));
            && Legal(s, a)
            && var s' := Do(s, a);
               && Running(s') && s'.ring.retired == s.ring.retired && DrainWork(s') < DrainWork(s)
  {
    var next := RingProtocol.Next(s.ring, false);
    ReturnsFrames(s.ring);
    RingProtocol.NextProgress(s.ring, false);
    ReceiverKeeps(s, next);
    Returns(s.ring, next);
    hide R.Inv, Q.Inv, R.Do, R.Legal, RingProtocol.Pending, RingProtocol.Next, R.AllOf;
  }

  lemma ThreadDrains(s: Pipe, step: Q.Action)
    requires Running(s) && (step == Q.Consume || step == Q.Produce) && Q.Legal(s.threads, step)
    ensures Legal(s, Inside(step))
    ensures var s' := Do(s, Inside(step));
            Running(s') && s'.ring == s.ring && DrainWork(s') < DrainWork(s)
  {
    InsideKeeps(s, step);
    QueueProtocol.StepBudget(s.threads, step);
    StaysInLoop(s.threads, step);
    hide R.Inv, Q.Inv, Q.Do, Q.Work, RingProtocol.Pending;
  }

  /** Only a stop, a failed poll or a failed record ends the capture thread's loop. */
  lemma StaysInLoop(t: Q.State, step: Q.Action)
    requires (step == Q.Consume || step == Q.Produce) && Q.Legal(t, step) && !Q.Leaving(t.producer)
    ensures !Q.Leaving(Q.Do(t, step).producer)
  {
  }

  lemma OwnDrains(s: Pipe)
    requires Running(s) && Busy(s)
    ensures Legal(s, NextOwn(s))
    ensures var s' := Do(s, NextOwn(s));
            Running(s') && s'.ring.retired == s.ring.retired && DrainWork(s') < DrainWork(s)
  {
    hide Inv, Do, DrainWork, RingProtocol.Next, RingProtocol.Drained;
    if Q.CanConsume(s.threads) {
      ThreadDrains(s, Q.Consume);
    } else if Q.CanProduce(s.threads) {
      ThreadDrains(s, Q.Produce);
    } else {
      ReceiverDrains(s);
    }
  }

  // ----- at rest -----

  /** With nothing left to do, everything is printed. */
  lemma RestHasPrinted(s: Pipe)
    requires Running(s) && !Busy(s)
    ensures s.threads.printed == R.AllOf(s.ring.retired)
  {
    var t := s.threads;
    hide R.Inv;
    if !t.producer.Receiving? {
      QueueProtocol.StuckIsComplete(t);
      assert false;
    }
    RingProtocol.DrainedHasAll(s.ring);
    assert t.consumer.PopAsleep? && |t.queue| == 0 && |t.lost| == 0;
    InvConserves(t);
    assert Buffered(t) == [];
    assert t.printed + [] == t.printed;
  }

  // ----- the bound -----

  lemma {:induction false} PacketsAreFrames(retired: seq<seq<R.Pkt>>, k: nat)
    requires k <= |retired|
    ensures |R.AllOf(retired)| == |R.AllOf(retired[..k])| + RingProtocol.Packets(retired[k..])
    decreases |retired| - k
  {
    if k == |retired| {
      assert retired[..k] == retired;
    } else {
      PacketsAreFrames(retired, k + 1);
      RingProtocol.AllOfStep(retired, k);
      assert retired[k..][1..] == retired[k + 1..];
    }
  }

  lemma PendingBound(s: R.System)
    requires R.Inv(s)
    ensures RingProtocol.Pending(s) <= 8 * Undelivered(s) + 10 * (|s.retired| - s.released) + 11
  {
    PacketsAreFrames(s.retired, s.released);
    hide R.AllOf, R.Ownership, R.Cursor, RingProtocol.Packets, R.Received;
    assert |s.delivered + R.CopiedOut(s.socket.pc)| == |R.AllOf(s.retired[..s.released])| + R.ReadHere(s);
  }

  lemma DrainBound(s: Pipe)
    requires Inv(s)
    ensures DrainWork(s) <= 20 * Undelivered(s.ring) + 10 * (|s.ring.retired| - s.ring.released)
                          + 6 * s.threads.max + 37
  {
    PendingBound(s.ring);
    hide R.Inv, Q.Control, Q.Recorded, RingProtocol.Pending, R.AllOf;
  }

  // ----- the run -----

  /** The program's own steps, none of them a spurious wakeup or a failed record. */
  predicate OwnRun(run: seq<Action>) {
    forall k | 0 <= k < |run| :: OwnStep(run[k])
  }

  predicate OwnStep(a: Action) {
    !a.Outside? && !Spurious(a) && !(a.Inside? && a.step.RecordFails?)
  }

  lemma NextIsOwn(s: Pipe)
    ensures OwnStep(NextOwn(s))
  {
  }

  lemma DrainWorkPositive(s: Pipe)
    requires Inv(s)
    ensures s.ring.released <= |s.ring.retired| && DrainWork(s) > 0
  {
    RingProtocol.PendingPositive(s.ring);
    RingProtocol.DeliveredPrefix(s.ring);
    hide R.Inv, Q.Inv, Q.Work, RingProtocol.Pending, R.AllOf;
  }

  lemma {:induction false} DrainsFrom(s: Pipe) returns (run: seq<Action>)
    requires Running(s)
    ensures LegalRun(s, run) && OwnRun(run) && |run| <= DrainWork(s)
    ensures var s' := Exec(s, run);
            s'.ring.retired == s.ring.retired && s'.threads.printed == R.AllOf(s.ring.retired)
    decreases if s.ring.released <= |s.ring.retired| then DrainWork(s) else 0
  {
    hide Inv, Do, Legal, DrainWork, Busy, NextOwn, OwnStep;
    DrainWorkPositive(s);
    if Busy(s) {
      var a := NextOwn(s);
      OwnDrains(s);
      NextIsOwn(s);
      var s' := Do(s, a);
      DrainWorkPositive(s');
      var rest := DrainsFrom(s');
      run := [a] + rest;
      assert run[1..] == rest;
    } else {
      run := [];
      RestHasPrinted(s);
    }
  }

  /**
    From every state of every run in which no stop is requested and the capture thread is in its
    loop, the program's own steps lead to a state in which every packet of every retired block is
    printed: at most twenty for each frame not yet received, ten for each block not yet given
    back, six for each place in the queue, and 37 more.
   */
  lemma PrintsEverything(s0: Pipe, before: seq<Action>) returns (run: seq<Action>)
    requires Init(s0) && s0.threads.max >= 1 && LegalRun(s0, before)
    requires !Exec(s0, before).ring.socket.stop && !Q.Leaving(Exec(s0, before).threads.producer)
    ensures var s := Exec(s0, before);
            && LegalRun(s, run) && OwnRun(run)
            && |run| <= 20 * Undelivered(s.ring) + 10 * (|s.ring.retired| - s.ring.released) + 6 * s0.threads.max + 37
            && var s' := Exec(s, run);
               s'.ring.retired == s.ring.retired && s'.threads.printed == R.AllOf(s.ring.retired)
  {
    hide Inv, Do, Legal, DrainWork;
    Reachable(s0, before);
    var s := Exec(s0, before);
    DrainBound(s);
    run := DrainsFrom(s);
  }
}
