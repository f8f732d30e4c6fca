/** No lost wakeup, no deadlock, conservation and termination of the two-thread pipeline. */
module QueueProtocol {
  import opened Ring
  import Q = Queue
  import opened Queue

  // ----- one step -----

  lemma ProducerControl(s: State)
    requires Control(s) && CanProduce(s)
    ensures Control(ProducerStep(s))
  {
  }

  lemma ProducerFrames(s: State)
    requires Q.Inv(s) && CanProduce(s)
    ensures Conserved(ProducerStep(s)) && Recorded(ProducerStep(s))
  {
  }

  lemma ConsumerControl(s: State)
    requires Control(s) && CanConsume(s)
    ensures Control(ConsumerStep(s))
  {
  }

  lemma ConsumerFrames(s: State)
    requires Conserved(s) && Recorded(s) && CanConsume(s)
    ensures Conserved(ConsumerStep(s)) && Recorded(ConsumerStep(s))
  {
    if s.consumer.PopHeld? && |s.queue| > 0 {
      assert s.queue == [s.queue[0]] + s.queue[1..];
      assert s.popped + s.queue == s.popped + [s.queue[0]] + s.queue[1..];
    }
  }

  lemma OtherKeeps(s: State, a: Q.Action)
    requires Q.Inv(s) && Q.Legal(s, a) && !a.Produce? && !a.Consume?
    ensures Q.Inv(Q.Do(s, a))
  {
    hide ProducerStep, ConsumerStep;
  }

  lemma StepKeeps(s: State, a: Q.Action)
    requires Q.Inv(s) && Q.Legal(s, a)
    ensures Q.Inv(Q.Do(s, a)) && Q.Do(s, a).max == s.max && Q.Do(s, a).pcap == s.pcap
  {
    hide Control, Conserved, Recorded;
    match a
    case Produce =>
      ProducerControl(s);
      ProducerFrames(s);
    case Consume =>
      ConsumerControl(s);
      ConsumerFrames(s);
    case _ =>
      OtherKeeps(s, a);
  }

  // ----- every run -----

  lemma {:induction false} RunKeeps(s: State, run: seq<Q.Action>)
    requires Q.Inv(s) && Q.LegalRun(s, run)
    ensures Q.Inv(Q.Exec(s, run)) && Q.Exec(s, run).max == s.max && Q.Exec(s, run).pcap == s.pcap
    decreases |run|
  {
    hide Q.Inv, Q.Do, Q.Legal;
    if |run| > 0 {
      StepKeeps(s, run[0]);
      RunKeeps(Q.Do(s, run[0]), run[1..]);
    }
  }

  lemma Reachable(max: nat, pcap: bool, run: seq<Q.Action>)
    requires Q.LegalRun(Start(max, pcap), run)
    ensures var s := Q.Exec(Start(max, pcap), run); Q.Inv(s) && s.max == max && s.pcap == pcap
  {
    assert Q.Inv(Start(max, pcap));
    hide Q.Inv, Q.Do, Q.Legal;
    RunKeeps(Start(max, pcap), run);
  }

  /**
    Safety of every run: mutual exclusion, a pending notification for every sleeper whose
    condition holds, the two threads never asleep together, at most max frames queued.
   */
  lemma NeverBothAsleep(max: nat, pcap: bool, run: seq<Q.Action>)
    requires max >= 1 && Q.LegalRun(Start(max, pcap), run)
    ensures var s := Q.Exec(Start(max, pcap), run);
            && Mutex(s) && NoLostWakeup(s) && |s.queue| <= max
            && !(s.producer.PushAsleep? && s.consumer.PopAsleep?)
  {
    Reachable(max, pcap, run);
  }

  // ----- deadlock -----

  lemma StuckIsComplete(s: State)
    requires Q.Inv(s) && s.max >= 1 && Stuck(s)
    ensures Complete(s)
  {
  }

  /** Both threads circle around an empty queue without room: asleep, or awake for nothing. */
  predicate NoWayOut(s: State) {
    && s.max == 0 && |s.queue| == 0 && !s.closed
    && (s.producer.PushLock? || s.producer.PushHeld? || s.producer.PushAsleep?)
    && (s.consumer.PopLock? || s.consumer.PopHeld? || s.consumer.PopAsleep?)
  }

  lemma NoWayOutStays(s: State, a: Q.Action)
    requires NoWayOut(s) && Q.Legal(s, a)
    ensures NoWayOut(Q.Do(s, a)) && Q.Do(s, a).printed == s.printed && Q.Do(s, a).received == s.received
  {
  }

  lemma {:induction false} NeverOut(s: State, run: seq<Q.Action>)
    requires NoWayOut(s) && Q.LegalRun(s, run)
    ensures var s' := Q.Exec(s, run); NoWayOut(s') && s'.printed == s.printed && s'.received == s.received
    decreases |run|
  {
    hide NoWayOut, Q.Do, Q.Legal;
    if |run| > 0 {
      NoWayOutStays(s, run[0]);
      NeverOut(Q.Do(s, run[0]), run[1..]);
    }
  }

  /**
    With no room at all, the first frame puts both threads to sleep, and for good: nothing but a
    spurious wakeup is possible, and no continuation, however many of them it has, prints or
    receives a frame or ends either thread.
   */
  lemma NoRoomDeadlocks(pcap: bool, f: CapturedFrame, more: seq<Q.Action>) returns (run: seq<Q.Action>)
    ensures Q.LegalRun(Start(0, pcap), run)
    ensures var s := Q.Exec(Start(0, pcap), run);
            && Stuck(s) && s.received == [f] && s.producer.PushAsleep? && s.consumer.PopAsleep?
            && (Q.LegalRun(s, more) ==>
                  var s' := Q.Exec(s, more);
                  s'.printed == [] && s'.received == [f] && !s'.producer.Ended? && !s'.consumer.Finished?)
  {
    var s0 := Start(0, pcap);
    var s1 := Q.Do(s0, Q.Receive(f));
    var s2 := Q.Do(s1, Produce);
    var s3 := Q.Do(s2, Produce);
    var s4 := Q.Do(s3, Produce);
    var s5 := Q.Do(s4, Consume);
    var s6 := Q.Do(s5, Consume);
    assert NoWayOut(s6) && Stuck(s6) && s6.received == [f] && s6.printed == [] by { assert [] + [f] == [f]; }
    if Q.LegalRun(s6, more) {
      NeverOut(s6, more);
    }
    hide Q.Do, Q.Legal, Stuck;
    run := Chained(s5, Consume, []);
    run := Chained(s4, Consume, run);
    run := Chained(s3, Produce, run);
    run := Chained(s2, Produce, run);
    run := Chained(s1, Produce, run);
    run := Chained(s0, Q.Receive(f), run);
  }

  lemma Chained(s: State, a: Q.Action, rest: seq<Q.Action>) returns (run: seq<Q.Action>)
    requires Q.Legal(s, a) && Q.LegalRun(Q.Do(s, a), rest)
    ensures Q.LegalRun(s, run) && Q.Exec(s, run) == Q.Exec(Q.Do(s, a), rest)
  {
    run := [a] + rest;
    assert run[1..] == rest;
  }

  /** No run gets stuck before both threads are done, exactly when the queue has room for a frame. */
  lemma DeadlockFreeExactlyWhen(max: nat, pcap: bool)
    ensures (forall run | Q.LegalRun(Start(max, pcap), run) ::
               Stuck(Q.Exec(Start(max, pcap), run)) ==> Complete(Q.Exec(Start(max, pcap), run)))
       <==> max >= 1
  {
    if max >= 1 {
      forall run | Q.LegalRun(Start(max, pcap), run) && Stuck(Q.Exec(Start(max, pcap), run))
        ensures Complete(Q.Exec(Start(max, pcap), run))
      {
        Reachable(max, pcap, run);
        StuckIsComplete(Q.Exec(Start(max, pcap), run));
      }
    } else {
      var run := NoRoomDeadlocks(pcap, CapturedFrame([], 0, 0), []);
    }
  }

  // ----- conservation -----

  /**
    Every frame received is printed, at hand, queued, in flight or lost, in order and once; it is
    lost only if its own record failed; and it is in the file before it is printed.
   */
  lemma FramesConserved(max: nat, pcap: bool, run: seq<Q.Action>)
    requires Q.LegalRun(Start(max, pcap), run)
    ensures var s := Q.Exec(Start(max, pcap), run);
            && s.received == s.printed + InHand(s.consumer) + s.queue + InFlight(s.producer) + s.lost
            && |s.queue| <= max && |s.lost| <= 1 && (|s.lost| == 1 ==> pcap && Leaving(s.producer))
            && (pcap ==> s.printed <= s.recorded)
  {
    Reachable(max, pcap, run);
    hide Control;
    var s := Q.Exec(Start(max, pcap), run);
    assert LostOnlyByRecord(s);
    PrintedPrefix(s);
  }

  lemma PrintedPrefix(s: State)
    requires Conserved(s) && Recorded(s) && LostOnlyByRecord(s)
    ensures s.pcap ==> s.printed <= s.recorded
  {
    if s.pcap {
      var kept := s.printed + InHand(s.consumer) + s.queue + InFlight(s.producer);
      assert s.received == kept + s.lost == s.recorded + Unrecorded(s.producer) + s.lost;
      var n := |s.received| - |s.lost|;
      assert kept == s.received[..n] == s.recorded + Unrecorded(s.producer);
      assert |s.printed| <= |s.recorded|;
      assert s.printed == kept[..|s.printed|];
    }
  }

  /** When the printing loop ends, every frame handed to push has been printed. */
  lemma FinishedHasSeenAll(max: nat, pcap: bool, run: seq<Q.Action>)
    requires Q.LegalRun(Start(max, pcap), run) && Q.Exec(Start(max, pcap), run).consumer.Finished?
    ensures var s := Q.Exec(Start(max, pcap), run);
            s.received == s.printed + s.lost && (pcap ==> s.printed == s.recorded)
  {
    Reachable(max, pcap, run);
    var s := Q.Exec(Start(max, pcap), run);
    assert s.printed + [] + [] + [] == s.printed;
    if pcap {
      assert s.received[..|s.received| - |s.lost|] == s.printed == s.recorded;
    }
  }

  function Failures(run: seq<Q.Action>): nat {
    if |run| == 0 then 0 else (if run[0].RecordFails? then 1 else 0) + Failures(run[1..])
  }

  lemma {:induction false} LostAreFailures(s: State, run: seq<Q.Action>)
    requires Q.Inv(s) && Q.LegalRun(s, run)
    ensures |Q.Exec(s, run).lost| == |s.lost| + Failures(run)
    decreases |run|
  {
    if |run| > 0 {
      StepKeeps(s, run[0]);
      assert |Q.Do(s, run[0]).lost| == |s.lost| + if run[0].RecordFails? then 1 else 0;
      hide Q.Inv, Q.Do, Q.Legal;
      LostAreFailures(Q.Do(s, run[0]), run[1..]);
    }
  }

  /** The branch of push for a closed queue never drops a frame: nothing is lost unless a record failed. */
  lemma NothingLostExactlyWhen(max: nat, pcap: bool, run: seq<Q.Action>)
    requires Q.LegalRun(Start(max, pcap), run)
    ensures Q.Exec(Start(max, pcap), run).lost == [] <==> Failures(run) == 0
  {
    assert Q.Inv(Start(max, pcap));
    hide Q.Inv, Q.Do, Q.Legal;
    LostAreFailures(Start(max, pcap), run);
  }

  // ----- termination -----

  lemma ProducerBudget(s: State)
    requires CanProduce(s) && ClosedLast(s)
    ensures Q.Work(ProducerStep(s)) < Q.Work(s)
  {
  }

  lemma ConsumerBudget(s: State)
    requires CanConsume(s)
    ensures Q.Work(ConsumerStep(s)) < Q.Work(s)
  {
  }

  /** What an action adds to the work to be done. */
  function Credit(a: Q.Action): int {
    match a
    case Receive(_) => 12
    case WakeProducer => 2
    case WakeConsumer => 2
    case _ => -1
  }

  /** Every step uses up work; a frame brings 12 units, a spurious wakeup 2. */
  lemma StepBudget(s: State, a: Q.Action)
    requires Q.Inv(s) && Q.Legal(s, a)
    ensures Q.Work(Q.Do(s, a)) <= Q.Work(s) + Credit(a)
  {
    hide ProducerStep, ConsumerStep, Conserved, Recorded;
    match a
    case Produce => ProducerBudget(s);
    case Consume => ConsumerBudget(s);
    case _ =>
  }

  /** In every run there are at most 13 steps per frame, 3 per spurious wakeup, and the work at the start (10). */
  lemma {:induction false} RunBudget(s: State, run: seq<Q.Action>)
    requires Q.Inv(s) && Q.LegalRun(s, run)
    ensures |run| + Q.Work(Q.Exec(s, run)) <= Q.Work(s) + 13 * Receives(run) + 3 * Wakes(run)
    decreases |run|
  {
    hide Q.Inv, Q.Do, Q.Legal, Q.Work;
    if |run| > 0 {
      StepBudget(s, run[0]);
      StepKeeps(s, run[0]);
      RunBudget(Q.Do(s, run[0]), run[1..]);
    }
  }

  /** The producer that has left its loop never comes back to it. */
  lemma LeavingStays(s: State, a: Q.Action)
    requires Q.Legal(s, a) && Leaving(s.producer)
    ensures Leaving(Q.Do(s, a).producer)
  {
  }

  lemma {:induction false} NoMoreFrames(s: State, run: seq<Q.Action>)
    requires Leaving(s.producer) && Q.LegalRun(s, run)
    ensures Receives(run) == 0 && Leaving(Q.Exec(s, run).producer)
    decreases |run|
  {
    if |run| > 0 {
      LeavingStays(s, run[0]);
      hide Q.Do, Q.Legal;
      NoMoreFrames(Q.Do(s, run[0]), run[1..]);
    }
  }

  /**
    Shutdown: once the producer has left its loop, a run without spurious wakeups is no longer
    than the work left, and where it cannot go on, both threads are done and everything is printed.
   */
  lemma ShutdownCompletes(s: State, run: seq<Q.Action>)
    requires Q.Inv(s) && s.max >= 1 && Leaving(s.producer)
    requires Q.LegalRun(s, run) && Wakes(run) == 0
    ensures |run| <= Q.Work(s)
    ensures var s' := Q.Exec(s, run);
            Stuck(s') ==> Complete(s') && s'.received == s'.printed + s'.lost
  {
    RunBudget(s, run);
    NoMoreFrames(s, run);
    RunKeeps(s, run);
    var s' := Q.Exec(s, run);
    if Stuck(s') {
      StuckIsComplete(s');
      assert s'.printed + [] + [] + [] == s'.printed;
    }
  }
}
