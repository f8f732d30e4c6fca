/**
  The bounded queue between the capture thread and the printing thread (src/cpp/packet_queue.cpp),
  with the loops around it (src/c/capture_backend_linux.c, src/main.cpp), as a machine of two
  threads, one mutex and two condition variables. A step is what a thread does between two points
  where the other can be scheduled: it takes the mutex, runs a critical section, or notifies.
 */
module Queue {
  import opened Ring

  /** The capture thread: raw_socket_recv, the pcap record, push, and in the end close. */
  datatype Producer =
    | Receiving
    | Recording(frame: CapturedFrame)
    | PushLock(frame: CapturedFrame)
    | PushHeld(frame: CapturedFrame)
    | PushAsleep(frame: CapturedFrame)
    | PushNotify
    | CloseLock | CloseHeld | CloseNotEmpty | CloseNotFull
    | Ended

  /** The printing thread: pop, print, and again. */
  datatype Consumer =
    | PopLock
    | PopHeld
    | PopAsleep
    | PopNotify(frame: CapturedFrame)
    | Printing(frame: CapturedFrame)
    | Finished

  datatype Owner = Free | ByProducer | ByConsumer

  /** With the history of every frame: received, written to the file, lost, popped, printed. */
  datatype State = State(
    max: nat, queue: seq<CapturedFrame>, closed: bool, owner: Owner,
    producer: Producer, consumer: Consumer, pcap: bool,
    received: seq<CapturedFrame>, recorded: seq<CapturedFrame>, lost: seq<CapturedFrame>,
    popped: seq<CapturedFrame>, printed: seq<CapturedFrame>)

  function Start(max: nat, pcap: bool): State {
    State(max, [], false, Free, Receiving, PopLock, pcap, [], [], [], [], [])
  }

  /**
    Receive, Leave: raw_socket_recv returns a frame, or ends the loop. RecordFails: the file
    cannot be written. Produce, Consume: the thread's next step. Wake: a spurious wakeup.
   */
  datatype Action =
    | Receive(frame: CapturedFrame) | Leave | RecordFails
    | Produce | Consume
    | WakeProducer | WakeConsumer

  predicate CanProduce(s: State) {
    match s.producer
    case Receiving => false
    case PushLock(_) => s.owner == Free
    case CloseLock => s.owner == Free
    case PushAsleep(_) => false
    case Ended => false
    case _ => true
  }

  predicate CanConsume(s: State) {
    match s.consumer
    case PopLock => s.owner == Free
    case PopAsleep => false
    case Finished => false
    case _ => true
  }

  predicate Legal(s: State, a: Action) {
    match a
    case Receive(_) => s.producer.Receiving?
    case Leave => s.producer.Receiving?
    case RecordFails => s.producer.Recording? && s.pcap
    case Produce => CanProduce(s)
    case Consume => CanConsume(s)
    case WakeProducer => s.producer.PushAsleep?
    case WakeConsumer => s.consumer.PopAsleep?
  }

  /** A sleeper, once woken, competes for the mutex again. */
  function WokenConsumer(c: Consumer): Consumer {
    if c.PopAsleep? then PopLock else c
  }

  function WokenProducer(p: Producer): Producer {
    if p.PushAsleep? then PushLock(p.frame) else p
  }

  function ProducerStep(s: State): State
    requires CanProduce(s)
  {
    match s.producer
    case Recording(f) => s.(producer := PushLock(f), recorded := if s.pcap then s.recorded + [f] else s.recorded)
    case PushLock(f) => s.(owner := ByProducer, producer := PushHeld(f))
    case PushHeld(f) =>
      if |s.queue| < s.max || s.closed then
        if s.closed then s.(owner := Free, producer := Receiving, lost := s.lost + [f])
        else s.(owner := Free, producer := PushNotify, queue := s.queue + [f])
      else s.(owner := Free, producer := PushAsleep(f))
    case PushNotify => s.(producer := Receiving, consumer := WokenConsumer(s.consumer))
    case CloseLock => s.(owner := ByProducer, producer := CloseHeld)
    case CloseHeld => s.(owner := Free, closed := true, producer := CloseNotEmpty)
    case CloseNotEmpty => s.(producer := CloseNotFull, consumer := WokenConsumer(s.consumer))
    case CloseNotFull => s.(producer := Ended)
  }

  function ConsumerStep(s: State): State
    requires CanConsume(s)
  {
    match s.consumer
    case PopLock => s.(owner := ByConsumer, consumer := PopHeld)
    case PopHeld =>
      if |s.queue| > 0 then
        s.(owner := Free, queue := s.queue[1..], popped := s.popped + [s.queue[0]], consumer := PopNotify(s.queue[0]))
      else if s.closed then s.(owner := Free, consumer := Finished)
      else s.(owner := Free, consumer := PopAsleep)
    case PopNotify(f) => s.(consumer := Printing(f), producer := WokenProducer(s.producer))
    case Printing(f) => s.(consumer := PopLock, printed := s.printed + [f])
  }

  function Do(s: State, a: Action): State
    requires Legal(s, a)
  {
    match a
    case Receive(f) => s.(producer := Recording(f), received := s.received + [f])
    case Leave => s.(producer := CloseLock)
    case RecordFails => s.(producer := CloseLock, lost := s.lost + [s.producer.frame])
    case Produce => ProducerStep(s)
    case Consume => ConsumerStep(s)
    case WakeProducer => s.(producer := WokenProducer(s.producer))
    case WakeConsumer => s.(consumer := WokenConsumer(s.consumer))
  }

  predicate LegalRun(s: State, run: seq<Action>)
    decreases |run|
  {
    |run| == 0 || (Legal(s, run[0]) && LegalRun(Do(s, run[0]), run[1..]))
  }

  function Exec(s: State, run: seq<Action>): State
    requires LegalRun(s, run)
    decreases |run|
  {
    if |run| == 0 then s else Exec(Do(s, run[0]), run[1..])
  }

  // ----- what every step keeps -----

  predicate Mutex(s: State) {
    && (s.owner == ByProducer <==> s.producer.PushHeld? || s.producer.CloseHeld?)
    && (s.owner == ByConsumer <==> s.consumer.PopHeld?)
  }

  /** A sleeper whose condition holds has a notification still to come from the other thread. */
  predicate NoLostWakeup(s: State) {
    && (s.consumer.PopAsleep? && (|s.queue| > 0 || s.closed) ==> s.producer.PushNotify? || s.producer.CloseNotEmpty?)
    && (s.producer.PushAsleep? && (|s.queue| < s.max || s.closed) ==> s.consumer.PopNotify?)
  }

  /** The producer has left its loop. */
  predicate Leaving(p: Producer) {
    p.CloseLock? || p.CloseHeld? || p.CloseNotEmpty? || p.CloseNotFull? || p.Ended?
  }

  predicate ClosedLast(s: State) {
    && (s.closed <==> s.producer.CloseNotEmpty? || s.producer.CloseNotFull? || s.producer.Ended?)
    && (s.consumer.Finished? ==> s.closed && |s.queue| == 0)
  }

  function InFlight(p: Producer): seq<CapturedFrame> {
    if p.Recording? || p.PushLock? || p.PushHeld? || p.PushAsleep? then [p.frame] else []
  }

  function InHand(c: Consumer): seq<CapturedFrame> {
    if c.PopNotify? || c.Printing? then [c.frame] else []
  }

  /** Every frame received is in exactly one place, and the places are in order. */
  predicate Conserved(s: State) {
    && s.received == s.popped + s.queue + InFlight(s.producer) + s.lost
    && s.popped == s.printed + InHand(s.consumer)
    && |s.queue| <= s.max
  }

  /** Only the frame whose record failed can be lost, and then the producer has left its loop. */
  predicate LostOnlyByRecord(s: State) {
    |s.lost| == 0 || (|s.lost| == 1 && s.pcap && Leaving(s.producer))
  }

  function Unrecorded(p: Producer): seq<CapturedFrame> {
    if p.Recording? then [p.frame] else []
  }

  /** With a file, everything received is in it, but for the frame at hand and the one that failed. */
  predicate Recorded(s: State) {
    if s.pcap then s.received == s.recorded + Unrecorded(s.producer) + s.lost else s.recorded == []
  }

  /** What concerns who may do what ... */
  predicate Control(s: State) {
    Mutex(s) && NoLostWakeup(s) && ClosedLast(s) && LostOnlyByRecord(s)
  }

  /** ... and where the frames are. */
  predicate Inv(s: State) {
    Control(s) && Conserved(s) && Recorded(s)
  }

  /** Neither thread can take a step, and no frame is awaited: only a spurious wakeup could help. */
  predicate Stuck(s: State) {
    !CanProduce(s) && !CanConsume(s) && !s.producer.Receiving?
  }

  predicate Complete(s: State) {
    s.producer.Ended? && s.consumer.Finished?
  }

  // ----- work -----

  function ProducerWork(p: Producer): nat {
    match p
    case Receiving => 7
    case Recording(_) => 19
    case PushLock(_) => 18
    case PushHeld(_) => 17
    case PushAsleep(_) => 16
    case PushNotify => 10
    case CloseLock => 6
    case CloseHeld => 5
    case CloseNotEmpty => 4
    case CloseNotFull => 1
    case Ended => 0
  }

  function ConsumerWork(c: Consumer): nat {
    match c
    case PopLock => 3
    case PopHeld => 2
    case PopAsleep => 1
    case PopNotify(_) => 7
    case Printing(_) => 4
    case Finished => 0
  }

  /** Steps the two threads can still take before another frame or a spurious wakeup comes. */
  function Work(s: State): nat {
    ProducerWork(s.producer) + ConsumerWork(s.consumer) + 6 * |s.queue|
  }

  /** How many of a run's actions are frames received, and how many are spurious wakeups. */
  function Receives(run: seq<Action>): nat {
    if |run| == 0 then 0 else (if run[0].Receive? then 1 else 0) + Receives(run[1..])
  }

  function Wakes(run: seq<Action>): nat {
    if |run| == 0 then 0
    else (if run[0].WakeProducer? || run[0].WakeConsumer? then 1 else 0) + Wakes(run[1..])
  }
}
