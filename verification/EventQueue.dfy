// The event queue of the Linux port: a list under a mutex, one consumer that
// waits on a condition, and producers that signal it after leaving the lock.
module EventQueue {
  import opened Sequences

  // ----- the list, as the code in the lock changes it

  class Message {
    const what: int
    var pre: Message?
    var next: Message?

    constructor (w: int)
      ensures what == w && pre == null && next == null
    {
      what := w;
      pre, next := null, null;
    }
  }

  ghost function Nth(queue: seq<Message>, i: int): Message? {
    if 0 <= i < |queue| then queue[i] else null
  }

  class Events {
    var head: Message?
    var tail: Message?
    /** The messages that wait, the oldest first. */
    ghost var queue: seq<Message>

    constructor ()
      ensures Valid() && queue == []
    {
      head, tail := null, null;
      queue := [];
    }

    ghost predicate Valid()
      reads this, queue
    {
      && tail == Nth(queue, 0) && head == Nth(queue, |queue| - 1)
      && (forall i, j :: 0 <= i < j < |queue| ==> queue[i] != queue[j])
      && (forall i :: 0 <= i < |queue| ==> queue[i].pre == Nth(queue, i + 1))
      && (forall i :: 0 < i < |queue| ==> queue[i].next == queue[i - 1])
    }

    /** The locked part of duer_events_call. */
    method Push(message: Message)
      requires Valid() && message !in queue && message.pre == null
      modifies this, message, queue
      ensures Valid() && queue == old(queue) + [message]
    {
      ghost var was := queue;
      assert forall i :: 0 <= i < |was| - 1 ==> was[i] != was[|was| - 1];
      if head != null {
        head.pre := message;
      }
      message.next := head;
      head := message;
      if tail == null {
        tail := message;
      }
      queue := was + [message];
      forall i | 0 <= i < |queue|
        ensures queue[i].pre == Nth(queue, i + 1) && (i > 0 ==> queue[i].next == queue[i - 1])
      {
        assert i < |was| ==> queue[i] == was[i];
      }
    }

    /** The locked part of duer_events_task, when it finds a message. */
    method Pop() returns (message: Message)
      requires Valid() && tail != null
      modifies this
      ensures Valid() && old(queue) == [message] + queue
    {
      message := tail;
      tail := tail.pre;
      if tail == null {
        head := null;
      }
      ghost var was, rest := queue, queue[1..];
      queue := rest;
      assert forall i :: 0 <= i < |rest| ==> rest[i] == was[i + 1];
    }
  }

  // ----- all threads

  /** A message with the address that malloc gave it; an address is used again after it was freed. */
  datatype Event = Event(address: nat, what: int)

  datatype Consumer = AtLock | Waiting | Running(e: Event)

  /** Where a producer stands in duer_events_call. */
  datatype Producer = Outside | BeforeTest(e: Event) | BeforeSignal(e: Event)

  datatype State = State(
    queue: seq<Event>,
    consumer: Consumer,
    producers: map<nat, Producer>,
    posted: seq<Event>,
    ran: seq<Event>)

  function At(producers: map<nat, Producer>, p: nat): Producer {
    if p in producers then producers[p] else Outside
  }

  const START := State([], AtLock, map[], [], [])

  datatype Step =
    | Post(p: nat, e: Event)    // the locked part of duer_events_call
    | Test(p: nat)              // _tail == message, read outside the lock
    | Signal(p: nat)            // pthread_cond_signal
    | Look                      // the consumer in the lock: wait or take a message
    | Finish                    // the callback returns
    | Spurious                  // pthread_cond_wait returns without a signal

  /** malloc gives an address that is not in use. */
  predicate Unused(s: State, address: nat) {
    && (forall i :: 0 <= i < |s.queue| ==> s.queue[i].address != address)
    && (s.consumer.Running? ==> s.consumer.e.address != address)
  }

  predicate Enabled(s: State, step: Step) {
    match step
    case Post(p, e) => At(s.producers, p) == Outside && Unused(s, e.address)
    case Test(p) => At(s.producers, p).BeforeTest?
    case Signal(p) => At(s.producers, p).BeforeSignal?
    case Look => s.consumer == AtLock
    case Finish => s.consumer.Running?
    case Spurious => s.consumer == Waiting
  }

  function Apply(s: State, step: Step): State
    requires Enabled(s, step)
  {
    match step
    case Post(p, e) =>
      s.(queue := s.queue + [e], producers := s.producers[p := BeforeTest(e)], posted := s.posted + [e])
    case Test(p) =>
      var e := At(s.producers, p).e;
      var mine := s.queue != [] && s.queue[0].address == e.address;
      s.(producers := s.producers[p := if mine then BeforeSignal(e) else Outside])
    case Signal(p) =>
      s.(producers := s.producers[p := Outside], consumer := if s.consumer == Waiting then AtLock else s.consumer)
    case Look =>
      if s.queue == [] then s.(consumer := Waiting)
      else s.(queue := s.queue[1..], consumer := Running(s.queue[0]))
    case Finish => s.(consumer := AtLock, ran := s.ran + [s.consumer.e])
    case Spurious => s.(consumer := AtLock)
  }

  /** The states of an interleaving. */
  predicate Possible(s: State, steps: seq<Step>)
    decreases steps
  {
    steps == [] || (Enabled(s, steps[0]) && Possible(Apply(s, steps[0]), steps[1..]))
  }

  function Run(s: State, steps: seq<Step>): State
    requires Possible(s, steps)
    decreases steps
  {
    if steps == [] then s else Run(Apply(s, steps[0]), steps[1..])
  }

  /** Producer p is about to find that the oldest message is its own, or is about to signal. */
  predicate WillSignal(s: State, p: nat) {
    s.queue != [] && match At(s.producers, p)
    case Outside => false
    case BeforeTest(e) => e.address == s.queue[0].address
    case BeforeSignal(e) => true
  }

  ghost predicate NoLostWakeup(s: State) {
    s.consumer == Waiting && s.queue != [] ==> exists p :: WillSignal(s, p)
  }

  function InHand(c: Consumer): seq<Event> {
    if c.Running? then [c.e] else []
  }

  /** Callbacks run in the order of posting, each once, and no message is lost. */
  predicate InOrder(s: State) {
    s.posted == s.ran + InHand(s.consumer) + s.queue
  }

  lemma WakeupStep(s: State, step: Step)
    requires NoLostWakeup(s) && Enabled(s, step)
    ensures NoLostWakeup(Apply(s, step))
  {
    var s' := Apply(s, step);
    if s'.consumer == Waiting && s'.queue != [] {
      if step.Post? && s.queue == [] {
        assert s'.queue[0] == step.e;
        assert WillSignal(s', step.p);
      } else {
        var p :| WillSignal(s, p);
        assert s'.queue[0] == s.queue[0];
        assert WillSignal(s', p);
      }
    }
  }

  /** A producer is about to signal after its test if and only if the consumer would take its message next. */
  lemma SignalsForTheNext(s: State, p: nat)
    requires Enabled(s, Test(p))
    ensures var next := Apply(s.(consumer := AtLock), Look).consumer;
      At(Apply(s, Test(p)).producers, p).BeforeSignal?
      <==> next.Running? && next.e.address == At(s.producers, p).e.address
  {
  }

  lemma OrderStep(s: State, step: Step)
    requires InOrder(s) && Enabled(s, step)
    ensures InOrder(Apply(s, step))
  {
    var s' := Apply(s, step);
    match step
    case Post(p, e) => assert s'.posted == s.ran + InHand(s.consumer) + (s.queue + [e]);
    case Look =>
      if s.queue != [] {
        assert s.queue == [s.queue[0]] + s.queue[1..];
        assert s.ran + [] + ([s.queue[0]] + s.queue[1..]) == s.ran + [s.queue[0]] + s.queue[1..];
      }
    case Finish => assert s.ran + [s.consumer.e] + s.queue == (s.ran + [s.consumer.e]) + [] + s.queue;
    case _ =>
  }

  /** In every interleaving no wakeup is lost and the callbacks run in posting order. */
  lemma {:induction false} EveryRun(s: State, steps: seq<Step>)
    requires Possible(s, steps) && NoLostWakeup(s) && InOrder(s)
    ensures NoLostWakeup(Run(s, steps)) && InOrder(Run(s, steps))
    decreases steps
  {
    if steps != [] {
      WakeupStep(s, steps[0]);
      OrderStep(s, steps[0]);
      EveryRun(Apply(s, steps[0]), steps[1..]);
    }
  }

  /** From the start, the consumer never sleeps over a message once all producers are done. */
  lemma NeverStuck(steps: seq<Step>)
    requires Possible(START, steps)
    ensures var s := Run(START, steps);
      && s.posted == s.ran + InHand(s.consumer) + s.queue
      && (s.consumer == Waiting && (forall p :: At(s.producers, p) == Outside) ==> s.queue == [] && s.ran == s.posted)
  {
    EveryRun(START, steps);
    var s := Run(START, steps);
    if s.consumer == Waiting && s.queue == [] {
      assert s.ran + [] + [] == s.ran;
    }
  }

  // ----- every callback is run

  lemma OneStepRun(s: State, step: Step, rest: seq<Step>)
    requires Enabled(s, step) && Possible(Apply(s, step), rest)
    ensures Possible(s, [step] + rest) && Run(s, [step] + rest) == Run(Apply(s, step), rest)
  {
    hide Enabled, Apply;
    assert ([step] + rest)[1..] == rest;
  }

  /** How many more steps it takes at most: two for each message, one to finish, two to be woken up. */
  function StepsLeft(s: State): nat {
    2 * |s.queue| + match s.consumer
    case AtLock => 0
    case Running(_) => 1
    case Waiting => 2
  }

  /** No new message comes, and the consumer does not wake up by itself. */
  predicate OnTheirOwn(steps: seq<Step>) {
    forall i :: 0 <= i < |steps| ==> !steps[i].Post? && !steps[i].Spurious?
  }

  /** The steps after the first ones. */
  lemma Continue(s: State, step: Step, rest: seq<Step>)
    requires Enabled(s, step) && Possible(Apply(s, step), rest) && OnTheirOwn(rest)
    requires !step.Post? && !step.Spurious?
    ensures Possible(s, [step] + rest) && Run(s, [step] + rest) == Run(Apply(s, step), rest)
    ensures OnTheirOwn([step] + rest)
  {
    hide Enabled, Apply, Possible, Run;
    OneStepRun(s, step, rest);
  }

  /**
   * From every reachable state the threads that are there finish the work in a
   * bounded number of steps: every message posted has its callback run, in order.
   */
  lemma {:induction false} AllRun(s: State) returns (steps: seq<Step>)
    requires InOrder(s) && NoLostWakeup(s)
    ensures Possible(s, steps) && |steps| <= StepsLeft(s) && OnTheirOwn(steps)
    ensures var t := Run(s, steps); t.queue == [] && !t.consumer.Running? && t.ran == t.posted == s.posted
    decreases StepsLeft(s)
  {
    steps := [];
    match s.consumer {
      case Running(e) =>
        OrderStep(s, Finish);
        WakeupStep(s, Finish);
        var rest := AllRun(Apply(s, Finish));
        Continue(s, Finish, rest);
        steps := [Finish] + rest;
      case AtLock =>
        if s.queue != [] {
          OrderStep(s, Look);
          WakeupStep(s, Look);
          var rest := AllRun(Apply(s, Look));
          Continue(s, Look, rest);
          steps := [Look] + rest;
        } else {
          NothingWaits(s);
        }
      case Waiting =>
        if s.queue != [] {
          var p :| WillSignal(s, p);
          steps := WokenUp(s, p);
        } else {
          NothingWaits(s);
        }
    }
  }

  lemma NothingWaits(s: State)
    requires InOrder(s) && s.queue == [] && !s.consumer.Running?
    ensures s.ran == s.posted
  {
    assert s.ran + [] + [] == s.ran;
  }

  /** A producer that will signal does so, after its test. */
  lemma {:induction false} WokenUp(s: State, p: nat) returns (steps: seq<Step>)
    requires InOrder(s) && NoLostWakeup(s) && s.consumer == Waiting && s.queue != [] && WillSignal(s, p)
    ensures Possible(s, steps) && |steps| <= StepsLeft(s) && OnTheirOwn(steps)
    ensures var t := Run(s, steps); t.queue == [] && !t.consumer.Running? && t.ran == t.posted == s.posted
    decreases StepsLeft(s), 0
  {
    if At(s.producers, p).BeforeTest? {
      var u := Apply(s, Test(p));
      OrderStep(s, Test(p));
      WakeupStep(s, Test(p));
      steps := Signalled(u, p);
      Continue(s, Test(p), steps);
      steps := [Test(p)] + steps;
    } else {
      steps := Signalled(s, p);
    }
  }

  lemma {:induction false} Signalled(s: State, p: nat) returns (steps: seq<Step>)
    requires InOrder(s) && NoLostWakeup(s) && s.consumer == Waiting && s.queue != []
    requires At(s.producers, p).BeforeSignal?
    ensures Possible(s, steps) && |steps| <= 1 + 2 * |s.queue| && OnTheirOwn(steps)
    ensures var t := Run(s, steps); t.queue == [] && !t.consumer.Running? && t.ran == t.posted == s.posted
    decreases 2 * |s.queue| + 1
  {
    OrderStep(s, Signal(p));
    WakeupStep(s, Signal(p));
    var rest := AllRun(Apply(s, Signal(p)));
    Continue(s, Signal(p), rest);
    steps := [Signal(p)] + rest;
  }

  lemma {:induction false} Then(s: State, first: seq<Step>, second: seq<Step>)
    requires Possible(s, first) && Possible(Run(s, first), second)
    ensures Possible(s, first + second) && Run(s, first + second) == Run(Run(s, first), second)
    decreases first
  {
    hide Enabled, Apply;
    if first == [] {
      assert first + second == second;
    } else {
      Then(Apply(s, first[0]), first[1..], second);
      assert (first + second)[1..] == first[1..] + second;
    }
  }

  /** Whatever is posted, there is an interleaving in which exactly that is run. */
  lemma {:induction false} Serves(events: seq<Event>) returns (steps: seq<Step>)
    ensures Possible(START, steps) && Run(START, steps).ran == events == Run(START, steps).posted
    ensures Run(START, steps).queue == [] && !Run(START, steps).consumer.Running?
    decreases |events|
  {
    hide Apply, Enabled, NoLostWakeup, Possible, Run;
    if events == [] {
      steps := [];
      StartRun();
    } else {
      var before, e := events[..|events| - 1], events[|events| - 1];
      steps := Serves(before);
      var more := OneMore(Run(START, steps), e, steps);
      Then(START, steps, more);
      steps := steps + more;
      assert before + [e] == events;
    }
  }

  lemma StartRun()
    ensures Possible(START, []) && Run(START, []) == START && InOrder(START) && NoLostWakeup(START)
  {
  }

  /** One more message is posted and run. */
  lemma OneMore(s: State, e: Event, steps: seq<Step>) returns (more: seq<Step>)
    requires Possible(START, steps) && s == Run(START, steps) && s.queue == [] && !s.consumer.Running?
    requires s.ran == s.posted
    ensures Possible(s, more) && Run(s, more).ran == s.ran + [e] == Run(s, more).posted
    ensures Run(s, more).queue == [] && !Run(s, more).consumer.Running?
  {
    hide Possible, Run, NoLostWakeup;
    StartRun();
    EveryRun(START, steps);
    var p := Above(s.producers.Keys);
    assert At(s.producers, p) == Outside;
    OrderStep(s, Post(p, e));
    WakeupStep(s, Post(p, e));
    var rest := AllRun(Apply(s, Post(p, e)));
    OneStepRun(s, Post(p, e), rest);
    more := [Post(p, e)] + rest;
  }
}
