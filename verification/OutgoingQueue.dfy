// Outgoing messages: a queue, filled by any thread and emptied by the one event
// thread, which is woken by posting it a send event.
module OutgoingQueue {
  import opened Sequences

  /** Where a thread stands in duer_data_report or duer_response. */
  datatype Caller = Outside | ReportPushed | BeforePost

  /** Where the event thread stands in duer_engine_send and the notification after it. */
  datatype Sender =
    | Idle
    | Began                     // the event has been taken
    | Holding(msg: nat)         // the oldest message has been looked up
    | Sent(msg: nat)            // it has been transmitted, but is still in the queue
    | BeforeCheck               // the notification is about to look at the length
    | WillPost                  // it has found messages

  datatype State = State(
    queue: seq<nat>,
    events: nat,
    sender: Sender,
    callers: map<nat, Caller>,
    running: bool,
    enqueued: seq<nat>,
    transmitted: seq<nat>)

  function At(callers: map<nat, Caller>, p: nat): Caller {
    if p in callers then callers[p] else Outside
  }

  const START := State([], 0, Idle, map[], true, [], [])

  datatype Outcome = Success | Blocked | Failed

  datatype Step =
    | Report(p: nat, msg: nat)    // duer_engine_enqueue_report_data
    | Respond(p: nat, msg: nat)   // duer_engine_enqueue_response
    | TestLength(p: nat)          // duer_engine_qcache_length() == 1 in duer_data_report
    | CallerPost(p: nat)          // duer_data_send
    | Take                        // the event thread takes a send event
    | Top                         // duer_qcache_top under the lock
    | Transmit(result: Outcome)   // baidu_ca_send_data
    | Pop                         // duer_qcache_pop under the lock
    | Check                       // duer_engine_qcache_length() > 0 after the send
    | SenderPost                  // duer_data_send
    | SendReady                   // the transport can send again: duer_transport_notify
    | StopAgent                   // the event thread runs duer_engine_stop
    | StartAgent                  // the event thread runs duer_engine_start

  predicate Enabled(s: State, step: Step) {
    match step
    case Report(p, msg) => At(s.callers, p) == Outside
    case Respond(p, msg) => At(s.callers, p) == Outside
    case TestLength(p) => At(s.callers, p) == ReportPushed
    case CallerPost(p) => At(s.callers, p) == BeforePost
    case Take => s.sender == Idle && s.events > 0
    case Top => s.sender == Began
    case Transmit(result) => s.sender.Holding?
    case Pop => s.sender.Sent?
    case Check => s.sender == BeforeCheck
    case SenderPost => s.sender == WillPost
    case SendReady => s.running
    case StopAgent => s.sender == Idle
    case StartAgent => s.sender == Idle
  }

  function Apply(s: State, step: Step): State
    requires Enabled(s, step)
  {
    match step
    case Report(p, msg) =>
      s.(queue := s.queue + [msg], enqueued := s.enqueued + [msg], callers := s.callers[p := ReportPushed])
    case Respond(p, msg) =>
      s.(queue := s.queue + [msg], enqueued := s.enqueued + [msg], callers := s.callers[p := BeforePost])
    case TestLength(p) =>
      s.(callers := s.callers[p := if |s.queue| == 1 then BeforePost else Outside])
    case CallerPost(p) => s.(callers := s.callers[p := Outside], events := s.events + 1)
    case Take => s.(sender := if s.running then Began else BeforeCheck, events := s.events - 1)
    case Top => s.(sender := if s.queue == [] then BeforeCheck else Holding(s.queue[0]))
    case Transmit(result) =>
      (match result
       case Success => s.(sender := Sent(s.sender.msg), transmitted := s.transmitted + [s.sender.msg])
       case Blocked => s.(sender := Idle)
       case Failed => s.(sender := Idle, running := false))
    case Pop => s.(sender := BeforeCheck, queue := if s.queue == [] then [] else s.queue[1..])
    case Check => s.(sender := if |s.queue| > 0 then WillPost else Idle)
    case SenderPost => s.(sender := Idle, events := s.events + 1)
    case SendReady => s.(events := s.events + 1)
    case StopAgent => s.(running := false)
    case StartAgent => s.(running := true)
  }

  predicate Possible(s: State, steps: seq<Step>)
    decreases steps
  {
    steps == [] || (Enabled(s, steps[0]) && Possible(Apply(s, steps[0]), steps[1..]))
  }

  function Run(s: State, steps: seq<Step>): State
    requires Possible(s, steps)
    decreases steps
  {
    if steps == [] then s else Run(Apply(s, steps[0]), steps[1..])
  }

  // ----- nothing is lost, reordered or sent twice

  /** The messages that have still to be transmitted. */
  function Unsent(s: State): seq<nat> {
    if s.sender.Sent? && s.queue != [] then s.queue[1..] else s.queue
  }

  /** What has been sent and what is still to be sent are the messages in the order they came. */
  predicate InOrder(s: State) {
    && s.enqueued == s.transmitted + Unsent(s)
    && (s.sender.Holding? || s.sender.Sent? ==> s.queue != [] && s.queue[0] == s.sender.msg)
  }

  lemma PushKeepsOrder(s: State, step: Step)
    requires InOrder(s) && Enabled(s, step) && (step.Report? || step.Respond?)
    ensures InOrder(Apply(s, step))
  {
    var s' := Apply(s, step);
    if s.sender.Sent? {
      assert s'.queue[1..] == s.queue[1..] + [step.msg];
    }
    assert s'.enqueued == s.transmitted + (Unsent(s) + [step.msg]);
  }

  /** The message transmitted is the oldest; without success nothing changes. */
  lemma TransmitKeepsOrder(s: State, result: Outcome)
    requires InOrder(s) && Enabled(s, Transmit(result))
    ensures var s' := Apply(s, Transmit(result));
      && InOrder(s') && s'.queue == s.queue
      && s'.transmitted == if result == Success then s.transmitted + [s.queue[0]] else s.transmitted
  {
    var s' := Apply(s, Transmit(result));
    if result == Success {
      assert s.queue == [s.queue[0]] + s.queue[1..];
      assert s'.enqueued == s'.transmitted + s.queue[1..];
    }
  }

  /** The message removed is the one that was transmitted. */
  lemma PopKeepsOrder(s: State)
    requires InOrder(s) && Enabled(s, Pop)
    ensures InOrder(Apply(s, Pop)) && [s.sender.msg] + Apply(s, Pop).queue == s.queue
  {
    assert s.queue == [s.queue[0]] + s.queue[1..];
  }

  lemma OthersKeepOrder(s: State, step: Step)
    requires InOrder(s) && Enabled(s, step)
    requires !step.Report? && !step.Respond? && !step.Transmit? && !step.Pop?
    ensures InOrder(Apply(s, step))
    ensures Apply(s, step).queue == s.queue && Apply(s, step).transmitted == s.transmitted
  {
  }

  lemma OrderStep(s: State, step: Step)
    requires InOrder(s) && Enabled(s, step)
    ensures InOrder(Apply(s, step))
  {
    hide InOrder, Apply;
    match step {
      case Report(_, _) => PushKeepsOrder(s, step);
      case Respond(_, _) => PushKeepsOrder(s, step);
      case Transmit(result) => TransmitKeepsOrder(s, result);
      case Pop => PopKeepsOrder(s);
      case _ => OthersKeepOrder(s, step);
    }
  }

  lemma {:induction false} NothingLost(s: State, steps: seq<Step>)
    requires Possible(s, steps) && InOrder(s)
    ensures InOrder(Run(s, steps))
    decreases steps
  {
    if steps != [] {
      OrderStep(s, steps[0]);
      NothingLost(Apply(s, steps[0]), steps[1..]);
    }
  }

  // ----- a queue with messages has a send on the way

  /** Caller p will post, or is a reporter that will find exactly one message. */
  predicate WillCall(s: State, p: nat) {
    At(s.callers, p) == BeforePost || (At(s.callers, p) == ReportPushed && |s.queue| == 1)
  }

  ghost predicate SendOnTheWay(s: State) {
    s.queue != [] ==> s.events > 0 || s.sender != Idle || exists p :: WillCall(s, p)
  }

  /** Only reporters that have still to look at the length could do anything. */
  ghost predicate Quiet(s: State) {
    s.events == 0 && s.sender == Idle && forall p :: At(s.callers, p) != BeforePost
  }

  /**
   * The steps that strand the queue: a report that comes while everything else
   * is quiet and there is a message, and a send without success when nobody else
   * is going to send.
   */
  ghost predicate Strands(s: State, step: Step) {
    match step
    case Report(_, _) => s.queue != [] && Quiet(s)
    case Transmit(result) => result != Success && s.queue != [] && s.events == 0 && forall p :: !WillCall(s, p)
    case _ => false
  }

  lemma ReportWakeup(s: State, p: nat, msg: nat)
    requires SendOnTheWay(s) && Enabled(s, Report(p, msg))
    ensures SendOnTheWay(Apply(s, Report(p, msg))) <==> !Strands(s, Report(p, msg))
  {
    var s' := Apply(s, Report(p, msg));
    if s.queue == [] {
      assert WillCall(s', p);
    } else if Strands(s, Report(p, msg)) {
      forall q
        ensures !WillCall(s', q)
      {
        assert q != p ==> At(s'.callers, q) == At(s.callers, q);
      }
    } else if s.events == 0 && s.sender == Idle {
      var q :| At(s.callers, q) == BeforePost;
      assert WillCall(s', q);
    }
  }

  lemma TransmitWakeup(s: State, result: Outcome)
    requires SendOnTheWay(s) && Enabled(s, Transmit(result))
    ensures SendOnTheWay(Apply(s, Transmit(result))) <==> !Strands(s, Transmit(result))
  {
    var s' := Apply(s, Transmit(result));
    assert forall q :: WillCall(s', q) <==> WillCall(s, q);
  }

  /** Of the other steps none strands the queue. */
  lemma OtherWakeup(s: State, step: Step)
    requires SendOnTheWay(s) && Enabled(s, step) && !step.Report? && !step.Transmit?
    ensures SendOnTheWay(Apply(s, step))
  {
    var s' := Apply(s, step);
    if s'.queue != [] && s'.events == 0 && s'.sender == Idle {
      match step
      case Respond(p, msg) => assert WillCall(s', p);
      case TestLength(p) =>
        var q :| WillCall(s, q);
        assert WillCall(s', q);
      case StopAgent =>
        var q :| WillCall(s, q);
        assert WillCall(s', q);
      case StartAgent =>
        var q :| WillCall(s, q);
        assert WillCall(s', q);
      case _ =>
    }
  }

  /** A send stays on the way if and only if the step does not strand the queue. */
  lemma WakeupStep(s: State, step: Step)
    requires SendOnTheWay(s) && Enabled(s, step)
    ensures SendOnTheWay(Apply(s, step)) <==> !Strands(s, step)
  {
    hide SendOnTheWay, Apply, Quiet, WillCall;
    match step {
      case Report(p, msg) => ReportWakeup(s, p, msg);
      case Transmit(result) => TransmitWakeup(s, result);
      case _ => OtherWakeup(s, step);
    }
  }

  /**
   * A stranded queue is helped by a response or by the transport, and by nothing
   * else: later reports wait, too, and so does a restart of the agent.
   */
  lemma StrandedStep(s: State, step: Step)
    requires !SendOnTheWay(s) && Enabled(s, step)
    ensures SendOnTheWay(Apply(s, step)) <==> step.Respond? || step.SendReady?
  {
    var s' := Apply(s, step);
    assert s.queue != [] && forall q :: !WillCall(s, q);
    match step
    case Respond(p, msg) => assert WillCall(s', p);
    case Report(p, msg) =>
      forall q
        ensures !WillCall(s', q)
      {
        assert q != p ==> At(s'.callers, q) == At(s.callers, q);
        assert !WillCall(s, q);
      }
    case TestLength(p) =>
      assert !WillCall(s, p);
      forall q
        ensures !WillCall(s', q)
      {
        assert q != p ==> At(s'.callers, q) == At(s.callers, q);
        assert !WillCall(s, q);
      }
    case CallerPost(p) => assert WillCall(s, p);
    case StopAgent => assert forall q :: WillCall(s', q) <==> WillCall(s, q);
    case StartAgent => assert forall q :: WillCall(s', q) <==> WillCall(s, q);
    case _ =>
  }

  /** A send is on the way in every state of the run. */
  ghost predicate AlwaysOnTheWay(s: State, steps: seq<Step>)
    requires Possible(s, steps)
    decreases steps
  {
    SendOnTheWay(s) && (steps == [] || AlwaysOnTheWay(Apply(s, steps[0]), steps[1..]))
  }

  /** No step of the run strands the queue. */
  ghost predicate NoneStrands(s: State, steps: seq<Step>)
    requires Possible(s, steps)
    decreases steps
  {
    steps == [] || (!Strands(s, steps[0]) && NoneStrands(Apply(s, steps[0]), steps[1..]))
  }

  /** In every interleaving: at every step a message has a send on the way, if and only if no step strands the queue. */
  lemma {:induction false} NoMessageWaits(s: State, steps: seq<Step>)
    requires Possible(s, steps) && SendOnTheWay(s)
    ensures AlwaysOnTheWay(s, steps) <==> NoneStrands(s, steps)
    decreases steps
  {
    hide SendOnTheWay, Strands, Apply;
    if steps != [] {
      WakeupStep(s, steps[0]);
      if !Strands(s, steps[0]) {
        NoMessageWaits(Apply(s, steps[0]), steps[1..]);
      }
    }
  }

  /** Once stranded, the queue stays so until a response comes or the transport speaks up. */
  lemma {:induction false} StaysStranded(s: State, steps: seq<Step>)
    requires Possible(s, steps) && !SendOnTheWay(s)
    requires forall i :: 0 <= i < |steps| ==> !steps[i].Respond? && !steps[i].SendReady?
    ensures !SendOnTheWay(Run(s, steps)) && s.queue <= Run(s, steps).queue
    decreases steps
  {
    if steps != [] {
      StrandedStep(s, steps[0]);
      StaysStranded(Apply(s, steps[0]), steps[1..]);
    }
  }

  /** The sends of a run succeed, and a report waits for the one before it to test the length. */
  ghost predicate OneAtATime(s: State, steps: seq<Step>)
    requires Possible(s, steps)
    decreases steps
  {
    steps == [] || (
      && (steps[0].Transmit? ==> steps[0].result == Success)
      && (steps[0].Report? ==> forall p :: At(s.callers, p) != ReportPushed)
      && OneAtATime(Apply(s, steps[0]), steps[1..]))
  }

  /** With reports one at a time and sends that succeed, nothing strands the queue. */
  lemma {:induction false} OneAtATimeIsEnough(s: State, steps: seq<Step>)
    requires Possible(s, steps) && SendOnTheWay(s) && OneAtATime(s, steps)
    ensures NoneStrands(s, steps) && AlwaysOnTheWay(s, steps)
    decreases steps
  {
    if steps != [] {
      assert !Strands(s, steps[0]);
      WakeupStep(s, steps[0]);
      OneAtATimeIsEnough(Apply(s, steps[0]), steps[1..]);
    }
  }

  /** Two reports at the same time on an empty queue: both find two messages, and nobody sends. */
  lemma TwoReports()
    ensures var steps := [Report(1, 11), Report(2, 22), TestLength(1), TestLength(2)];
      && Possible(START, steps)
      && Run(START, steps).queue == [11, 22] && !SendOnTheWay(Run(START, steps))
      && Strands(Apply(START, steps[0]), steps[1])
  {
    var s1 := Apply(START, Report(1, 11));
    var s2 := Apply(s1, Report(2, 22));
    var s3 := Apply(s2, TestLength(1));
    var s4 := Apply(s3, TestLength(2));
    var steps := [Report(1, 11), Report(2, 22), TestLength(1), TestLength(2)];
    assert steps[1..] == [Report(2, 22), TestLength(1), TestLength(2)];
    assert steps[1..][1..] == [TestLength(1), TestLength(2)];
    assert steps[1..][1..][1..] == [TestLength(2)];
    assert s2.queue == [11, 22];
    assert Run(s3, [TestLength(2)]) == s4;
    assert Run(s2, [TestLength(1), TestLength(2)]) == s4;
    assert Run(s1, steps[1..]) == s4;
  }

  // ----- every message is transmitted

  /** A step of a thread that is on its way already; sends succeed. */
  predicate Onward(step: Step) {
    match step
    case TestLength(_) => true
    case CallerPost(_) => true
    case Transmit(result) => result == Success
    case _ => step.Take? || step.Top? || step.Pop? || step.Check? || step.SenderPost?
  }

  predicate AllOnward(steps: seq<Step>) {
    forall i :: 0 <= i < |steps| ==> Onward(steps[i])
  }

  /** How many more steps it takes at most. */
  function StepsLeft(s: State): nat {
    6 * |s.queue| + 3 * s.events + match s.sender
    case Idle => if s.queue != [] && s.events == 0 then 5 else 0
    case Began => 2
    case Holding(_) => 1
    case Sent(_) => 0
    case BeforeCheck => if s.queue != [] then 5 else 1
    case WillPost => 4
  }

  lemma Continue(s: State, step: Step, rest: seq<Step>)
    requires Enabled(s, step) && Possible(Apply(s, step), rest) && Onward(step) && AllOnward(rest)
    ensures Possible(s, [step] + rest) && Run(s, [step] + rest) == Run(Apply(s, step), rest)
    ensures AllOnward([step] + rest)
  {
    hide Enabled, Apply, Onward;
    assert ([step] + rest)[1..] == rest;
  }

  /** The next step of the event thread. */
  function Next(s: State): (step: Step)
    requires InOrder(s) && (s.sender == Idle ==> s.events > 0)
    ensures Enabled(s, step) && Onward(step)
  {
    match s.sender
    case Idle => Take
    case Began => Top
    case Holding(_) => Transmit(Success)
    case Sent(_) => Pop
    case BeforeCheck => Check
    case WillPost => SenderPost
  }

  lemma NextStep(s: State)
    requires InOrder(s) && s.running && SendOnTheWay(s) && (s.sender == Idle ==> s.events > 0)
    ensures var t := Apply(s, Next(s));
      InOrder(t) && SendOnTheWay(t) && t.running && t.enqueued == s.enqueued && StepsLeft(t) < StepsLeft(s)
  {
    OrderStep(s, Next(s));
    WakeupStep(s, Next(s));
    hide InOrder, SendOnTheWay;
    NextDecreases(s);
  }

  lemma NextDecreases(s: State)
    requires InOrder(s) && s.running && (s.sender == Idle ==> s.events > 0)
    ensures var t := Apply(s, Next(s)); t.running && t.enqueued == s.enqueued && StepsLeft(t) < StepsLeft(s)
  {
  }

  predicate Finished(s: State, t: State) {
    && t.transmitted == t.enqueued == s.enqueued
    && t.queue == [] && t.events == 0 && t.sender == Idle && t.running
  }

  /**
   * From every state of a running agent with a send on the way, the threads that
   * are there transmit every message in a bounded number of steps.
   */
  lemma {:induction false} AllSent(s: State) returns (steps: seq<Step>)
    requires InOrder(s) && s.running && SendOnTheWay(s)
    ensures Possible(s, steps) && |steps| <= StepsLeft(s) && AllOnward(steps) && Finished(s, Run(s, steps))
    decreases StepsLeft(s)
  {
    if s.sender != Idle || s.events > 0 {
      NextStep(s);
      hide Apply, InOrder, SendOnTheWay, StepsLeft;
      var rest := AllSent(Apply(s, Next(s)));
      Continue(s, Next(s), rest);
      steps := [Next(s)] + rest;
    } else if s.queue == [] {
      steps := [];
      assert s.transmitted + [] == s.transmitted;
    } else {
      var p :| WillCall(s, p);
      if At(s.callers, p) == ReportPushed {
        OrderStep(s, TestLength(p));
        WakeupStep(s, TestLength(p));
        steps := Called(Apply(s, TestLength(p)), p);
        Continue(s, TestLength(p), steps);
        steps := [TestLength(p)] + steps;
      } else {
        steps := Called(s, p);
      }
    }
  }

  lemma {:induction false} Called(s: State, p: nat) returns (steps: seq<Step>)
    requires InOrder(s) && s.running && SendOnTheWay(s) && s.sender == Idle && s.events == 0 && s.queue != []
    requires At(s.callers, p) == BeforePost
    ensures Possible(s, steps) && |steps| < StepsLeft(s) && AllOnward(steps) && Finished(s, Run(s, steps))
    decreases StepsLeft(s) - 1
  {
    OrderStep(s, CallerPost(p));
    WakeupStep(s, CallerPost(p));
    steps := AllSent(Apply(s, CallerPost(p)));
    Continue(s, CallerPost(p), steps);
    steps := [CallerPost(p)] + steps;
  }

  /** A stopped agent that is not about to transmit transmits nothing until it is started. */
  lemma {:induction false} StoppedSendsNothing(s: State, steps: seq<Step>)
    requires Possible(s, steps) && !s.running && s.sender != Began && !s.sender.Holding?
    requires forall i :: 0 <= i < |steps| ==> !steps[i].StartAgent?
    ensures Run(s, steps).transmitted == s.transmitted
    decreases steps
  {
    if steps != [] {
      StoppedSendsNothing(Apply(s, steps[0]), steps[1..]);
    }
  }

  /** Stopped by the user or by a failed send, the agent transmits nothing until it is started. */
  lemma StopsAtOnce(s: State, step: Step, steps: seq<Step>)
    requires Enabled(s, step) && (step == StopAgent || step == Transmit(Failed))
    requires Possible(Apply(s, step), steps) && forall i :: 0 <= i < |steps| ==> !steps[i].StartAgent?
    ensures Run(Apply(s, step), steps).transmitted == s.transmitted
  {
    StoppedSendsNothing(Apply(s, step), steps);
  }

  /** Started again, and told by the transport that it can send, the agent transmits everything that waits. */
  lemma StartsAgain(s: State) returns (steps: seq<Step>)
    requires InOrder(s) && s.sender == Idle
    ensures AllOnward(steps) && Possible(s, [StartAgent, SendReady] + steps)
    ensures Run(s, [StartAgent, SendReady] + steps).transmitted == s.enqueued
    ensures Run(s, [StartAgent, SendReady] + steps).queue == []
  {
    hide InOrder, SendOnTheWay;
    var t := Apply(s, StartAgent);
    OrderStep(s, StartAgent);
    OrderStep(t, SendReady);
    var u := Apply(t, SendReady);
    EventWaits(u);
    steps := AllSent(u);
    OneStepRun(t, SendReady, steps);
    OneStepRun(s, StartAgent, [SendReady] + steps);
    assert [StartAgent] + ([SendReady] + steps) == [StartAgent, SendReady] + steps;
  }

  lemma EventWaits(s: State)
    requires s.events > 0
    ensures SendOnTheWay(s)
  {
  }

  lemma {:induction false} Then(s: State, first: seq<Step>, second: seq<Step>)
    requires Possible(s, first) && Possible(Run(s, first), second)
    ensures Possible(s, first + second) && Run(s, first + second) == Run(Run(s, first), second)
    decreases first
  {
    hide Enabled, Apply;
    if first == [] {
      assert first + second == second;
    } else {
      Then(Apply(s, first[0]), first[1..], second);
      assert (first + second)[1..] == first[1..] + second;
    }
  }

  /** Whatever is reported, there is an interleaving in which exactly that is transmitted. */
  lemma {:induction false} Transmits(msgs: seq<nat>) returns (steps: seq<Step>)
    ensures Possible(START, steps) && Run(START, steps).transmitted == msgs
    ensures Finished(Run(START, steps), Run(START, steps))
    decreases |msgs|
  {
    hide Apply, Enabled, SendOnTheWay, Possible, Run;
    if msgs == [] {
      steps := [];
      StartRun();
    } else {
      var before, msg := msgs[..|msgs| - 1], msgs[|msgs| - 1];
      steps := Transmits(before);
      var more := OneMore(Run(START, steps), msg, steps);
      Then(START, steps, more);
      steps := steps + more;
      assert before + [msg] == msgs;
    }
  }

  lemma StartRun()
    ensures Possible(START, []) && Run(START, []) == START && InOrder(START) && SendOnTheWay(START)
    ensures Finished(START, START)
  {
  }

  /** One more message is reported and transmitted. */
  lemma OneMore(s: State, msg: nat, steps: seq<Step>) returns (more: seq<Step>)
    requires Possible(START, steps) && s == Run(START, steps) && Finished(s, s)
    ensures Possible(s, more) && Run(s, more).transmitted == s.transmitted + [msg]
    ensures Finished(Run(s, more), Run(s, more))
  {
    hide Possible, Run, SendOnTheWay, InOrder;
    StartRun();
    NothingLost(START, steps);
    NothingQueued(s);
    var p := Above(s.callers.Keys);
    assert At(s.callers, p) == Outside;
    OrderStep(s, Report(p, msg));
    WakeupStep(s, Report(p, msg));
    var rest := AllSent(Apply(s, Report(p, msg)));
    OneStepRun(s, Report(p, msg), rest);
    more := [Report(p, msg)] + rest;
  }

  lemma NothingQueued(s: State)
    requires s.queue == []
    ensures SendOnTheWay(s)
  {
  }

  lemma OneStepRun(s: State, step: Step, rest: seq<Step>)
    requires Enabled(s, step) && Possible(Apply(s, step), rest)
    ensures Possible(s, [step] + rest) && Run(s, [step] + rest) == Run(Apply(s, step), rest)
  {
    hide Enabled, Apply;
    assert ([step] + rest)[1..] == rest;
  }
}
