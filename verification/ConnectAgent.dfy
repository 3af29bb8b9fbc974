// The connection agent: the start sequence, the answers that move it on, and
// stop. What the network does is given in advance.
module ConnectAgent {
  import opened CText

  datatype State =
    | StStopped | StUnregistered | StRegisterConnected | StRegistered | StSrConnecting | StSrDataSending
    | StSrDataReceiving | StSrInitialized | StRptConnected | StRptInitialized | StStarted | StReporting
    | StReported | StRegisterFail

  /** The order of the enumeration. */
  function Rank(s: State): nat {
    match s
    case StStopped => 0
    case StUnregistered => 1
    case StRegisterConnected => 2
    case StRegistered => 3
    case StSrConnecting => 4
    case StSrDataSending => 5
    case StSrDataReceiving => 6
    case StSrInitialized => 7
    case StRptConnected => 8
    case StRptInitialized => 9
    case StStarted => 10
    case StReporting => 11
    case StReported => 12
    case StRegisterFail => 13
  }

  datatype Status = Ok | Positive | WouldBlock | Failed | RegFail

  predicate Negative(rs: Status) {
    rs == WouldBlock || rs == Failed || rs == RegFail
  }

  const RSP_CONTENT: nat := 69

  /** One call that reads from the network: its result, and the code of the message it brought, if any. */
  datatype Arrival = Arrival(rs: Status, code: Option<nat>)

  /** An agent at one moment, with what the network is going to do. */
  datatype Snapshot = Snapshot(
    state: State,
    sr: Option<nat>,
    nextHandle: nat,
    connects: seq<Status>,
    sends: seq<Status>,
    arrivals: seq<Arrival>)

  function First(results: seq<Status>): Status {
    if results == [] then WouldBlock else results[0]
  }

  function Rest<T>(s: seq<T>): seq<T> {
    if s == [] then [] else s[1..]
  }

  // ----- where a start leads

  /** There is a connection, an old or a new one. */
  function WithRouter(v: Snapshot): Snapshot {
    if v.sr == None then v.(sr := Some(v.nextHandle), nextHandle := v.nextHandle + 1) else v
  }

  /** Waiting for the answer: everything is read up to the first arrival that is not an empty success. */
  function FromReceiving(v: Snapshot): (Snapshot, Status)
    decreases |v.arrivals|
  {
    if v.arrivals == [] then (v, WouldBlock)
    else
      var a, next := v.arrivals[0], v.(arrivals := v.arrivals[1..]);
      match a.code
      case None => if a.rs == Ok then FromReceiving(next) else (next, a.rs)
      case Some(code) =>
        if code != RSP_CONTENT then (next.(state := StRegisterFail), if Negative(a.rs) then a.rs else RegFail)
        else if a.rs == Ok then (next.(state := StStarted), Ok)
        else (next.(state := StSrInitialized), a.rs)
  }

  function FromSending(v: Snapshot): (Snapshot, Status) {
    var next := v.(sends := Rest(v.sends));
    if Negative(First(v.sends)) then (next, First(v.sends))
    else FromReceiving(next.(state := StSrDataReceiving))
  }

  function FromConnecting(v: Snapshot): (Snapshot, Status) {
    var next := v.(connects := Rest(v.connects));
    if First(v.connects) != Ok then (next, First(v.connects)) else FromSending(next.(state := StSrDataSending))
  }

  /** Where the loop over the start sequence ends. */
  function StartFrom(v: Snapshot): (Snapshot, Status) {
    if Rank(StUnregistered) <= Rank(v.state) <= Rank(StSrConnecting) then
      FromConnecting(WithRouter(v).(state := StSrConnecting))
    else if v.state == StSrDataSending then FromSending(WithRouter(v))
    else if v.state == StSrDataReceiving then FromReceiving(WithRouter(v))
    else if v.state == StSrInitialized || v.state == StRptInitialized || v.state == StStarted then
      (v.(state := StStarted), Ok)
    else (v, Failed)
  }

  function OnStart(v: Snapshot): (Snapshot, Status) {
    if v.state == StRegisterFail then (v, RegFail)
    else StartFrom(if v.state == StStopped then v.(state := StUnregistered) else v)
  }

  function OnData(v: Snapshot): (Snapshot, Status) {
    if Rank(v.state) < Rank(StSrInitialized) then StartFrom(v)
    else
      var next := v.(arrivals := Rest(v.arrivals));
      if Rank(v.state) < Rank(StStarted) then StartFrom(next)
      else (next, if v.arrivals == [] then WouldBlock else v.arrivals[0].rs)
  }

  function OnStop(v: Snapshot): Snapshot {
    v.(state := StStopped, sr := None)
  }

  /** The first arrival that is not an empty success. */
  function Reply(arrivals: seq<Arrival>): Option<Arrival> {
    if arrivals == [] then None
    else if arrivals[0] == Arrival(Ok, None) then Reply(arrivals[1..])
    else Some(arrivals[0])
  }

  lemma {:induction false} ReplyDecides(v: Snapshot)
    requires v.state == StSrDataReceiving
    ensures FromReceiving(v).1 == Ok <==> Reply(v.arrivals) == Some(Arrival(Ok, Some(RSP_CONTENT)))
    ensures FromReceiving(v).1 == Ok <==> FromReceiving(v).0.state == StStarted
    ensures FromReceiving(v).0.state == StRegisterFail <==>
              var r := Reply(v.arrivals);
              r.Some? && r.value.code.Some? && r.value.code.value != RSP_CONTENT
    decreases |v.arrivals|
  {
    if v.arrivals != [] && v.arrivals[0] == Arrival(Ok, None) {
      ReplyDecides(v.(arrivals := v.arrivals[1..]));
    }
  }

  /**
   * A stopped agent is started if and only if the connection is made, the
   * registration is sent, and the answer to it is 2.05; it is refused if and only
   * if the answer is another one.
   */
  lemma StartDecides(v: Snapshot)
    requires v.state == StStopped
    ensures var (w, rs) := OnStart(v);
      var sent := First(v.connects) == Ok && (First(v.sends) == Ok || First(v.sends) == Positive);
      && (rs == Ok <==> w.state == StStarted)
      && (rs == Ok <==> sent && Reply(v.arrivals) == Some(Arrival(Ok, Some(RSP_CONTENT))))
      && (w.state == StRegisterFail <==>
            sent && Reply(v.arrivals).Some? && Reply(v.arrivals).value.code.Some?
            && Reply(v.arrivals).value.code.value != RSP_CONTENT)
  {
    hide FromReceiving, Reply;
    var sr := WithRouter(v).(connects := Rest(v.connects), sends := Rest(v.sends), state := StSrDataReceiving);
    ReplyDecides(sr);
    assert OnStart(v) == FromConnecting(WithRouter(v).(state := StSrConnecting));
  }

  /** A start that waits for the answer is taken up again by the next arrivals as if it had not been interrupted. */
  lemma {:induction false} TakenUpAgain(v: Snapshot, more: seq<Arrival>)
    requires v.state == StSrDataReceiving && v.sr.Some? && Reply(v.arrivals) == None
    ensures OnData(FromReceiving(v).0.(arrivals := more)) == FromReceiving(v.(arrivals := v.arrivals + more))
    ensures FromReceiving(v) == (v.(arrivals := []), WouldBlock)
    decreases |v.arrivals|
  {
    if v.arrivals == [] {
      assert [] + more == more;
    } else {
      TakenUpAgain(v.(arrivals := v.arrivals[1..]), more);
      assert (v.arrivals + more)[1..] == v.arrivals[1..] + more;
    }
  }

  class Agent {
    var state: State
    /** The service router's connection; every acquire gives a new one. */
    var sr: Option<nat>
    var nextHandle: nat
    var connects: seq<Status>
    var sends: seq<Status>
    var arrivals: seq<Arrival>
    /** Since the last stop: where a connect succeeded, a registration was sent, and 2.05 came for it. */
    ghost var connectedOn: Option<nat>
    ghost var postedOn: Option<nat>
    ghost var answeredOn: Option<nat>

    /** baidu_ca_acquire */
    constructor (c: seq<Status>, s: seq<Status>, a: seq<Arrival>)
      ensures Valid() && Now() == Snapshot(StStopped, None, 0, c, s, a)
    {
      state, sr, nextHandle := StStopped, None, 0;
      connects, sends, arrivals := c, s, a;
      connectedOn, postedOn, answeredOn := None, None, None;
    }

    function Now(): Snapshot
      reads `state, `sr, `nextHandle, `connects, `sends, `arrivals
    {
      Snapshot(state, sr, nextHandle, connects, sends, arrivals)
    }

    ghost predicate Valid()
      reads this
    {
      && (state == StStopped ==> sr == None)
      && (Rank(state) >= Rank(StSrDataSending) ==> sr.Some? && connectedOn == sr)
      && (Rank(state) >= Rank(StSrDataReceiving) ==> postedOn == sr)
      && answeredOn == (if Rank(state) >= Rank(StSrInitialized) && state != StRegisterFail then sr else None)
    }

    /** duer_engine_coap_handler, for a message that came over sr */
    method CoapHandler(code: nat)
      requires Valid()
      modifies `state, `answeredOn
      ensures Valid()
      ensures state == if old(state) != StSrDataReceiving then old(state)
                       else if code == RSP_CONTENT then StSrInitialized else StRegisterFail
      ensures answeredOn == if old(state) == StSrDataReceiving && code == RSP_CONTENT then sr else old(answeredOn)
    {
      if state == StSrDataReceiving {
        if code == RSP_CONTENT {
          state := StSrInitialized;
          answeredOn := sr;
        } else {
          state := StRegisterFail;
        }
      }
    }

    /** duer_coap_data_available on sr */
    method CoapDataAvailable() returns (rs: Status)
      requires Valid()
      modifies `state, `answeredOn, `arrivals
      ensures Valid() && arrivals == Rest(old(arrivals))
      ensures rs == if old(arrivals) == [] then WouldBlock else old(arrivals)[0].rs
      ensures state == if old(state) != StSrDataReceiving || old(arrivals) == [] || old(arrivals)[0].code.None?
                       then old(state)
                       else if old(arrivals)[0].code.value == RSP_CONTENT then StSrInitialized else StRegisterFail
    {
      if arrivals == [] {
        return WouldBlock;
      }
      var a := arrivals[0];
      arrivals := arrivals[1..];
      if a.code.Some? {
        CoapHandler(a.code.value);
      }
      rs := a.rs;
    }

    /** duer_coap_connect on sr */
    method CoapConnect() returns (rs: Status)
      requires sr.Some?
      modifies `connects, `connectedOn
      ensures connectedOn == if rs == Ok then sr else old(connectedOn)
      ensures rs == First(old(connects)) && connects == Rest(old(connects))
    {
      rs := if connects == [] then WouldBlock else connects[0];
      connects := if connects == [] then [] else connects[1..];
      if rs == Ok {
        connectedOn := sr;
      }
    }

    /** duer_coap_send of the registration on sr */
    method CoapSend() returns (rs: Status)
      requires sr.Some?
      modifies `sends, `postedOn
      ensures postedOn == if Negative(rs) then old(postedOn) else sr
      ensures rs == First(old(sends)) && sends == Rest(old(sends))
    {
      rs := if sends == [] then WouldBlock else sends[0];
      sends := if sends == [] then [] else sends[1..];
      if !Negative(rs) {
        postedOn := sr;
      }
    }

    /** duer_coap_acquire, if there is no connection yet */
    method Acquire()
      requires Valid() && Rank(StSrConnecting) <= Rank(state) <= Rank(StSrDataReceiving)
      modifies `sr, `nextHandle
      ensures Valid() && sr.Some? && StartFrom(Now()) == StartFrom(old(Now()))
    {
      hide FromReceiving, FromSending, FromConnecting;
      if sr == None {
        sr := Some(nextHandle);
        nextHandle := nextHandle + 1;
      }
    }

    /** The connection is made. */
    method Connect() returns (rs: Status)
      requires Valid() && state == StSrConnecting && sr.Some?
      modifies `state, `connects, `connectedOn
      ensures Valid() && state == if rs == Ok then StSrDataSending else StSrConnecting
      ensures StartFrom(old(Now())) == if rs == Ok then StartFrom(Now()) else (Now(), rs)
    {
      hide FromSending;
      rs := CoapConnect();
      if rs == Ok {
        state := StSrDataSending;
      }
    }

    /** The registration is sent. */
    method Register() returns (rs: Status)
      requires Valid() && state == StSrDataSending && sr.Some?
      modifies `state, `sends, `postedOn
      ensures Valid() && state == if Negative(rs) then StSrDataSending else StSrDataReceiving
      ensures StartFrom(old(Now())) == if Negative(rs) then (Now(), rs) else StartFrom(Now())
    {
      hide FromReceiving;
      rs := CoapSend();
      if !Negative(rs) {
        state := StSrDataReceiving;
      }
    }

    /** What an arrival makes of an agent that waits for the answer. */
    method Await() returns (rs: Status)
      requires Valid() && state == StSrDataReceiving && sr.Some?
      modifies `state, `answeredOn, `arrivals
      ensures Valid() && (state == StSrDataReceiving || state == StSrInitialized || state == StRegisterFail)
      ensures rs == Ok ==> |arrivals| < |old(arrivals)|
      ensures |arrivals| <= |old(arrivals)|
      ensures var result := if state == StRegisterFail && !Negative(rs) then RegFail else rs;
        StartFrom(old(Now())) == if result == Ok then StartFrom(Now()) else (Now(), result)
    {
      rs := CoapDataAvailable();
    }

    /** baidu_ca_create_service_router */
    method CreateServiceRouter() returns (rs: Status)
      requires Valid() && (state == StSrConnecting || state == StSrDataSending || state == StSrDataReceiving)
      modifies this
      ensures Valid() && |arrivals| <= |old(arrivals)|
      ensures Rank(state) >= Rank(old(state)) && state != StStarted
      ensures state == old(state) && rs == Ok ==> |arrivals| < |old(arrivals)|
      ensures state == StRegisterFail ==> rs != Ok
      ensures StartFrom(old(Now())) == if rs == Ok then StartFrom(Now()) else (Now(), rs)
    {
      hide StartFrom, Valid, Now;
      Acquire();
      rs := Failed;
      if state == StSrConnecting {
        rs := Connect();
      }
      if state == StSrDataSending {
        rs := Register();
        if Negative(rs) {
          return;
        }
      }
      if state == StSrDataReceiving {
        rs := Await();
        if Negative(rs) {
          return;
        }
      }
      if state == StRegisterFail {
        rs := RegFail;
      }
    }

    /** baidu_ca_run: one step of the start sequence, which does not change where it leads */
    method RunStep() returns (rs: Status)
      requires Valid()
      modifies this
      ensures Valid() && |arrivals| <= |old(arrivals)|
      ensures Rank(state) >= Rank(old(state))
      ensures rs == Ok && state == old(state) ==> state == StStarted || |arrivals| < |old(arrivals)|
      ensures old(state) == StUnregistered ==> state == StRegisterConnected && rs == Ok
      ensures old(state) == StRegisterConnected ==> state == StRegistered && rs == Ok
      ensures old(state) == StRegistered ==> state == StSrConnecting && rs == Ok
      ensures old(state) == StSrInitialized ==> state == StStarted && rs == Ok
      ensures old(state) == StStopped || old(state) == StRegisterFail ==> state == old(state) && rs == Failed
      ensures StartFrom(old(Now())) == if rs == Ok then StartFrom(Now()) else (Now(), rs)
    {
      hide FromReceiving, FromSending;
      rs := Failed;
      match state
      case StUnregistered =>
        state := StRegisterConnected;
        rs := Ok;
      case StRegisterConnected =>
        state := StRegistered;
        rs := Ok;
      case StRegistered =>
        state := StSrConnecting;
        rs := Ok;
      case StSrConnecting => rs := CreateServiceRouter();
      case StSrDataSending => rs := CreateServiceRouter();
      case StSrDataReceiving => rs := CreateServiceRouter();
      case StSrInitialized =>
        state := StStarted;
        rs := Ok;
      case StRptInitialized =>
        state := StStarted;
        rs := Ok;
      case StStopped => rs := Failed;
      case StStarted => rs := Ok;
      case _ =>
    }

    /** baidu_ca_do_start */
    method DoStart() returns (rs: Status)
      requires Valid()
      modifies this
      ensures Valid() && (rs == Ok ==> state == StStarted)
      ensures (Now(), rs) == StartFrom(old(Now()))
    {
      hide FromReceiving, FromSending, FromConnecting;
      rs := Ok;
      while state != StStarted && rs == Ok
        invariant Valid()
        invariant StartFrom(old(Now())) == if rs == Ok then StartFrom(Now()) else (Now(), rs)
        decreases 13 - Rank(state), |arrivals|, rs == Ok
      {
        rs := RunStep();
      }
    }

    /** baidu_ca_start */
    method Start() returns (rs: Status)
      requires Valid()
      modifies this
      ensures Valid() && (rs == Ok ==> state == StStarted)
      ensures (Now(), rs) == OnStart(old(Now()))
    {
      if state == StStopped {
        state := StUnregistered;
      }
      if state == StRegisterFail {
        rs := RegFail;
      } else {
        rs := DoStart();
      }
    }

    /** baidu_ca_data_available */
    method DataAvailable() returns (rs: Status)
      requires Valid()
      modifies this
      ensures Valid() && (Now(), rs) == OnData(old(Now()))
    {
      hide FromReceiving, FromSending, FromConnecting;
      rs := Failed;
      if Rank(state) >= Rank(StSrInitialized) {
        rs := CoapDataAvailable();
      }
      if Rank(state) < Rank(StStarted) {
        rs := DoStart();
      }
    }

    /** baidu_ca_stop */
    method Stop()
      requires Valid()
      modifies this
      ensures Valid() && Now() == OnStop(old(Now()))
      ensures connectedOn == postedOn == answeredOn == None
    {
      if Rank(state) > Rank(StStopped) {
        state := StStopped;
        sr := None;
      }
      connectedOn, postedOn, answeredOn := None, None, None;
    }

    /** baidu_ca_is_started, by the order of the states */
    predicate IsStarted()
      reads `state
    {
      Rank(state) >= Rank(StStarted)
    }
  }

  /** A full registration on the connection in use. */
  ghost predicate Registered(a: Agent)
    reads a
  {
    a.sr.Some? && a.connectedOn == a.sr && a.postedOn == a.sr && a.answeredOn == a.sr
  }

  /** An agent that counts as started has registered, if and only if the server did not refuse it. */
  lemma StartedMeans(a: Agent)
    requires a.Valid() && a.IsStarted()
    ensures Registered(a) <==> a.state != StRegisterFail
  {
  }

  datatype Action = DoStart | DoStop | DoDataAvailable

  function After(v: Snapshot, actions: seq<Action>): Snapshot {
    if actions == [] then v
    else
      var w := After(v, actions[..|actions| - 1]);
      match actions[|actions| - 1]
      case DoStart => OnStart(w).0
      case DoStop => OnStop(w)
      case DoDataAvailable => OnData(w).0
  }

  /** After any sequence of starts, stops and arrivals. */
  method Drive(a: Agent, actions: seq<Action>)
    requires a.Valid()
    modifies a
    ensures a.Valid() && a.Now() == After(old(a.Now()), actions)
    ensures a.state == StStarted ==> Registered(a)
    ensures Rank(a.state) >= Rank(StSrDataSending) ==> a.sr.Some?
  {
    hide OnStart, OnData, OnStop;
    var i := 0;
    while i < |actions|
      invariant 0 <= i <= |actions| && a.Valid() && a.Now() == After(old(a.Now()), actions[..i])
      decreases |actions| - i
    {
      assert actions[..i + 1][..i] == actions[..i];
      match actions[i] {
        case DoStart => var rs := a.Start();
        case DoStop => a.Stop();
        case DoDataAvailable => var rs := a.DataAvailable();
      }
      i := i + 1;
    }
    assert actions[..i] == actions;
  }

  /** A new agent whose registration is answered with 2.05 is started, and registered. */
  method Accepted() returns (a: Agent)
    ensures a.Valid() && a.state == StStarted && a.IsStarted() && Registered(a)
  {
    hide OnStart;
    a := new Agent([Ok], [Ok], [Arrival(Ok, Some(69))]);
    StartDecides(a.Now());
    var rs := a.Start();
  }

  /** A new agent whose registration is answered with 4.04 counts as started, and is not registered. */
  method Refused() returns (a: Agent)
    ensures a.Valid() && a.state == StRegisterFail && a.IsStarted() && !Registered(a)
  {
    hide OnStart;
    a := new Agent([Ok], [Ok], [Arrival(Ok, Some(132))]);
    StartDecides(a.Now());
    var rs := a.Start();
  }
}
