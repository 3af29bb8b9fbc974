// The audio player and the speech that interrupts it. Every handler runs to its
// end before the next one starts.
module AudioPlayer {
  import opened CText

  /** A song: its address and the token of the directive. */
  datatype Item = Item(url: string, token: string)

  datatype Activity = Playing | Stopped | Paused | BufferUnderrun | Finished

  /** What is left of a queue that is emptied up to the first null. */
  function BehindNull(queue: seq<Option<Item>>): (rest: seq<Option<Item>>)
    ensures (forall i :: 0 <= i < |queue| ==> queue[i].Some?) ==> rest == []
  {
    if queue == [] then [] else if queue[0].None? then queue[1..] else BehindNull(queue[1..])
  }

  /** The player and the speech at one moment. */
  datatype Snapshot = Snapshot(
    queue: seq<Option<Item>>,
    state: Activity,
    offset: int,
    latestToken: Option<string>,
    handedUrl: Option<string>,
    handedAt: int,
    speaking: bool,
    multipleRound: bool)

  datatype Event =
    | OnReplaceAll(item: Item)
    | OnEnqueue(item: Item)
    | OnReplaceEnqueued(item: Item)
    | OnClearEnqueued
    | OnClearAll
    | OnStop
    | OnAudioFinished
    | OnSpeak(position: int)
    | OnSpeechFinished
    | OnListenStarted(position: int)
    | OnListenStart

  // ----- what the handlers do

  function Head(queue: seq<Option<Item>>): Option<Item> {
    if queue == [] then None else queue[0]
  }

  function Rest(queue: seq<Option<Item>>): seq<Option<Item>> {
    if queue == [] then [] else queue[1..]
  }

  /** The head is played, or waits while there is speech; without a head the player is finished. */
  function Begin(v: Snapshot): Snapshot {
    match Head(v.queue)
    case None => v.(state := Finished)
    case Some(item) =>
      if v.speaking then v.(state := Paused, offset := 0)
      else v.(state := Playing, latestToken := Some(item.token), handedUrl := Some(item.url), handedAt := 0)
  }

  function PauseAt(v: Snapshot, position: int): Snapshot {
    if v.state == Playing then v.(state := Paused, offset := position) else v
  }

  function Resume(v: Snapshot): Snapshot {
    if v.state != Paused then v
    else if v.offset == 0 then Begin(v)
    else match Head(v.queue)
      case None => v.(state := Finished)
      case Some(item) => v.(state := Playing, handedUrl := Some(item.url), handedAt := v.offset)
  }

  function On(v: Snapshot, e: Event): Snapshot {
    match e
    case OnReplaceAll(item) => Begin(v.(queue := BehindNull(v.queue) + [Some(item)]))
    case OnEnqueue(item) =>
      var w := v.(queue := v.queue + [Some(item)]);
      if v.state == Finished then Begin(w) else w
    case OnReplaceEnqueued(item) =>
      var w := v.(queue := BehindNull(Rest(v.queue)) + [Head(v.queue)] + [Some(item)]);
      if v.state == Finished then Begin(w) else w
    case OnClearEnqueued => v.(queue := BehindNull(Rest(v.queue)) + [Head(v.queue)])
    case OnClearAll => v.(state := Stopped, queue := BehindNull(v.queue))
    case OnStop => v.(state := Stopped)
    case OnAudioFinished => if v.state == Playing then Begin(v.(queue := Rest(v.queue))) else v
    case OnSpeak(position) => PauseAt(v.(speaking := true), position)
    case OnSpeechFinished =>
      if !v.speaking then v
      else if v.multipleRound then v.(speaking := false)
      else Resume(v.(speaking := false))
    case OnListenStarted(position) => PauseAt(v.(multipleRound := false, speaking := false), position)
    case OnListenStart => v.(multipleRound := true)
  }

  function After(v: Snapshot, events: seq<Event>): Snapshot {
    if events == [] then v else On(After(v, events[..|events| - 1]), events[|events| - 1])
  }

  // ----- what is promised of the player

  /** The head of the queue is what was started last. */
  predicate HeadIsCurrent(v: Snapshot) {
    v.queue != [] && v.queue[0].Some? && v.latestToken == Some(v.queue[0].value.token)
  }

  /**
   * Audio and speech do not play together, what plays is the head of the
   * queue, and a finished player has nothing left.
   */
  predicate Agrees(v: Snapshot) {
    && !(v.state == Playing && v.speaking)
    && (v.state == Playing ==> HeadIsCurrent(v) && v.handedUrl == Some(v.queue[0].value.url))
    && (v.state == Finished ==> v.queue == [])
  }

  /** Good order; a null may only be at the head of the queue, and only while nothing plays or waits. */
  predicate InOrder(v: Snapshot) {
    && Agrees(v)
    && (forall i :: 1 <= i < |v.queue| ==> v.queue[i].Some?)
    && (v.queue != [] && v.queue[0].None? ==> v.state == Stopped || v.state == BufferUnderrun)
    && (v.state == Paused ==> v.queue != [])
    && (v.state == Paused && v.offset != 0 ==> HeadIsCurrent(v))
  }

  /** The two directives that need a head, when there is none and the player is finished. */
  predicate Breaks(v: Snapshot, e: Event) {
    (e.OnReplaceEnqueued? || e.OnClearEnqueued?) && v.queue == [] && v.state == Finished
  }

  lemma HeadKept(v: Snapshot, e: Event)
    requires InOrder(v) && (e.OnReplaceEnqueued? || e.OnClearEnqueued?)
    ensures InOrder(On(v, e)) <==> !Breaks(v, e)
    ensures Agrees(On(v, e)) <==> !Breaks(v, e)
  {
    var w := On(v, e);
    assert BehindNull(Rest(v.queue)) == [];
    assert w.queue[0] == Head(v.queue);
  }

  lemma OthersKeep(v: Snapshot, e: Event)
    requires InOrder(v) && !e.OnReplaceEnqueued? && !e.OnClearEnqueued?
    ensures InOrder(On(v, e)) && Agrees(On(v, e))
  {
  }

  /** A handler keeps good order and what is promised if and only if it is not one of those. */
  lemma HandlerKeeps(v: Snapshot, e: Event)
    requires InOrder(v)
    ensures InOrder(On(v, e)) <==> !Breaks(v, e)
    ensures Agrees(On(v, e)) <==> !Breaks(v, e)
  {
    hide InOrder, Agrees, On;
    if e.OnReplaceEnqueued? || e.OnClearEnqueued? {
      HeadKept(v, e);
    } else {
      OthersKeep(v, e);
    }
  }

  /** What is promised holds at the start and after every handler. */
  predicate AlwaysAgrees(v: Snapshot, events: seq<Event>) {
    forall i :: 0 <= i <= |events| ==> Agrees(After(v, events[..i]))
  }

  predicate NoneBreaks(v: Snapshot, events: seq<Event>) {
    forall i :: 0 <= i < |events| ==> !Breaks(After(v, events[..i]), events[i])
  }

  /**
   * Over every sequence of handlers the promises hold throughout, if and only if
   * no REPLACE_ENQUEUED or CLEAR_ENQUEUED comes to a finished player without a
   * head.
   */
  lemma {:induction false} PromisesHold(v: Snapshot, events: seq<Event>)
    requires InOrder(v)
    ensures AlwaysAgrees(v, events) <==> NoneBreaks(v, events)
    ensures NoneBreaks(v, events) ==> InOrder(After(v, events))
  {
    hide InOrder, Agrees, Breaks, On;
    if events == [] {
      assert events[..0] == events;
      AgreesInOrder(v);
    } else {
      var n := |events| - 1;
      var before := events[..n];
      assert forall i :: 0 <= i <= n ==> before[..i] == events[..i];
      assert events[..n + 1] == events;
      PromisesHold(v, before);
      if NoneBreaks(v, before) {
        HandlerKeeps(After(v, before), events[n]);
      }
    }
  }

  lemma AgreesInOrder(v: Snapshot)
    requires InOrder(v)
    ensures Agrees(v)
  {
  }

  /** Handlers that leave a paused song at the head alone while there is speech. */
  predicate Harmless(e: Event) {
    e.OnSpeak? || e.OnEnqueue? || e.OnReplaceEnqueued? || e.OnClearEnqueued? || e.OnAudioFinished?
  }

  /** The song at the head is paused at a position, and speech goes on that ends the dialogue. */
  predicate Interrupted(v: Snapshot, item: Item, position: int) {
    && v.speaking && !v.multipleRound && v.state == Paused && v.offset == position
    && Head(v.queue) == Some(item) && v.latestToken == Some(item.token)
    && forall i :: 1 <= i < |v.queue| ==> v.queue[i].Some?
  }

  lemma StaysInterrupted(v: Snapshot, e: Event, item: Item, position: int)
    requires Interrupted(v, item, position) && Harmless(e)
    ensures Interrupted(On(v, e), item, position)
  {
    assert BehindNull(Rest(v.queue)) == [];
  }

  lemma {:induction false} StillInterrupted(v: Snapshot, events: seq<Event>, item: Item, position: int)
    requires Interrupted(v, item, position) && forall i :: 0 <= i < |events| ==> Harmless(events[i])
    ensures Interrupted(After(v, events), item, position)
  {
    hide Interrupted, Harmless, On;
    if events != [] {
      var n := |events| - 1;
      StillInterrupted(v, events[..n], item, position);
      StaysInterrupted(After(v, events[..n]), events[n], item, position);
    }
  }

  /**
   * A song interrupted by speech goes on where it paused when the speech ends,
   * whatever is said, queued or cleared in the meantime.
   */
  lemma GoesOn(v: Snapshot, position: int, events: seq<Event>)
    requires InOrder(v) && v.state == Playing && !v.multipleRound
    requires forall i :: 0 <= i < |events| ==> Harmless(events[i])
    ensures var w := On(After(On(v, OnSpeak(position)), events), OnSpeechFinished);
      && w.state == Playing && !w.speaking && w.handedAt == position && w.handedUrl == v.handedUrl
      && w.latestToken == v.latestToken && Head(w.queue) == v.queue[0]
  {
    hide Harmless, After;
    StillInterrupted(On(v, OnSpeak(position)), events, v.queue[0].value, position);
  }

  // ----- what the other handlers are for

  /** A song waits at the head, at the position where it paused. */
  predicate Waits(v: Snapshot, item: Item, position: int) {
    && v.state == Paused && v.offset == position && Head(v.queue) == Some(item)
    && forall i :: 1 <= i < |v.queue| ==> v.queue[i].Some?
  }

  /** The end of a speech that is the end of the dialogue, or a directive for the song itself. */
  predicate EndsWait(v: Snapshot, e: Event) {
    || (e.OnSpeechFinished? && v.speaking && !v.multipleRound)
    || e.OnStop? || e.OnClearAll? || e.OnReplaceAll?
  }

  /** Between the rounds of a dialogue a song waits; it goes on, at its position, when the dialogue ends. */
  lemma BetweenRounds(v: Snapshot, e: Event, item: Item, position: int)
    requires Waits(v, item, position)
    ensures Waits(On(v, e), item, position) || EndsWait(v, e)
    ensures e.OnSpeechFinished? && EndsWait(v, e) ==>
              On(v, e).state == Playing && On(v, e).handedUrl == Some(item.url) && On(v, e).handedAt == position
    ensures e.OnListenStart? ==> On(v, e).multipleRound
    ensures e.OnListenStarted? ==> !On(v, e).multipleRound && !On(v, e).speaking
  {
    assert BehindNull(Rest(v.queue)) == [];
  }

  /** Stopped, the player plays nothing until all songs are replaced, whatever else happens. */
  lemma {:induction false} StopStops(v: Snapshot, e: Event, events: seq<Event>)
    requires e.OnStop? || e.OnClearAll?
    requires forall i :: 0 <= i < |events| ==> !events[i].OnReplaceAll?
    ensures After(On(v, e), events).state == Stopped
    decreases |events|
  {
    if events != [] {
      StopStops(v, e, events[..|events| - 1]);
    }
  }

  /** CLEAR_ALL leaves no song of a queue in good order with a head, and stops. */
  lemma ClearAllClears(v: Snapshot)
    requires InOrder(v) && (v.queue == [] || v.queue[0].Some?)
    ensures On(v, OnClearAll).queue == [] && On(v, OnClearAll).state == Stopped
  {
  }

  /** The songs are played in the order of the queue, each from its start, and then the player is finished. */
  lemma {:induction false} PlaysInOrder(v: Snapshot, k: nat)
    requires InOrder(v) && v.state == Playing && k <= |v.queue|
    ensures var w := After(v, seq(k, _ => OnAudioFinished));
      && w.queue == v.queue[k..] && !w.speaking
      && (forall i :: 0 <= i < |v.queue| ==> v.queue[i].Some?)
      && if k == |v.queue| then w.state == Finished
         else w.state == Playing && w.handedUrl == Some(v.queue[k].value.url) && (k > 0 ==> w.handedAt == 0)
  {
    var events := seq(k, _ => OnAudioFinished);
    if k > 0 {
      PlaysInOrder(v, k - 1);
      assert events[..k - 1] == seq(k - 1, _ => OnAudioFinished);
      assert v.queue[k - 1..][1..] == v.queue[k..];
    }
  }

  // ----- the code

  class Player {
    /** The play queue; a null in it is None. */
    var queue: seq<Option<Item>>
    var state: Activity
    var offset: int
    var latestToken: Option<string>
    /** The address given out last, to be played or taken up again, and from where. */
    var handedUrl: Option<string>
    var handedAt: int
    var speaking: bool
    var multipleRound: bool

    constructor ()
      ensures Now() == Snapshot([], Finished, 0, None, None, 0, false, false) && InOrder(Now())
    {
      queue, state, offset := [], Finished, 0;
      latestToken, handedUrl, handedAt := None, None, 0;
      speaking, multipleRound := false, false;
    }

    function Now(): Snapshot
      reads this
    {
      Snapshot(queue, state, offset, latestToken, handedUrl, handedAt, speaking, multipleRound)
    }

    /** duer_empty_play_queue, which stops behind the first null */
    method EmptyQueue()
      modifies `queue
      ensures queue == BehindNull(old(queue))
    {
      var more := true;
      while more
        invariant if more then BehindNull(queue) == BehindNull(old(queue)) else queue == BehindNull(old(queue))
        decreases more, |queue|
      {
        var item := Pop();
        more := item.Some?;
      }
    }

    method Pop() returns (item: Option<Item>)
      modifies `queue
      ensures item == Head(old(queue)) && queue == Rest(old(queue))
    {
      item := if queue == [] then None else queue[0];
      queue := if queue == [] then [] else queue[1..];
    }

    /** duer_start_audio_play: the head of the queue is played, or kept back while there is speech. */
    method StartAudio()
      modifies `state, `offset, `latestToken, `handedUrl, `handedAt
      ensures Now() == Begin(old(Now()))
    {
      if queue == [] || queue[0].None? {
        state := Finished;
        return;
      }
      if speaking {
        state := Paused;
        offset := 0;
        return;
      }
      state := Playing;
      latestToken := Some(queue[0].value.token);
      handedUrl := Some(queue[0].value.url);
      handedAt := 0;
    }

    /** Play with REPLACE_ALL. If a null was in the queue, what was behind it stays in front of the new song. */
    method ReplaceAll(item: Item)
      modifies this
      ensures Now() == On(old(Now()), OnReplaceAll(item))
      ensures old(InOrder(Now())) && old(Head(queue).Some? || queue == []) ==>
                && queue == [Some(item)]
                && if speaking then state == Paused && offset == 0
                   else state == Playing && handedUrl == Some(item.url) && latestToken == Some(item.token)
    {
      EmptyQueue();
      queue := queue + [Some(item)];
      StartAudio();
    }

    /** Play with ENQUEUE */
    method Enqueue(item: Item)
      modifies this
      ensures Now() == On(old(Now()), OnEnqueue(item)) && queue == old(queue) + [Some(item)]
      ensures old(InOrder(Now())) && old(state) == Finished ==>
                if speaking then state == Paused && offset == 0
                else state == Playing && handedUrl == Some(item.url) && latestToken == Some(item.token)
    {
      queue := queue + [Some(item)];
      if state == Finished {
        StartAudio();
      }
    }

    /**
     * Play with REPLACE_ENQUEUED: everything behind the head is replaced; without
     * a head a null takes its place.
     */
    method ReplaceEnqueued(item: Item)
      modifies this
      ensures Now() == On(old(Now()), OnReplaceEnqueued(item))
      ensures old(InOrder(Now())) ==>
                && queue == [Head(old(queue)), Some(item)] && state == old(state)
                && handedUrl == old(handedUrl) && latestToken == old(latestToken)
    {
      var head := Pop();
      EmptyQueue();
      queue := queue + [head];
      queue := queue + [Some(item)];
      assert old(InOrder(Now())) ==> queue[0] == head;
      if state == Finished {
        StartAudio();
      }
    }

    /** ClearQueue with CLEAR_ENQUEUED: only the head stays; without one a null is left behind. */
    method ClearEnqueued()
      modifies `queue
      ensures Now() == On(old(Now()), OnClearEnqueued)
      ensures old(InOrder(Now())) ==> queue == [Head(old(queue))]
    {
      var head := Pop();
      EmptyQueue();
      queue := queue + [head];
    }

    /** ClearQueue with CLEAR_ALL */
    method ClearAll()
      modifies `queue, `state
      ensures Now() == On(old(Now()), OnClearAll)
    {
      state := Stopped;
      EmptyQueue();
    }

    /** Stop */
    method Stop()
      modifies `state
      ensures Now() == On(old(Now()), OnStop)
    {
      state := Stopped;
    }

    /** duer_pause_audio_internal; position is what the pause handler reports */
    method PauseAudio(position: int)
      modifies `state, `offset
      ensures Now() == PauseAt(old(Now()), position)
    {
      if state == Playing {
        state := Paused;
        offset := position;
      }
    }

    /** duer_resume_audio_internal */
    method ResumeAudio()
      modifies `state, `offset, `latestToken, `handedUrl, `handedAt
      ensures Now() == Resume(old(Now()))
      ensures old(InOrder(Now())) && old(state) == Paused && !speaking ==>
                state == Playing && handedAt == old(offset) && handedUrl == Some(old(queue[0].value.url))
    {
      if state != Paused {
        return;
      }
      state := Playing;
      if offset == 0 {
        StartAudio();
      } else if queue == [] || queue[0].None? {
        state := Finished;
      } else {
        handedUrl := Some(queue[0].value.url);
        handedAt := offset;
      }
    }

    /** duer_dcs_audio_on_finished */
    method AudioFinished()
      modifies this
      ensures Now() == On(old(Now()), OnAudioFinished)
      ensures old(InOrder(Now())) && old(state) == Playing ==>
                && queue == old(queue)[1..]
                && if queue == [] then state == Finished
                   else state == Playing && handedAt == 0 && handedUrl == Some(queue[0].value.url)
    {
      if state != Playing {
        return;
      }
      var item := Pop();
      StartAudio();
    }

    /** Speak: speech starts and the audio pauses. */
    method Speak(position: int)
      modifies `speaking, `state, `offset
      ensures Now() == On(old(Now()), OnSpeak(position)) && speaking && state != Playing
    {
      speaking := true;
      PauseAudio(position);
    }

    /** duer_dcs_speech_on_finished: unless the dialogue goes on, the audio does. */
    method SpeechFinished()
      modifies this
      ensures Now() == On(old(Now()), OnSpeechFinished) && !speaking
      ensures old(InOrder(Now())) && old(speaking) && !multipleRound && old(state) == Paused ==>
                state == Playing && handedAt == old(offset) && handedUrl == Some(old(queue[0].value.url))
    {
      if speaking {
        speaking := false;
        if !multipleRound {
          ResumeAudio();
        }
      }
    }

    /** duer_dcs_on_listen_started: the user speaks; speech ends and the audio pauses. */
    method ListenStarted(position: int)
      modifies this
      ensures Now() == On(old(Now()), OnListenStarted(position)) && !speaking && state != Playing
    {
      multipleRound := false;
      speaking := false;
      PauseAudio(position);
    }

    /** ListenStart directive: the dialogue has more than one round. */
    method ListenStart()
      modifies `multipleRound
      ensures Now() == On(old(Now()), OnListenStart)
    {
      multipleRound := true;
    }
  }

  /**
   * Replacing the songs behind the head of an empty queue: the song is not
   * played, and a later song that is to replace everything is not played either.
   */
  method NothingToReplace(player: Player, a: Item, b: Item)
    requires InOrder(player.Now()) && player.queue == [] && player.state == Finished && !player.speaking
    modifies player
    ensures player.queue == [Some(a), Some(b)] && player.handedUrl == Some(a.url)
  {
    player.ReplaceEnqueued(a);
    assert player.state == Finished && player.queue == [None, Some(a)];
    player.ReplaceAll(b);
  }

  method Handle(player: Player, e: Event)
    modifies player
    ensures player.Now() == On(old(player.Now()), e)
    ensures old(InOrder(player.Now())) ==> (Agrees(player.Now()) <==> !Breaks(old(player.Now()), e))
  {
    hide On, InOrder, Agrees, Breaks;
    if InOrder(player.Now()) {
      HandlerKeeps(player.Now(), e);
    }
    match e
    case OnReplaceAll(item) => player.ReplaceAll(item);
    case OnEnqueue(item) => player.Enqueue(item);
    case OnReplaceEnqueued(item) => player.ReplaceEnqueued(item);
    case OnClearEnqueued => player.ClearEnqueued();
    case OnClearAll => player.ClearAll();
    case OnStop => player.Stop();
    case OnAudioFinished => player.AudioFinished();
    case OnSpeak(position) => player.Speak(position);
    case OnSpeechFinished => player.SpeechFinished();
    case OnListenStarted(position) => player.ListenStarted(position);
    case OnListenStart => player.ListenStart();
  }

  /**
   * Any sequence of handlers, one after the other. What is promised holds at the
   * end if no handler on the way breaks it.
   */
  method HandleAll(player: Player, events: seq<Event>)
    modifies player
    ensures player.Now() == After(old(player.Now()), events)
    ensures old(InOrder(player.Now())) && NoneBreaks(old(player.Now()), events) ==> Agrees(player.Now())
  {
    hide On, InOrder, Agrees, Breaks;
    ghost var start := player.Now();
    var i := 0;
    while i < |events|
      invariant 0 <= i <= |events| && player.Now() == After(start, events[..i])
    {
      assert events[..i + 1][..i] == events[..i];
      Handle(player, events[i]);
      i := i + 1;
    }
    assert events[..i] == events;
    if InOrder(start) {
      PromisesHold(start, events);
    }
  }
}
