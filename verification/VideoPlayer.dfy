/**
 The playback control of gtk/BaconVideoWidget.cc: wanted and actual state, buffering and
 queued seeks.
 */
module VideoPlayers {
  import opened Options

  datatype GstState = Null | Ready | Paused | Playing

  predicate AboveReady(s: GstState) {
    s == Paused || s == Playing
  }

  /**
   A state-changed message waiting on the bus. settled is what the state query reports to a
   pause that handling this message may lead to: false makes it take the pipeline for a live stream.
   */
  datatype StateMessage = StateMessage(fromPipeline: bool, oldState: GstState, newState: GstState, settled: bool)

  datatype Control = Control(target: GstState, pipeline: GstState, buffering: bool, file: int, bus: seq<StateMessage>)

  /** Milliseconds for positions, nanoseconds for the clock. */
  const SEEK_TIMEOUT := 1000000000 / 10
  const NO_SEEK := -1
  const NO_FILE := -1
  const MIN_RATE := 0.5
  const MAX_RATE := 3.0
  const FORWARD_RATE := Number(1.0)
  const REVERSE_RATE := Number(-1.0)

  /** A float, as far as it matters here: a NaN compares false with everything. */
  datatype Rate = Number(value: real) | NotANumber

  function Abs(x: real): real {
    if x < 0.0 then -x else x
  }

  predicate IsForward(rate: Rate) {
    rate.Number? && rate.value > 0.0
  }

  predicate FloatEqual(a: Rate, b: Rate) {
    a.Number? && b.Number? && Abs(a.value - b.value) < 0.00001
  }

  predicate BelowMin(rate: Rate) {
    rate.Number? && rate.value < MIN_RATE
  }

  predicate AboveMax(rate: Rate) {
    rate.Number? && rate.value > MAX_RATE
  }

  /**
   The queue of seeks, then its history since the last close: the clamped requests, the
   positions given to the pipeline, which request each of these was, and which one is queued.
   */
  datatype Seeks = Seeks(seekTime: int, reqTime: Option<nat>,
                         requests: seq<int>, given: seq<int>, issued: seq<nat>, queued: nat)

  const NO_SEEKS := Seeks(NO_SEEK, None, [], [], [], 0)

  datatype Player = Player(control: Control, seeks: Seeks, rate: Rate, streamLength: nat)

  const START := Player(Control(Null, Null, false, NO_FILE, []), NO_SEEKS, FORWARD_RATE, 0)

  // ----- stopping and pausing

  ghost function Pause(c: Control, settled: bool): (r: Control)
    ensures |r.bus| <= |c.bus| && r.file == c.file
    decreases |c.bus|, 2
  {
    if !settled && AboveReady(c.pipeline) then StopPipeline(c)
    else c.(target := Paused, pipeline := Paused)
  }

  /** Brings the pipeline down, works off the messages waiting, and drops what comes after. */
  ghost function StopPipeline(c: Control): (r: Control)
    ensures |r.bus| <= |c.bus| && r.file == c.file
    decreases |c.bus|, 1
  {
    var drained := if AboveReady(c.pipeline) then Drain(c.(pipeline := Ready)) else c;
    drained.(bus := [], target := Ready, buffering := false)
  }

  ghost function Drain(c: Control): (r: Control)
    ensures |r.bus| <= |c.bus| && r.file == c.file
    decreases |c.bus|, 0
  {
    if c.bus == [] then c else Drain(HandleMessage(c))
  }

  /** The first message on the bus: a pipeline reaching PAUSED is paused again if that is what is wanted. */
  ghost function HandleMessage(c: Control): (r: Control)
    requires c.bus != []
    ensures |r.bus| < |c.bus| && r.file == c.file
    decreases |c.bus| - 1, 3
  {
    var m := c.bus[0];
    var rest := c.(bus := c.bus[1..]);
    if m.fromPipeline && m.oldState == Ready && m.newState == Paused && c.target == Paused
    then Pause(rest, m.settled)
    else rest
  }

  // ----- playing and seeking

  /**
   Makes the rate positive if it is not. That needs the pipeline to tell its position and to
   take an event; accepted says whether it does.
   */
  predicate DirectionOk(rate: Rate, accepted: bool) {
    IsForward(rate) || accepted
  }

  function ForwardRate(rate: Rate, accepted: bool): Rate {
    if IsForward(rate) || !accepted then rate else FORWARD_RATE
  }

  ghost function Play(p: Player, accepted: bool): Player {
    var c := p.control;
    if c.file == NO_FILE then p
    else if c.pipeline == Playing || c.buffering || !DirectionOk(p.rate, accepted) then
      p.(control := c.(target := Playing))
    else
      p.(control := c.(target := Playing, pipeline := Playing), rate := ForwardRate(p.rate, accepted))
  }

  /** Pauses the pipeline and gives it a position; index says which request this was. */
  ghost function IssueSeek(p: Player, time: int, index: nat, accepted: bool): Player {
    if !DirectionOk(p.rate, accepted) then p
    else
      p.(control := p.control.(pipeline := Paused), rate := ForwardRate(p.rate, accepted),
         seeks := p.seeks.(seekTime := NO_SEEK, given := p.seeks.given + [time], issued := p.seeks.issued + [index]))
  }

  function Clamped(time: int, streamLength: nat): int {
    if time < streamLength then time else streamLength
  }

  /** Whether a request goes through at once rather than into the queue. */
  predicate GoesThrough(reqTime: Option<nat>, accurate: bool, now: nat) {
    reqTime.None? || now > reqTime.value + SEEK_TIMEOUT || accurate
  }

  ghost function SeekTo(p: Player, time: int, accurate: bool, now: nat, accepted: bool): Player {
    var t := Clamped(time, p.streamLength);
    var index := |p.seeks.requests|;
    var asked := p.seeks.(requests := p.seeks.requests + [t]);
    if GoesThrough(p.seeks.reqTime, accurate, now) then
      IssueSeek(p.(seeks := asked.(seekTime := NO_SEEK, reqTime := Some(now))), t, index, accepted)
    else
      p.(seeks := asked.(seekTime := t, queued := index))
  }

  /** A seek or a preroll has finished: carry out the queued seek, or resume if playing is wanted. */
  ghost function AsyncDone(p: Player, now: nat, accepted: bool): Player {
    var t := p.seeks.seekTime;
    var q := p.(seeks := p.seeks.(reqTime := Some(now), seekTime := NO_SEEK));
    if t >= 0 then IssueSeek(q, t, p.seeks.queued, accepted)
    else if p.control.target == Playing then Play(q, accepted)
    else q
  }

  ghost function Buffering(p: Player, percent: int, accepted: bool): Player {
    var c := p.control;
    if percent >= 100 then
      var q := p.(control := c.(buffering := false));
      if c.target == Playing then Play(q, accepted) else q
    else if c.target == Playing then
      p.(control := c.(pipeline := Paused, buffering := true))
    else
      p.(control := c.(buffering := true))
  }

  ghost function Close(p: Player): Player {
    Player(StopPipeline(p.control), NO_SEEKS, FORWARD_RATE, 0)
  }

  ghost function Open(p: Player, file: int): Player {
    var q := if p.control.file >= 0 then Close(p) else p;
    q.(control := q.control.(file := file, bus := []))
  }

  predicate TakesRate(rate: Rate, newRate: Rate, accepted: bool) {
    !FloatEqual(newRate, rate) && !BelowMin(newRate) && !AboveMax(newRate) && accepted
  }

  // ----- all steps, and runs of them

  /**
   Every callback and user call is one step on the main loop, and a state command to the pipeline
   takes effect at once. What the pipeline and the clock answer is a parameter of each step.
   */
  datatype Event =
    | Initialize
    | UserOpen(file: int)
    | UserClose
    | UserPlay(accepted: bool)
    | UserPause(settled: bool)
    | UserStop
    | UserSeek(time: int, accurate: bool, now: nat, accepted: bool)
    | UserSetRate(newRate: Rate, accepted: bool)
    | AsyncDoneMessage(now: nat, accepted: bool)
    | BufferingMessage(percent: int, accepted: bool)
    | ErrorMessage(handledElsewhere: bool)
    | StateMessagePosted(message: StateMessage)
    | StateMessageHandled
    | LengthLearnt(length: nat)

  ghost function Step(p: Player, e: Event): Player {
    match e
    case Initialize => p.(control := p.control.(target := Paused, pipeline := Paused))
    case UserOpen(file) => Open(p, file)
    case UserClose => Close(p)
    case UserPlay(accepted) => Play(p, accepted)
    case UserPause(settled) => p.(control := Pause(p.control, settled))
    case UserStop => p.(control := StopPipeline(p.control))
    case UserSeek(time, accurate, now, accepted) => SeekTo(p, time, accurate, now, accepted)
    case UserSetRate(newRate, accepted) => if TakesRate(p.rate, newRate, accepted) then p.(rate := newRate) else p
    case AsyncDoneMessage(now, accepted) => AsyncDone(p, now, accepted)
    case BufferingMessage(percent, accepted) => Buffering(p, percent, accepted)
    case ErrorMessage(handledElsewhere) =>
      if handledElsewhere then p
      else p.(control := p.control.(target := Null, pipeline := Null, buffering := false))
    case StateMessagePosted(message) => p.(control := p.control.(bus := p.control.bus + [message]))
    case StateMessageHandled => if p.control.bus == [] then p else p.(control := HandleMessage(p.control))
    case LengthLearnt(length) => if p.streamLength == 0 then p.(streamLength := length) else p
  }

  ghost function Run(p: Player, events: seq<Event>): Player
    decreases |events|
  {
    if events == [] then p else Run(Step(p, events[0]), events[1..])
  }

  lemma {:induction false} RunSnoc(p: Player, events: seq<Event>, e: Event)
    ensures Run(p, events + [e]) == Step(Run(p, events), e)
    decreases |events|
  {
    if events == [] {
      assert [e][1..] == [];
    } else {
      assert (events + [e])[1..] == events[1..] + [e];
      RunSnoc(Step(p, events[0]), events[1..], e);
    }
  }

  // ----- what a playing pipeline means

  ghost predicate PlayingIsWanted(c: Control) {
    c.pipeline == Playing ==> c.target == Playing && !c.buffering && c.file != NO_FILE
  }

  ghost predicate ControlInv(c: Control) {
    && PlayingIsWanted(c)
    && (c.target == Playing ==> c.file != NO_FILE)
    && c.file >= NO_FILE
  }

  /** Pausing and stopping never leave anything playing or wanting to. */
  ghost predicate AtRest(c: Control) {
    c.pipeline != Playing && c.target != Playing
  }

  lemma {:induction false} PauseRests(c: Control, settled: bool)
    ensures AtRest(Pause(c, settled))
    decreases |c.bus|, 2
  {
    if !settled && AboveReady(c.pipeline) {
      StopRests(c);
    }
  }

  lemma {:induction false} StopRests(c: Control)
    ensures AtRest(StopPipeline(c)) && StopPipeline(c).target == Ready
    decreases |c.bus|, 1
  {
    if AboveReady(c.pipeline) {
      DrainStaysDown(c.(pipeline := Ready));
    }
  }

  lemma {:induction false} DrainStaysDown(c: Control)
    requires c.pipeline != Playing
    ensures Drain(c).pipeline != Playing
    decreases |c.bus|, 0
  {
    if c.bus != [] {
      HandlingStaysDown(c);
      DrainStaysDown(HandleMessage(c));
    }
  }

  lemma {:induction false} HandlingStaysDown(c: Control)
    requires c.bus != [] && c.pipeline != Playing
    ensures HandleMessage(c).pipeline != Playing
    ensures c.target != Playing ==> HandleMessage(c).target != Playing
    decreases |c.bus| - 1, 3
  {
    PauseRests(c.(bus := c.bus[1..]), c.bus[0].settled);
  }

  lemma HandlingKeepsInv(c: Control)
    requires c.bus != [] && ControlInv(c)
    ensures ControlInv(HandleMessage(c))
  {
    PauseRests(c.(bus := c.bus[1..]), c.bus[0].settled);
  }

  lemma StepKeepsControlInv(p: Player, e: Event)
    requires ControlInv(p.control) && (e.UserOpen? ==> e.file >= NO_FILE)
    ensures ControlInv(Step(p, e).control)
  {
    match e {
      case UserOpen(_) => StopRests(p.control);
      case UserClose => StopRests(p.control);
      case UserStop => StopRests(p.control);
      case UserPause(settled) => PauseRests(p.control, settled);
      case StateMessageHandled =>
        if p.control.bus != [] {
          HandlingKeepsInv(p.control);
        }
      case _ =>
    }
  }

  ghost predicate OpensAreFiles(events: seq<Event>) {
    forall e | e in events && e.UserOpen? :: e.file >= NO_FILE
  }

  /** In every run that opens only file numbers or "none", a playing pipeline is wanted, fed and has a file. */
  lemma {:induction false} PlayingIsAlwaysWanted(p: Player, events: seq<Event>)
    requires ControlInv(p.control) && OpensAreFiles(events)
    ensures ControlInv(Run(p, events).control)
    decreases |events|
  {
    if events != [] {
      assert events[0] in events;
      StepKeepsControlInv(p, events[0]);
      PlayingIsAlwaysWanted(Step(p, events[0]), events[1..]);
    }
  }

  /** With another number it can go wrong: this run ends up playing with no file chosen. */
  lemma PlayingWithoutFile(file: int) returns (events: seq<Event>)
    requires file < NO_FILE
    ensures OpensAreFiles(events) && !PlayingIsWanted(Run(Step(START, UserOpen(file)), events).control)
  {
    events := [UserPlay(true), UserOpen(NO_FILE)];
    var playing := Step(Step(START, UserOpen(file)), UserPlay(true));
    assert playing.control.pipeline == Playing;
    assert events[1..] == [UserOpen(NO_FILE)] && [UserOpen(NO_FILE)][1..] == [];
    var last := Step(playing, UserOpen(NO_FILE));
    assert Run(playing, [UserOpen(NO_FILE)]) == Run(last, []) == last;
    assert Run(Step(START, UserOpen(file)), events) == last;
  }

  /** So a number may be opened without spoiling what follows exactly when it is a file's, or the one for none. */
  lemma OpeningIsSafeIff(file: int)
    ensures file >= NO_FILE <==>
            forall events | OpensAreFiles(events) ::
              PlayingIsWanted(Run(Step(START, UserOpen(file)), events).control)
  {
    if file >= NO_FILE {
      StepKeepsControlInv(START, UserOpen(file));
      forall events | OpensAreFiles(events)
        ensures PlayingIsWanted(Run(Step(START, UserOpen(file)), events).control)
      {
        PlayingIsAlwaysWanted(Step(START, UserOpen(file)), events);
      }
    } else {
      var events := PlayingWithoutFile(file);
    }
  }

  // ----- the user's pause holds

  lemma StepKeepsRest(p: Player, e: Event)
    requires AtRest(p.control) && !e.UserPlay?
    ensures AtRest(Step(p, e).control)
  {
    match e {
      case UserOpen(_) => StopRests(p.control);
      case UserClose => StopRests(p.control);
      case UserStop => StopRests(p.control);
      case UserPause(settled) => PauseRests(p.control, settled);
      case StateMessageHandled =>
        if p.control.bus != [] {
          HandlingStaysDown(p.control);
        }
      case _ =>
    }
  }

  lemma {:induction false} RestLasts(p: Player, events: seq<Event>)
    requires AtRest(p.control) && forall e | e in events :: !e.UserPlay?
    ensures AtRest(Run(p, events).control)
    decreases |events|
  {
    if events != [] {
      assert events[0] in events;
      StepKeepsRest(p, events[0]);
      RestLasts(Step(p, events[0]), events[1..]);
    }
  }

  /** After a pause by the user, whatever happens short of the user's next play, nothing plays. */
  lemma PauseHolds(p: Player, settled: bool, events: seq<Event>)
    requires forall e | e in events :: !e.UserPlay?
    ensures Run(Step(p, UserPause(settled)), events).control.pipeline != Playing
  {
    PauseRests(p.control, settled);
    RestLasts(Step(p, UserPause(settled)), events);
  }

  // ----- closing

  /** A message that makes a pause of the pipeline be repeated. */
  predicate RepeatsPause(m: StateMessage) {
    m.fromPipeline && m.oldState == Ready && m.newState == Paused
  }

  /**
   Whether a pipeline in READY (or in PAUSED, if paused says so) is in PAUSED once the messages
   are worked off while PAUSED is wanted. A message that repeats the pause sets it, unless the
   pause finds a live stream: then a pipeline in PAUSED is stopped, and only one in READY pauses.
   */
  predicate EndsPaused(bus: seq<StateMessage>, paused: bool)
    decreases |bus|
  {
    if bus == [] then paused
    else EndsPaused(bus[1..], if RepeatsPause(bus[0]) then bus[0].settled || !paused else paused)
  }

  lemma {:induction false} DrainWhilePausing(c: Control)
    requires c.target == Paused && (c.pipeline == Ready || c.pipeline == Paused)
    ensures Drain(c).pipeline == if EndsPaused(c.bus, c.pipeline == Paused) then Paused else Ready
    decreases |c.bus|
  {
    if c.bus != [] {
      var m, rest := c.bus[0], c.(bus := c.bus[1..]);
      if !RepeatsPause(m) {
        DrainWhilePausing(rest);
      } else if m.settled || c.pipeline == Ready {
        assert Pause(rest, m.settled) == rest.(pipeline := Paused);
        DrainWhilePausing(rest.(pipeline := Paused));
      } else {
        assert Pause(rest, false) == StopPipeline(rest);
        DrainWhilePausing(rest.(pipeline := Ready));
      }
    }
  }

  lemma {:induction false} DrainOtherwise(c: Control)
    requires c.target != Paused
    ensures Drain(c).pipeline == c.pipeline
    decreases |c.bus|
  {
    if c.bus != [] {
      DrainOtherwise(HandleMessage(c));
    }
  }

  /**
   Stopping leaves the pipeline "in READY or lower", as the source says, except exactly when
   PAUSED is wanted and the messages on the bus, worked off from READY, end in a repeated pause.
   */
  lemma StopLeavesPausedIff(c: Control)
    ensures AboveReady(StopPipeline(c).pipeline) <==>
            AboveReady(c.pipeline) && c.target == Paused && EndsPaused(c.bus, false)
  {
    if AboveReady(c.pipeline) {
      if c.target == Paused {
        DrainWhilePausing(c.(pipeline := Ready));
      } else {
        DrainOtherwise(c.(pipeline := Ready));
      }
    }
  }

  /** When every pause is settled, that is whenever some message repeats it. */
  lemma {:induction false} EndsPausedWhenSettled(bus: seq<StateMessage>, paused: bool)
    requires forall m | m in bus :: m.settled
    ensures EndsPaused(bus, paused) <==> paused || exists m | m in bus :: RepeatsPause(m)
    decreases |bus|
  {
    if bus != [] {
      assert forall m :: m in bus <==> m == bus[0] || m in bus[1..];
      EndsPausedWhenSettled(bus[1..], paused || RepeatsPause(bus[0]));
    }
  }

  /** A run at whose end the pipeline was stopped and is in PAUSED all the same. */
  lemma StopLeavesPaused() returns (events: seq<Event>)
    ensures AboveReady(Run(START, events).control.pipeline) && Run(START, events).control.target == Ready
  {
    var posted := StateMessagePosted(StateMessage(true, Ready, Paused, true));
    events := [Initialize, posted, UserStop];
    assert events == [] + [Initialize] + [posted] + [UserStop];
    RunSnoc(START, [], Initialize);
    RunSnoc(START, [] + [Initialize], posted);
    RunSnoc(START, [] + [Initialize] + [posted], UserStop);
    var c := Run(START, [] + [Initialize] + [posted]).control;
    StopLeavesPausedIff(c);
    StopRests(c);
    assert EndsPaused(c.bus, false) == EndsPaused(c.bus[1..], true);
  }

  // ----- the rate

  ghost predicate RateInv(rate: Rate) {
    rate.Number? && MIN_RATE <= rate.value <= MAX_RATE
  }

  /** Both bounds let a NaN through. */
  ghost predicate SetsNaN(e: Event) {
    e.UserSetRate? && e.newRate.NotANumber? && e.accepted
  }

  lemma RateStep(p: Player, e: Event)
    requires RateInv(p.rate)
    ensures RateInv(Step(p, e).rate) <==> !SetsNaN(e)
  {
  }

  lemma {:induction false} RateStaysInBounds(p: Player, events: seq<Event>)
    requires RateInv(p.rate) && forall e | e in events :: !SetsNaN(e)
    ensures RateInv(Run(p, events).rate)
    decreases |events|
  {
    if events != [] {
      assert events[0] in events;
      RateStep(p, events[0]);
      RateStaysInBounds(Step(p, events[0]), events[1..]);
    }
  }

  /** The rate is within bounds at every point of a run exactly when no NaN is set in it. */
  lemma RateStaysInBoundsIff(p: Player, events: seq<Event>)
    requires RateInv(p.rate)
    ensures (forall n | 0 <= n <= |events| :: RateInv(Run(p, events[..n]).rate)) <==>
            (forall e | e in events :: !SetsNaN(e))
  {
    if forall n | 0 <= n <= |events| :: RateInv(Run(p, events[..n]).rate) {
      forall e | e in events
        ensures !SetsNaN(e)
      {
        var i :| 0 <= i < |events| && events[i] == e;
        assert events[..i + 1] == events[..i] + [e];
        RunSnoc(p, events[..i], e);
        assert RateInv(Run(p, events[..i]).rate) && RateInv(Run(p, events[..i + 1]).rate);
        RateStep(Run(p, events[..i]), e);
      }
    }
    if forall e | e in events :: !SetsNaN(e) {
      forall n | 0 <= n <= |events|
        ensures RateInv(Run(p, events[..n]).rate)
      {
        RateStaysInBounds(p, events[..n]);
      }
    }
  }

  // ----- when a wanted playback plays

  /** A play that has to start the pipeline cannot, for want of a forward direction. */
  predicate RefusesPlay(c: Control, rate: Rate, accepted: bool) {
    c.pipeline != Playing && !c.buffering && !DirectionOk(rate, accepted)
  }

  /**
   Follows through a run whether a playback is held up: by a seek that was given to the pipeline,
   or by a refused play, with no play since that got through.
   */
  ghost predicate HeldUp(p: Player, events: seq<Event>, held: bool)
    decreases |events|
  {
    if events == [] then held
    else HeldUp(Step(p, events[0]), events[1..], HeldAfter(p, events[0], held))
  }

  ghost predicate HeldAfter(p: Player, e: Event, held: bool) {
    match e
    case UserPlay(accepted) => RefusesPlay(p.control, p.rate, accepted)
    case UserSeek(_, accurate, now, accepted) =>
      held || (GoesThrough(p.seeks.reqTime, accurate, now) && DirectionOk(p.rate, accepted))
    case AsyncDoneMessage(_, accepted) =>
      if p.seeks.seekTime >= 0 then held || DirectionOk(p.rate, accepted)
      else RefusesPlay(p.control, p.rate, accepted)
    case BufferingMessage(percent, accepted) =>
      if percent >= 100 then RefusesPlay(p.control.(buffering := false), p.rate, accepted) else held
    case _ => held
  }

  /** If it is wanted, it plays just when nothing is being buffered and nothing holds it up. */
  ghost predicate PlaysUnlessHeld(c: Control, held: bool) {
    c.target == Playing ==> (c.pipeline == Playing <==> !c.buffering && !held)
  }

  lemma StepPlaysUnlessHeld(p: Player, e: Event, held: bool)
    requires ControlInv(p.control) && PlaysUnlessHeld(p.control, held)
    ensures PlaysUnlessHeld(Step(p, e).control, HeldAfter(p, e, held))
  {
    match e {
      case UserOpen(_) => StopRests(p.control);
      case UserClose => StopRests(p.control);
      case UserStop => StopRests(p.control);
      case UserPause(settled) => PauseRests(p.control, settled);
      case StateMessageHandled =>
        if p.control.bus != [] && p.control.target != Playing {
          HandlingStaysDown(p.control);
        }
      case _ =>
    }
  }

  /**
   In every run, a wanted playback plays exactly when nothing is being buffered and nothing holds
   it up: the end of buffering and the end of the last seek start it again by themselves.
   */
  lemma {:induction false} WantedPlaysIff(p: Player, events: seq<Event>, held: bool)
    requires ControlInv(p.control) && OpensAreFiles(events) && PlaysUnlessHeld(p.control, held)
    ensures PlaysUnlessHeld(Run(p, events).control, HeldUp(p, events, held))
    decreases |events|
  {
    if events != [] {
      assert events[0] in events;
      StepKeepsControlInv(p, events[0]);
      StepPlaysUnlessHeld(p, events[0], held);
      WantedPlaysIff(Step(p, events[0]), events[1..], HeldAfter(p, events[0], held));
    }
  }

  // ----- what the pipeline is told to seek to

  /** The positions given are requests, in the order they were made, none twice. */
  ghost predicate GivenInOrder(s: Seeks) {
    && |s.given| == |s.issued|
    && (forall k | 0 <= k < |s.issued| :: s.issued[k] < |s.requests| && s.given[k] == s.requests[s.issued[k]])
    && (forall j, k | 0 <= j < k < |s.issued| :: s.issued[j] < s.issued[k])
  }

  /** The newest request is waiting in the queue, or it is the last one the pipeline was given. */
  ghost predicate NewestNotLost(s: Seeks) {
    s.requests != [] ==>
      || (s.seekTime >= 0 && s.queued == |s.requests| - 1)
      || (s.issued != [] && s.issued[|s.issued| - 1] == |s.requests| - 1)
  }

  ghost predicate SeeksInv(s: Seeks) {
    && GivenInOrder(s)
    && (s.seekTime >= 0 ==>
          && s.requests != [] && s.queued == |s.requests| - 1 && s.requests[s.queued] == s.seekTime
          && (s.issued != [] ==> s.issued[|s.issued| - 1] < s.queued))
  }

  /** The request reaches the pipeline, unless that cannot be turned forward. */
  lemma IssuingKeepsInv(p: Player, time: int, index: nat, accepted: bool)
    requires GivenInOrder(p.seeks) && index < |p.seeks.requests| && p.seeks.requests[index] == time
    requires p.seeks.seekTime < 0 && (p.seeks.issued != [] ==> p.seeks.issued[|p.seeks.issued| - 1] < index)
    ensures
      var s := IssueSeek(p, time, index, accepted).seeks;
      && SeeksInv(s) && s.requests == p.seeks.requests
      && if DirectionOk(p.rate, accepted) then s.issued == p.seeks.issued + [index] && s.seekTime < 0 else s == p.seeks
  {
  }

  lemma SeekingKeepsInv(p: Player, time: int, accurate: bool, now: nat, accepted: bool)
    requires SeeksInv(p.seeks)
    ensures
      var s := SeekTo(p, time, accurate, now, accepted).seeks;
      && SeeksInv(s)
      && (NewestNotLost(s) <==>
          if GoesThrough(p.seeks.reqTime, accurate, now) then DirectionOk(p.rate, accepted) else time >= 0)
  {
    var t, index := Clamped(time, p.streamLength), |p.seeks.requests|;
    var asked := p.seeks.(requests := p.seeks.requests + [t]);
    assert GivenInOrder(asked);
    if GoesThrough(p.seeks.reqTime, accurate, now) {
      IssuingKeepsInv(p.(seeks := asked.(seekTime := NO_SEEK, reqTime := Some(now))), t, index, accepted);
    }
  }

  lemma AsyncDoneKeepsInv(p: Player, now: nat, accepted: bool)
    requires SeeksInv(p.seeks)
    ensures
      var s := AsyncDone(p, now, accepted).seeks;
      && SeeksInv(s)
      && (NewestNotLost(s) <==>
          NewestNotLost(p.seeks) && (p.seeks.seekTime >= 0 ==> DirectionOk(p.rate, accepted)))
  {
    var q := p.(seeks := p.seeks.(reqTime := Some(now), seekTime := NO_SEEK));
    if p.seeks.seekTime >= 0 {
      IssuingKeepsInv(q, p.seeks.seekTime, p.seeks.queued, accepted);
      assert NewestNotLost(p.seeks);
      assert AsyncDone(p, now, accepted) == IssueSeek(q, p.seeks.seekTime, p.seeks.queued, accepted);
    } else {
      assert AsyncDone(p, now, accepted).seeks == q.seeks;
    }
  }

  lemma StepKeepsSeeksInv(p: Player, e: Event)
    requires SeeksInv(p.seeks)
    ensures SeeksInv(Step(p, e).seeks)
  {
    match e {
      case UserSeek(time, accurate, now, accepted) => SeekingKeepsInv(p, time, accurate, now, accepted);
      case AsyncDoneMessage(now, accepted) => AsyncDoneKeepsInv(p, now, accepted);
      case _ =>
    }
  }

  /** In every run the positions given to the pipeline are an in-order subsequence of the requests. */
  lemma {:induction false} SeeksStayInOrder(p: Player, events: seq<Event>)
    requires SeeksInv(p.seeks)
    ensures SeeksInv(Run(p, events).seeks)
    decreases |events|
  {
    if events != [] {
      StepKeepsSeeksInv(p, events[0]);
      SeeksStayInOrder(Step(p, events[0]), events[1..]);
    }
  }

  /**
   Follows the newest request through a run. It is lost when it is negative and has to wait, and
   when its turn comes and the pipeline cannot be turned forward; the next request, or a close,
   makes up for it.
   */
  ghost predicate NewestKept(p: Player, events: seq<Event>, kept: bool)
    decreases |events|
  {
    if events == [] then kept
    else NewestKept(Step(p, events[0]), events[1..], KeptAfter(p, events[0], kept))
  }

  ghost predicate KeptAfter(p: Player, e: Event, kept: bool) {
    match e
    case UserSeek(time, accurate, now, accepted) =>
      if GoesThrough(p.seeks.reqTime, accurate, now) then DirectionOk(p.rate, accepted) else time >= 0
    case AsyncDoneMessage(_, accepted) => kept && (p.seeks.seekTime >= 0 ==> DirectionOk(p.rate, accepted))
    case UserClose => true
    case UserOpen(_) => kept || p.control.file >= 0
    case _ => kept
  }

  lemma StepKeepsNewestIff(p: Player, e: Event)
    requires SeeksInv(p.seeks)
    ensures NewestNotLost(Step(p, e).seeks) <==> KeptAfter(p, e, NewestNotLost(p.seeks))
  {
    match e {
      case UserSeek(time, accurate, now, accepted) => SeekingKeepsInv(p, time, accurate, now, accepted);
      case AsyncDoneMessage(now, accepted) => AsyncDoneKeepsInv(p, now, accepted);
      case _ =>
    }
  }

  /** In every run, whatever the requests and the rates, the newest is not lost exactly if the last one was not. */
  lemma {:induction false} NewestSeekSurvivesIff(p: Player, events: seq<Event>)
    requires SeeksInv(p.seeks)
    ensures NewestNotLost(Run(p, events).seeks) <==> NewestKept(p, events, NewestNotLost(p.seeks))
    decreases |events|
  {
    if events != [] {
      StepKeepsSeeksInv(p, events[0]);
      StepKeepsNewestIff(p, events[0]);
      NewestSeekSurvivesIff(Step(p, events[0]), events[1..]);
    }
  }

  lemma {:induction false} NoneIsLost(p: Player, events: seq<Event>)
    requires RateInv(p.rate) && forall e | e in events :: !SetsNaN(e) && (e.UserSeek? ==> e.time >= 0)
    ensures NewestKept(p, events, true)
    decreases |events|
  {
    if events != [] {
      assert events[0] in events;
      RateStep(p, events[0]);
      NoneIsLost(Step(p, events[0]), events[1..]);
    }
  }

  /** As long as no request is negative and the rate is a number, the newest one is never lost. */
  lemma NewestSeekSurvives(p: Player, events: seq<Event>)
    requires SeeksInv(p.seeks) && RateInv(p.rate) && NewestNotLost(p.seeks)
    requires forall e | e in events :: !SetsNaN(e) && (e.UserSeek? ==> e.time >= 0)
    ensures NewestNotLost(Run(p, events).seeks)
  {
    NewestSeekSurvivesIff(p, events);
    NoneIsLost(p, events);
  }

  /** A negative request right after another one: the run has lost it. */
  lemma NegativeSeekIsLost() returns (events: seq<Event>)
    ensures !NewestNotLost(Run(START, events).seeks)
  {
    var one, two := UserSeek(0, false, 0, true), UserSeek(-5, false, 1, true);
    events := [] + [one] + [two];
    RunSnoc(START, [], one);
    RunSnoc(START, [] + [one], two);
    var first := Step(START, one);
    StepKeepsSeeksInv(START, one);
    assert !GoesThrough(first.seeks.reqTime, false, 1);
    SeekingKeepsInv(first, -5, false, 1, true);
  }

  // ----- what the events so far decide

  /** The number opened last. */
  ghost function LastFile(events: seq<Event>): int
    decreases |events|
  {
    if events == [] then -1
    else
      var e := events[|events| - 1];
      if e.UserOpen? then e.file else LastFile(events[..|events| - 1])
  }

  /** A file is closed by the user, or because another number is opened. */
  ghost predicate Closes(before: seq<Event>, e: Event) {
    e.UserClose? || (e.UserOpen? && LastFile(before) >= 0)
  }

  /** The first length other than zero that was learnt since the last close; zero if there is none. */
  ghost function KnownLength(events: seq<Event>): nat
    decreases |events|
  {
    if events == [] then 0
    else
      var before, e := events[..|events| - 1], events[|events| - 1];
      if Closes(before, e) then 0
      else if e.LengthLearnt? && KnownLength(before) == 0 then e.length
      else KnownLength(before)
  }

  /** Where a seek should go: to the time the user asked for, or to the end if that is past it. */
  ghost function Position(before: seq<Event>, e: Event): int
    requires e.UserSeek?
  {
    if e.time <= KnownLength(before) then e.time else KnownLength(before)
  }

  /** These positions for all seeks of the user since the last close. */
  ghost function Asked(events: seq<Event>): seq<int>
    decreases |events|
  {
    if events == [] then []
    else
      var before, e := events[..|events| - 1], events[|events| - 1];
      if Closes(before, e) then []
      else Asked(before) + if e.UserSeek? then [Position(before, e)] else []
  }

  /** When a seek last went through or finished since the last close. */
  ghost function LastSeek(events: seq<Event>): Option<nat>
    decreases |events|
  {
    if events == [] then None
    else
      var before, e := events[..|events| - 1], events[|events| - 1];
      if Closes(before, e) then None
      else if e.AsyncDoneMessage? then Some(e.now)
      else if e.UserSeek? && IsDue(LastSeek(before), e) then Some(e.now)
      else LastSeek(before)
  }

  /** A seek need not wait: it is accurate, or the last one is more than a tenth of a second ago, or there was none. */
  ghost predicate IsDue(last: Option<nat>, e: Event)
    requires e.UserSeek?
  {
    e.accurate || last.None? || e.now - last.value > 100000000
  }

  lemma {:induction false} AccountsHold(events: seq<Event>)
    ensures
      var p := Run(START, events);
      && p.control.file == LastFile(events) && p.streamLength == KnownLength(events)
      && p.seeks.requests == Asked(events) && p.seeks.reqTime == LastSeek(events)
    decreases |events|
  {
    if events != [] {
      var before, e := events[..|events| - 1], events[|events| - 1];
      assert events == before + [e];
      AccountsHold(before);
      RunSnoc(START, before, e);
      StepAccounts(Run(START, before), e);
    }
  }

  /** What one step does to the file, the length, the requests and the time of the last seek. */
  lemma StepAccounts(p: Player, e: Event)
    ensures
      var t := Step(p, e);
      var closes := e.UserClose? || (e.UserOpen? && p.control.file >= 0);
      && t.control.file == (if e.UserOpen? then e.file else p.control.file)
      && t.streamLength ==
         (if closes then 0 else if e.LengthLearnt? && p.streamLength == 0 then e.length else p.streamLength)
      && t.seeks.requests ==
         (if closes then []
          else p.seeks.requests + if e.UserSeek? then [if e.time <= p.streamLength then e.time else p.streamLength] else [])
      && t.seeks.reqTime ==
         (if closes then None
          else if e.AsyncDoneMessage? || (e.UserSeek? && IsDue(p.seeks.reqTime, e)) then Some(e.now)
          else p.seeks.reqTime)
  {
  }

  /**
   In every run from the start, the requests on record are the times the user asked for since the
   last close, each cut to the length known when it was made, and the positions given to the
   pipeline are some of these, in their order.
   */
  lemma PositionsAreAsked(events: seq<Event>)
    ensures
      var s := Run(START, events).seeks;
      && s.requests == Asked(events) && |s.given| == |s.issued|
      && (forall k | 0 <= k < |s.given| :: s.issued[k] < |Asked(events)| && s.given[k] == Asked(events)[s.issued[k]])
      && (forall j, k | 0 <= j < k < |s.given| :: s.issued[j] < s.issued[k])
  {
    AccountsHold(events);
    SeeksStayInOrder(START, events);
  }

  /** The rate is positive, or the pipeline lets itself be turned forward. */
  ghost predicate TurnsForward(p: Player, accepted: bool) {
    (p.rate.Number? && p.rate.value > 0.0) || accepted
  }

  /**
   When a position is given: that of a seek that need not wait, at once; that of the last one
   that had to wait, when the seek before it finishes; and none otherwise.
   */
  lemma GivenGrowsIff(events: seq<Event>, e: Event)
    ensures
      var p, t := Run(START, events), Run(START, events + [e]);
      && t.seeks.given ==
         (if Closes(events, e) then []
          else if e.UserSeek? && IsDue(LastSeek(events), e) && TurnsForward(p, e.accepted) then
            p.seeks.given + [Position(events, e)]
          else if e.AsyncDoneMessage? && p.seeks.seekTime >= 0 && TurnsForward(p, e.accepted) then
            p.seeks.given + [p.seeks.seekTime]
          else p.seeks.given)
      && (e.UserSeek? && !IsDue(LastSeek(events), e) ==> t.seeks.seekTime == Position(events, e))
      && (p.seeks.seekTime >= 0 ==> Asked(events) != [] && p.seeks.seekTime == Asked(events)[|Asked(events)| - 1])
  {
    AccountsHold(events);
    RunSnoc(START, events, e);
    SeeksStayInOrder(START, events);
  }

  /** What makes the widget stop wanting to play. */
  ghost predicate Revokes(before: seq<Event>, e: Event) {
    || e.Initialize? || e.UserPause? || e.UserStop? || Closes(before, e)
    || (e.ErrorMessage? && !e.handledElsewhere)
  }

  ghost predicate StandsFrom(events: seq<Event>, i: nat)
    requires i < |events|
  {
    forall j | i < j < |events| :: !Revokes(events[..j], events[j])
  }

  /** The user asked for a file to be played, and nothing has revoked that. */
  ghost predicate Wanted(events: seq<Event>) {
    exists i | 0 <= i < |events| :: events[i].UserPlay? && LastFile(events[..i]) != -1 && StandsFrom(events, i)
  }

  lemma StandsFromAfter(events: seq<Event>, e: Event, i: nat)
    requires i < |events|
    ensures StandsFrom(events + [e], i) <==> StandsFrom(events, i) && !Revokes(events, e)
  {
    var all := events + [e];
    assert all[|events|] == e && all[..|events|] == events;
    assert forall j | 0 <= j < |events| :: all[j] == events[j] && all[..j] == events[..j];
  }

  lemma WantedAfter(events: seq<Event>, e: Event)
    ensures Wanted(events + [e]) <==>
            (e.UserPlay? && LastFile(events) != -1) || (Wanted(events) && !Revokes(events, e))
  {
    var all := events + [e];
    forall i | 0 <= i < |events|
      ensures all[i] == events[i] && all[..i] == events[..i]
      ensures StandsFrom(all, i) <==> StandsFrom(events, i) && !Revokes(events, e)
    {
      StandsFromAfter(events, e, i);
    }
    assert all[|events|] == e && all[..|events|] == events && StandsFrom(all, |events|);
  }

  lemma StepWants(p: Player, e: Event)
    ensures
      var closes := e.UserClose? || (e.UserOpen? && p.control.file >= 0);
      var revokes := e.Initialize? || e.UserPause? || e.UserStop? || closes || (e.ErrorMessage? && !e.handledElsewhere);
      Step(p, e).control.target == Playing <==>
      (e.UserPlay? && p.control.file != -1) || (p.control.target == Playing && !revokes)
  {
    match e {
      case UserOpen(_) => StopRests(p.control);
      case UserClose => StopRests(p.control);
      case UserStop => StopRests(p.control);
      case UserPause(settled) => PauseRests(p.control, settled);
      case StateMessageHandled =>
        if p.control.bus != [] {
          PauseRests(p.control.(bus := p.control.bus[1..]), p.control.bus[0].settled);
        }
      case _ =>
    }
  }

  /** In every run from the start, playing is wanted exactly when a play of some file has not been revoked since. */
  lemma {:induction false} WantedIff(events: seq<Event>)
    ensures Run(START, events).control.target == Playing <==> Wanted(events)
    decreases |events|
  {
    if events != [] {
      var before, e := events[..|events| - 1], events[|events| - 1];
      assert events == before + [e];
      WantedIff(before);
      AccountsHold(before);
      RunSnoc(START, before, e);
      StepWants(Run(START, before), e);
      WantedAfter(before, e);
    }
  }

  /** What ends a stretch of buffering for certain. */
  ghost predicate EndsBuffering(before: seq<Event>, e: Event) {
    e.BufferingMessage? || e.UserStop? || Closes(before, e) || (e.ErrorMessage? && !e.handledElsewhere)
  }

  /** What may lead to a stop, and so end it: a pause that takes the pipeline for a live stream. */
  ghost predicate MayStop(e: Event) {
    (e.UserPause? && !e.settled) || e.StateMessageHandled?
  }

  /** From event i on nothing has ended the buffering; certain says that nothing may have. */
  ghost predicate LagsFrom(events: seq<Event>, i: nat, certain: bool)
    requires i < |events|
  {
    forall j | i < j < |events| :: !EndsBuffering(events[..j], events[j]) && !(certain && MayStop(events[j]))
  }

  /** The last word on buffering was less than 100 percent, and nothing has ended it since. */
  ghost predicate Lagging(events: seq<Event>, certain: bool) {
    exists i | 0 <= i < |events| :: events[i].BufferingMessage? && events[i].percent < 100 && LagsFrom(events, i, certain)
  }

  lemma LagsFromAfter(events: seq<Event>, e: Event, i: nat, certain: bool)
    requires i < |events|
    ensures LagsFrom(events + [e], i, certain) <==>
            LagsFrom(events, i, certain) && !EndsBuffering(events, e) && !(certain && MayStop(e))
  {
    var all := events + [e];
    assert all[|events|] == e && all[..|events|] == events;
    assert forall j | 0 <= j < |events| :: all[j] == events[j] && all[..j] == events[..j];
  }

  lemma LaggingAfter(events: seq<Event>, e: Event, certain: bool)
    ensures Lagging(events + [e], certain) <==>
            || (e.BufferingMessage? && e.percent < 100)
            || (Lagging(events, certain) && !EndsBuffering(events, e) && !(certain && MayStop(e)))
  {
    var all := events + [e];
    forall i | 0 <= i < |events|
      ensures all[i] == events[i]
      ensures LagsFrom(all, i, certain) <==>
              LagsFrom(events, i, certain) && !EndsBuffering(events, e) && !(certain && MayStop(e))
    {
      LagsFromAfter(events, e, i, certain);
    }
    assert all[|events|] == e && LagsFrom(all, |events|, certain);
  }

  lemma PauseBuffers(c: Control, settled: bool)
    ensures Pause(c, settled).buffering ==> c.buffering
    ensures settled ==> Pause(c, settled).buffering == c.buffering
  {
    assert !StopPipeline(c).buffering;
  }

  lemma StepBuffers(p: Player, e: Event)
    ensures
      var closes := e.UserClose? || (e.UserOpen? && p.control.file >= 0);
      var t := Step(p, e);
      if e.BufferingMessage? then t.control.buffering <==> e.percent < 100
      else if e.UserStop? || closes || (e.ErrorMessage? && !e.handledElsewhere) then !t.control.buffering
      else if MayStop(e) then t.control.buffering ==> p.control.buffering
      else t.control.buffering == p.control.buffering
  {
    match e {
      case UserPause(settled) => PauseBuffers(p.control, settled);
      case StateMessageHandled =>
        if p.control.bus != [] {
          PauseBuffers(p.control.(bus := p.control.bus[1..]), p.control.bus[0].settled);
        }
      case _ =>
    }
  }

  /** In every run from the start the widget takes the pipeline to be buffering when the events say so, and only then. */
  lemma {:induction false} BufferingFollows(events: seq<Event>)
    ensures Run(START, events).control.buffering ==> Lagging(events, false)
    ensures Lagging(events, true) ==> Run(START, events).control.buffering
    decreases |events|
  {
    if events != [] {
      var before, e := events[..|events| - 1], events[|events| - 1];
      assert events == before + [e];
      BufferingFollows(before);
      AccountsHold(before);
      RunSnoc(START, before, e);
      StepBuffers(Run(START, before), e);
      LaggingAfter(before, e, false);
      LaggingAfter(before, e, true);
    }
  }

  /** So nothing plays in any run but what the user asked for and has not revoked, and not while it is buffering. */
  lemma PlayingMeans(events: seq<Event>)
    requires OpensAreFiles(events) && Run(START, events).control.pipeline == Playing
    ensures Wanted(events) && !Lagging(events, true) && LastFile(events) >= 0
  {
    PlayingIsAlwaysWanted(START, events);
    WantedIff(events);
    BufferingFollows(events);
    AccountsHold(events);
  }

  /** The rate set last since the last close, of those that differ and lie within the bounds; 1.0 if there is none. */
  ghost function LastRate(events: seq<Event>): real
    decreases |events|
  {
    if events == [] then 1.0
    else
      var before, e := events[..|events| - 1], events[|events| - 1];
      var rate := LastRate(before);
      if Closes(before, e) then 1.0
      else if e.UserSetRate? && e.accepted && e.newRate.Number? && 0.5 <= e.newRate.value <= 3.0
              && (e.newRate.value - rate >= 0.00001 || rate - e.newRate.value >= 0.00001) then e.newRate.value
      else rate
  }

  lemma {:induction false} RateIsLastRate(events: seq<Event>)
    requires forall e | e in events :: !SetsNaN(e)
    ensures Run(START, events).rate == Number(LastRate(events)) && 0.5 <= LastRate(events) <= 3.0
    decreases |events|
  {
    if events != [] {
      var before, e := events[..|events| - 1], events[|events| - 1];
      assert events == before + [e] && e in events && forall d | d in before :: d in events;
      RateIsLastRate(before);
      AccountsHold(before);
      RunSnoc(START, before, e);
      StepRate(Run(START, before), e);
    }
  }

  lemma StepRate(p: Player, e: Event)
    requires p.rate.Number? && p.rate.value > 0.0 && !SetsNaN(e)
    ensures
      var closes := e.UserClose? || (e.UserOpen? && p.control.file >= 0);
      var rate := p.rate.value;
      Step(p, e).rate ==
        if closes then Number(1.0)
        else if e.UserSetRate? && e.accepted && e.newRate.Number? && 0.5 <= e.newRate.value <= 3.0
                && (e.newRate.value - rate >= 0.00001 || rate - e.newRate.value >= 0.00001) then e.newRate
        else p.rate
  {
  }

  // ----- the widget

  class BaconVideoWidget {
    var target: GstState
    var pipeline: GstState
    var buffering: bool
    var file: int
    var bus: seq<StateMessage>
    var seekTime: int
    var reqTime: Option<nat>
    var rate: Rate
    var streamLength: nat
    ghost var requests: seq<int>
    ghost var given: seq<int>
    ghost var issued: seq<nat>
    ghost var queued: nat

    ghost function ControlNow(): Control
      reads this`target, this`pipeline, this`buffering, this`file, this`bus
    {
      Control(target, pipeline, buffering, file, bus)
    }

    ghost function SeeksNow(): Seeks
      reads this`seekTime, this`reqTime, this`requests, this`given, this`issued, this`queued
    {
      Seeks(seekTime, reqTime, requests, given, issued, queued)
    }

    ghost function State(): Player
      reads this
    {
      Player(ControlNow(), SeeksNow(), rate, streamLength)
    }

    constructor ()
      ensures State() == START
    {
      target, pipeline, buffering, file, bus := Null, Null, false, NO_FILE, [];
      seekTime, reqTime, rate, streamLength := NO_SEEK, None, FORWARD_RATE, 0;
      requests, given, issued, queued := [], [], [], 0;
    }

    method InitializeState()
      modifies this`target, this`pipeline
      ensures State() == Step(old(State()), Initialize) && target == pipeline == Paused
    {
      target := Ready;
      pipeline := Ready;
      target := Paused;
      pipeline := Paused;
    }

    method SetPlaybackDirection(forward: bool, accepted: bool) returns (ok: bool)
      modifies this`rate
      ensures ok <==> forward == IsForward(old(rate)) || accepted
      ensures rate == if forward == IsForward(old(rate)) || !accepted then old(rate)
                      else if forward then FORWARD_RATE else REVERSE_RATE
    {
      var isForward := IsForward(rate);
      if forward == isForward {
        return true;
      }
      if accepted {
        rate := if forward then FORWARD_RATE else REVERSE_RATE;
      }
      return accepted;
    }

    method DoPlay(accepted: bool) returns (ok: bool)
      modifies this`target, this`pipeline, this`rate
      ensures State() == Play(old(State()), accepted)
    {
      if file == NO_FILE {
        return false;
      }
      target := Playing;
      if pipeline == Playing {
        return true;
      }
      if buffering {
        return true;
      }
      var forward := SetPlaybackDirection(true, accepted);
      if !forward {
        return false;
      }
      pipeline := Playing;
      return true;
    }

    method DoPause(settled: bool)
      modifies this`target, this`pipeline, this`buffering, this`bus
      ensures ControlNow() == Pause(old(ControlNow()), settled)
      ensures settled || old(pipeline) == Null || old(pipeline) == Ready ==> target == pipeline == Paused
      decreases |bus|, 2
    {
      if !settled && AboveReady(pipeline) {
        StopPlayPipeline();
        return;
      }
      target := Paused;
      pipeline := Paused;
    }

    method StopPlayPipeline()
      modifies this`target, this`pipeline, this`buffering, this`bus
      ensures ControlNow() == StopPipeline(old(ControlNow()))
      ensures bus == [] && target == Ready && !buffering
      decreases |bus|, 1
    {
      if AboveReady(pipeline) {
        pipeline := Ready;
        DrainBus();
      }
      bus := [];
      target := Ready;
      buffering := false;
    }

    /** Pops and handles every message that is waiting. */
    method DrainBus()
      modifies this`target, this`pipeline, this`buffering, this`bus
      ensures ControlNow() == Drain(old(ControlNow()))
      decreases |bus|, 0
    {
      while bus != []
        invariant |bus| <= |old(bus)| && Drain(ControlNow()) == Drain(old(ControlNow()))
        decreases |bus|
      {
        HandleStateChanged();
      }
    }

    method HandleStateChanged()
      requires bus != []
      modifies this`target, this`pipeline, this`buffering, this`bus
      ensures ControlNow() == HandleMessage(old(ControlNow()))
      decreases |bus| - 1, 3
    {
      var m := bus[0];
      bus := bus[1..];
      if m.oldState == m.newState || !m.fromPipeline {
        return;
      }
      if m.oldState == Ready && m.newState == Paused {
        if target == Paused {
          DoPause(m.settled);
        }
      }
    }

    method DoClose()
      modifies this
      ensures State() == Close(old(State()))
      ensures bus == [] && streamLength == 0 && rate == Number(1.0) && reqTime == None && seekTime == -1
    {
      StopPlayPipeline();
      rate := FORWARD_RATE;
      reqTime := None;
      seekTime := NO_SEEK;
      streamLength := 0;
      requests, given, issued, queued := [], [], [], 0;
    }

    method DoOpen(newFile: int)
      modifies this
      ensures State() == Open(old(State()), newFile)
      ensures file == newFile && bus == [] && (old(file) >= 0 ==> target == Ready)
    {
      if file >= 0 {
        DoClose();
      }
      file := newFile;
      bus := [];
    }

    method SeekTimeNoLock(time: int, ghost index: nat, accepted: bool) returns (ok: bool)
      modifies this`pipeline, this`rate, this`seekTime, this`given, this`issued
      ensures State() == IssueSeek(old(State()), time, index, accepted)
    {
      ok := SetPlaybackDirection(true, accepted);
      if !ok {
        return;
      }
      seekTime := NO_SEEK;
      if pipeline != Paused {
        pipeline := Paused;
      }
      given, issued := given + [time], issued + [index];
    }

    method SeekTime(time: int, accurate: bool, now: nat, accepted: bool) returns (ok: bool)
      modifies this`pipeline, this`rate, this`seekTime, this`reqTime, this`requests, this`given, this`issued, this`queued
      ensures State() == SeekTo(old(State()), time, accurate, now, accepted)
      ensures requests == old(requests) + [if time <= streamLength then time else streamLength]
    {
      var t := if time < streamLength then time else streamLength;
      ghost var index := |requests|;
      requests := requests + [t];
      if reqTime == None || now > reqTime.value + SEEK_TIMEOUT || accurate {
        seekTime := NO_SEEK;
        reqTime := Some(now);
      } else {
        seekTime := t;
        queued := index;
        return true;
      }
      var issuedNow := SeekTimeNoLock(t, index, accepted);
      return true;
    }

    method OnAsyncDone(now: nat, accepted: bool)
      modifies this`target, this`pipeline, this`rate, this`seekTime, this`reqTime, this`given, this`issued
      ensures State() == AsyncDone(old(State()), now, accepted)
    {
      reqTime := Some(now);
      var time := seekTime;
      seekTime := NO_SEEK;
      if time >= 0 {
        var ok := SeekTimeNoLock(time, queued, accepted);
      } else if target == Playing {
        var ok := DoPlay(accepted);
      }
    }

    method HandleBufferingMessage(percent: int, accepted: bool)
      modifies this`target, this`pipeline, this`rate, this`buffering
      ensures State() == Buffering(old(State()), percent, accepted)
      ensures buffering <==> percent < 100
    {
      if percent >= 100 {
        buffering := false;
        if target == Playing {
          var ok := DoPlay(accepted);
        }
      } else if target == Playing {
        if pipeline != Paused {
          pipeline := Paused;
        }
        buffering := true;
      } else {
        buffering := true;
      }
    }

    method OnError(handledElsewhere: bool)
      modifies this`target, this`pipeline, this`buffering
      ensures State() == Step(old(State()), ErrorMessage(handledElsewhere))
      ensures !handledElsewhere ==> target == pipeline == Null && !buffering
    {
      if !handledElsewhere {
        target := Null;
        pipeline := Null;
        buffering := false;
      }
    }

    method SetRate(newRate: Rate, accepted: bool) returns (ok: bool)
      modifies this`rate
      ensures State() == Step(old(State()), UserSetRate(newRate, accepted))
      ensures ok <==> FloatEqual(newRate, old(rate)) || TakesRate(old(rate), newRate, accepted)
    {
      if FloatEqual(newRate, rate) {
        return true;
      }
      if BelowMin(newRate) {
        return false;
      }
      if AboveMax(newRate) {
        return false;
      }
      if accepted {
        rate := newRate;
        return true;
      }
      return false;
    }
  }
}
