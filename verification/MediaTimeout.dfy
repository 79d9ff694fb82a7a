/** The media-inactivity watchdog of a call leg: setters that store new limits and kick the loop,
    packet arrivals, and the loop that sleeps on one timer and fires the timeout callback once.
    Times and durations are nanoseconds. */
module MediaTimeout {
  import opened Bytes

  const SECOND := 1_000_000_000
  const DEFAULT_INITIAL := 30 * SECOND
  const DEFAULT_GENERAL := 15 * SECOND
  const DISABLED_PARK := 3600 * SECOND

  datatype Loop = Running | Fired | Stopped

  /** What the loop and the other goroutines share, with the clock. */
  datatype State = State(
    now: int,
    start: Option<int>,   // when the timeout was last enabled; None while disabled
    initial: int,         // window before any packet
    general: int,         // window after a packet
    last: int,            // time of the last packet, 0 if none
    kick: bool,           // the one-slot kick channel is full
    wakeAt: int,          // when the loop's timer expires
    setters: nat,         // setters between their first store and their kick
    closed: bool,
    loop: Loop,
    callbacks: nat)       // how often the timeout callback ran

  /** What can wake the loop. With several causes ready, any of them may be chosen. */
  datatype Cause = ByClose | ByKick | ByTimer

  /** Setters store their fields one at a time, so steps of concurrent setters may interleave. */
  datatype Event =
    | Elapse(duration: nat)
    | PacketArrives
    | SetterBegins
    | StoreInitial(initial: int)
    | StoreGeneral(general: int)
    | StoreStart(at: int)
    | ClearStart
    | SetterKicks
    | Close
    | Wake(cause: Cause)

  /** When silence must be reported: counted from enabling until a packet has been seen,
      from the last packet afterwards. */
  function Deadline(s: State): int
    requires s.start.Some?
  {
    if s.last > 0 then s.last + s.general else s.start.value + s.initial
  }

  /** Non-positive limits are replaced by the defaults. */
  function OrDefault(limit: int, default: int): (r: int)
    requires default > 0
    ensures limit > 0 ==> r == limit
    ensures limit <= 0 ==> r == default
  {
    if limit <= 0 then default else limit
  }

  function Min(a: int, b: int): int {
    if a <= b then a else b
  }

  /** One pass of the loop body after a wake-up. */
  function Body(s: State): State {
    if s.start.None? then s.(wakeAt := s.now + DISABLED_PARK)
    else
      var remaining := Deadline(s) - s.now;
      if remaining <= 0 then s.(loop := Fired, callbacks := s.callbacks + 1)
      else s.(wakeAt := s.now + Min(remaining, s.general))
  }

  /** The loop reacts at once: time passes only while it has nothing to react to. */
  predicate Enabled(s: State, e: Event) {
    match e
    case Elapse(d) => s.loop.Running? ==> !s.kick && !s.closed && s.now + d <= s.wakeAt
    case PacketArrives | SetterBegins | Close => true
    case StoreInitial(v) => s.setters > 0 && v > 0
    case StoreGeneral(v) => s.setters > 0 && v > 0
    case StoreStart(at) => s.setters > 0 && 0 < at <= s.now
    case ClearStart | SetterKicks => s.setters > 0
    case Wake(ByClose) => s.loop.Running? && s.closed
    case Wake(ByKick) => s.loop.Running? && s.kick
    case Wake(ByTimer) => s.loop.Running? && s.now >= s.wakeAt
  }

  function Next(s: State, e: Event): State
    requires Enabled(s, e)
  {
    match e
    case Elapse(d) => s.(now := s.now + d)
    case PacketArrives => s.(last := s.now)
    case SetterBegins => s.(setters := s.setters + 1)
    case StoreInitial(v) => s.(initial := v)
    case StoreGeneral(v) => s.(general := v)
    case StoreStart(at) => s.(start := Some(at))
    case ClearStart => s.(start := None)
    case SetterKicks => s.(setters := s.setters - 1, kick := true)
    case Close => s.(closed := true)
    case Wake(ByClose) => s.(loop := Stopped)
    case Wake(ByKick) => Body(s.(kick := false))
    case Wake(ByTimer) => Body(s)
  }

  predicate CanRun(s: State, events: seq<Event>)
    decreases |events|
  {
    events == [] || (Enabled(s, events[0]) && CanRun(Next(s, events[0]), events[1..]))
  }

  function Exec(s: State, events: seq<Event>): State
    requires CanRun(s, events)
    decreases |events|
  {
    if events == [] then s else Exec(Next(s, events[0]), events[1..])
  }

  /** A new media port: disabled, no packet seen, timer parked. */
  predicate Initial(s: State) {
    && s.now > 0 && s.start.None? && s.initial > 0 && s.general > 0 && s.last == 0
    && !s.kick && s.wakeAt == s.now + DISABLED_PARK && s.setters == 0
    && !s.closed && s.loop.Running? && s.callbacks == 0
  }

  /** Nothing is on its way to wake the loop except its timer. */
  predicate Settled(s: State) {
    !s.kick && s.setters == 0
  }

  predicate Inv(s: State) {
    && 0 < s.now && 0 <= s.last <= s.now && s.initial > 0 && s.general > 0
    && (s.start.Some? ==> 0 < s.start.value <= s.now)
    && s.callbacks == (if s.loop.Fired? then 1 else 0)
    && (s.loop.Running? ==> s.now <= s.wakeAt)
    // the cap at the general window covers a first packet that arrives during the initial window
    && (s.loop.Running? && s.start.Some? && Settled(s) ==>
          s.wakeAt <= Deadline(s) && s.wakeAt <= s.now + s.general)
  }

  lemma {:induction false} StepKeepsInv(s: State, e: Event)
    requires Inv(s) && Enabled(s, e)
    ensures Inv(Next(s, e))
  {
  }

  lemma {:induction false} RunKeepsInv(s: State, events: seq<Event>)
    requires Inv(s) && CanRun(s, events)
    ensures Inv(Exec(s, events))
    decreases |events|
  {
    if events != [] {
      StepKeepsInv(s, events[0]);
      RunKeepsInv(Next(s, events[0]), events[1..]);
    }
  }

  // ---------------------------------------------------------------- read off the events

  /** The clock after these events: it moves only while time passes. */
  function Clock(began: int, events: seq<Event>): int {
    if events == [] then began
    else
      var before, e := Clock(began, events[..|events| - 1]), events[|events| - 1];
      if e.Elapse? then before + e.duration else before
  }

  /** The time of the most recent packet arrival, if there was one. */
  function LastArrival(began: int, events: seq<Event>): Option<int> {
    if events == [] then None
    else
      var before := events[..|events| - 1];
      if events[|events| - 1] == PacketArrives then Some(Clock(began, before)) else LastArrival(began, before)
  }

  /** The most recently stored window before any packet. */
  function LastInitial(first: int, events: seq<Event>): int {
    if events == [] then first
    else
      var e := events[|events| - 1];
      if e.StoreInitial? then e.initial else LastInitial(first, events[..|events| - 1])
  }

  /** The most recently stored window after a packet. */
  function LastGeneral(first: int, events: seq<Event>): int {
    if events == [] then first
    else
      var e := events[|events| - 1];
      if e.StoreGeneral? then e.general else LastGeneral(first, events[..|events| - 1])
  }

  /** When the timeout was last enabled, unless it was disabled since or never enabled. */
  function LastStart(events: seq<Event>): Option<int> {
    if events == [] then None
    else
      var e := events[|events| - 1];
      match e
      case StoreStart(at) => Some(at)
      case ClearStart => None
      case _ => LastStart(events[..|events| - 1])
  }

  /** When silence is due to be reported in a run that began in s0: one general window after the
      last arrival, or one initial window after enabling if nothing ever arrived. */
  function Due(s0: State, events: seq<Event>): Option<int> {
    match LastStart(events)
    case None => None
    case Some(at) =>
      match LastArrival(s0.now, events)
      case Some(arrival) => Some(arrival + LastGeneral(s0.general, events))
      case None => Some(at + LastInitial(s0.initial, events))
  }

  lemma {:induction false} RunSnoc(s: State, events: seq<Event>)
    requires events != [] && CanRun(s, events)
    ensures CanRun(s, events[..|events| - 1])
    ensures
      var before, e := Exec(s, events[..|events| - 1]), events[|events| - 1];
      Enabled(before, e) && Exec(s, events) == Next(before, e)
    decreases |events|
  {
    var init := events[..|events| - 1];
    if |events| > 1 {
      RunSnoc(Next(s, events[0]), events[1..]);
      assert events[1..][..|events| - 2] == init[1..];
    } else {
      assert events[1..] == [] && Exec(Next(s, events[0]), events[1..]) == Next(s, events[0]);
    }
  }

  lemma {:induction false} EmptyRun(s: State)
    ensures CanRun(s, []) && Exec(s, []) == s
  {
  }

  /** What one step does to the fields that the setters and the packets write. */
  lemma {:induction false} StepFields(s: State, e: Event)
    requires Enabled(s, e)
    ensures
      var t := Next(s, e);
      && t.now == (if e.Elapse? then s.now + e.duration else s.now)
      && t.last == (if e.PacketArrives? then s.now else s.last)
      && t.initial == (if e.StoreInitial? then e.initial else s.initial)
      && t.general == (if e.StoreGeneral? then e.general else s.general)
      && t.start == (if e.StoreStart? then Some(e.at) else if e.ClearStart? then None else s.start)
      && t.closed == (s.closed || e.Close?)
  {
  }

  /** The fields of the watchdog are what the run put there, and nothing else. */
  lemma {:induction false} FieldsAreTheRun(s0: State, events: seq<Event>)
    requires Initial(s0) && CanRun(s0, events)
    ensures
      var s := Exec(s0, events);
      && s.now == Clock(s0.now, events)
      && s.last == (match LastArrival(s0.now, events) case Some(at) => at case None => 0)
      && (LastArrival(s0.now, events).Some? ==> s.last > 0)
      && s.initial == LastInitial(s0.initial, events)
      && s.general == LastGeneral(s0.general, events)
      && s.start == LastStart(events)
      && (s.closed <==> Close in events)
    decreases |events|
  {
    hide Next, Enabled, Exec, CanRun;
    if events == [] {
      EmptyRun(s0);
    } else {
      var before := events[..|events| - 1];
      RunSnoc(s0, events);
      FieldsAreTheRun(s0, before);
      StepFields(Exec(s0, before), events[|events| - 1]);
      RunKeepsInv(s0, before);
      assert events == before + [events[|events| - 1]];
    }
  }

  lemma {:induction false} DeadlineIsDue(s0: State, events: seq<Event>)
    requires Initial(s0) && CanRun(s0, events)
    ensures
      var s := Exec(s0, events);
      Due(s0, events) == if s.start.Some? then Some(Deadline(s)) else None
  {
    FieldsAreTheRun(s0, events);
  }

  /** No wake-up is lost: in every reachable state with the timeout enabled and not yet fired,
      the timer wakes the loop by the time silence is due, or a kick is pending, or a setter still
      owes one. In particular the loop never sleeps past the due time of the run. */
  lemma {:induction false} NoLostWakeup(s0: State, events: seq<Event>)
    requires Initial(s0) && CanRun(s0, events)
    ensures
      var s := Exec(s0, events);
      s.loop.Running? && Due(s0, events).Some? ==>
        (Clock(s0.now, events) <= s.wakeAt <= Due(s0, events).value) || s.kick || s.setters > 0
  {
    RunKeepsInv(s0, events);
    FieldsAreTheRun(s0, events);
    DeadlineIsDue(s0, events);
  }

  lemma {:induction false} ClockGrows(began: int, events: seq<Event>, i: nat)
    requires i <= |events|
    ensures Clock(began, events[..i]) <= Clock(began, events)
    decreases |events|
  {
    if i < |events| {
      ClockGrows(began, events[..|events| - 1], i);
      assert events[..|events| - 1][..i] == events[..i];
    } else {
      assert events[..i] == events;
    }
  }

  lemma {:induction false} ArrivalIsRecent(began: int, events: seq<Event>, i: nat)
    requires i < |events| && events[i] == PacketArrives
    ensures LastArrival(began, events).Some? && Clock(began, events[..i]) <= LastArrival(began, events).value
    decreases |events|
  {
    var before := events[..|events| - 1];
    if i < |events| - 1 {
      ArrivalIsRecent(began, before, i);
      assert before[..i] == events[..i];
      ClockGrows(began, before, i);
    }
  }

  /** A call in which packets arrive is never reported: whatever else happens, the callback runs no
      sooner than one general window after each arrival, at the window in force when it runs. */
  lemma {:induction false} NeverFiresNearAPacket(s0: State, events: seq<Event>, e: Event, i: nat)
    requires Initial(s0) && CanRun(s0, events) && Enabled(Exec(s0, events), e)
    requires i < |events| && events[i] == PacketArrives
    ensures Next(Exec(s0, events), e).callbacks > Exec(s0, events).callbacks ==>
              Clock(s0.now, events) >= Clock(s0.now, events[..i]) + LastGeneral(s0.general, events)
  {
    FiresOnTime(s0, events, e);
    ArrivalIsRecent(s0.now, events, i);
  }

  /** The callback runs at most once in any run, and a loop that fired or saw the close stays stopped. */
  lemma {:induction false} FiresAtMostOnce(s0: State, before: seq<Event>, after: seq<Event>)
    requires Initial(s0) && CanRun(s0, before) && CanRun(Exec(s0, before), after)
    ensures
      var s, t := Exec(s0, before), Exec(Exec(s0, before), after);
      && t.callbacks <= 1
      && (!s.loop.Running? ==> t.loop == s.loop && t.callbacks == s.callbacks)
  {
    RunKeepsInv(s0, before);
    RunKeepsInv(Exec(s0, before), after);
    StaysDone(Exec(s0, before), after);
  }

  lemma {:induction false} StaysDone(s: State, events: seq<Event>)
    requires CanRun(s, events)
    ensures !s.loop.Running? ==> Exec(s, events).loop == s.loop && Exec(s, events).callbacks == s.callbacks
    decreases |events|
  {
    if events != [] {
      StaysDone(Next(s, events[0]), events[1..]);
    }
  }

  /** The callback runs only in a pass that found the timeout enabled, the port not observed closed,
      and the due time of the run reached; when nothing but the timer woke the loop, exactly then. */
  lemma {:induction false} FiresOnTime(s0: State, events: seq<Event>, e: Event)
    requires Initial(s0) && CanRun(s0, events) && Enabled(Exec(s0, events), e)
    ensures
      var s := Exec(s0, events);
      Next(s, e).callbacks > s.callbacks ==>
        && e.Wake? && e.cause != ByClose
        && Due(s0, events).Some? && Clock(s0.now, events) >= Due(s0, events).value
        && (Settled(s) ==> Clock(s0.now, events) == Due(s0, events).value)
  {
    RunKeepsInv(s0, events);
    FieldsAreTheRun(s0, events);
    DeadlineIsDue(s0, events);
  }

  /** Conversely a pass that finds the due time reached always fires; any other pass sleeps, for an
      hour while disabled and otherwise until the due time but at most one general window, so that
      a first packet does not go unnoticed. Each pass takes the kick that woke it, and nothing else. */
  lemma {:induction false} PassDecides(s0: State, events: seq<Event>, cause: Cause)
    requires Initial(s0) && CanRun(s0, events) && Enabled(Exec(s0, events), Wake(cause))
    ensures
      var s := Exec(s0, events);
      var t := Next(s, Wake(cause));
      var due, now, general := Due(s0, events), Clock(s0.now, events), LastGeneral(s0.general, events);
      && (cause == ByClose ==> t == s.(loop := Stopped))
      && (cause != ByClose ==>
            var awake := s.(kick := s.kick && cause != ByKick);
            && (due.Some? && due.value <= now ==> t == awake.(loop := Fired, callbacks := 1) && s.callbacks == 0)
            && (due.None? ==> t == awake.(wakeAt := now + 3_600_000_000_000))
            && (due.Some? && due.value > now ==>
                  && t.wakeAt <= due.value && t.wakeAt <= now + general
                  && (t.wakeAt == due.value || t.wakeAt == now + general)
                  && t == awake.(wakeAt := t.wakeAt)
                  && t.wakeAt > now))
  {
    RunKeepsInv(s0, events);
    FieldsAreTheRun(s0, events);
    DeadlineIsDue(s0, events);
  }

  /** Once a packet has been seen, no later event brings the initial window back. */
  lemma {:induction false} InitialWindowOver(s: State, events: seq<Event>)
    requires Inv(s) && s.last > 0 && CanRun(s, events)
    ensures
      var t := Exec(s, events);
      t.last >= s.last && (t.start.Some? ==> Deadline(t) == t.last + t.general)
    decreases |events|
  {
    if events != [] {
      StepKeepsInv(s, events[0]);
      InitialWindowOver(Next(s, events[0]), events[1..]);
    }
  }

  /** Silence that nobody interferes with is reported, and by the deadline: if from some settled,
      enabled state on only time passes and the loop wakes, it cannot still be running later. */
  lemma {:induction false} SilenceIsReported(s: State, events: seq<Event>)
    requires Inv(s) && Settled(s) && !s.closed && s.loop.Running? && s.start.Some?
    requires CanRun(s, events) && forall e | e in events :: e.Elapse? || e.Wake?
    ensures
      var t := Exec(s, events);
      && (t.loop.Running? ==> t.now <= Deadline(s))
      && (t.loop.Fired? ==> t.now >= Deadline(s))
      && !t.loop.Stopped?
    decreases |events|
  {
    if events != [] {
      var t := Next(s, events[0]);
      StepKeepsInv(s, events[0]);
      assert events[0] in events;
      if t.loop.Running? {
        assert Deadline(t) == Deadline(s);
        SilenceIsReported(t, events[1..]);
      } else {
        StaysFired(t, events[1..]);
      }
    }
  }

  /** And such a run exists: waking only when the timer expires, the loop reaches the deadline
      and fires there. */
  lemma {:induction false} SilenceFires(s: State) returns (events: seq<Event>)
    requires Inv(s) && Settled(s) && !s.closed && s.loop.Running? && s.start.Some?
    ensures CanRun(s, events) && forall e | e in events :: e.Elapse? || e == Wake(ByTimer)
    ensures Exec(s, events).loop.Fired? && Exec(s, events).now == Deadline(s)
    decreases Deadline(s) - s.wakeAt
  {
    var sleep, wake := Elapse(s.wakeAt - s.now), Wake(ByTimer);
    var asleep := Next(s, sleep);
    StepKeepsInv(s, sleep);
    var awake := Next(asleep, wake);
    StepKeepsInv(asleep, wake);
    var rest: seq<Event> := [];
    if awake.loop.Running? {
      rest := SilenceFires(awake);
    }
    ExecCons(asleep, wake, rest);
    ExecCons(s, sleep, [wake] + rest);
    events := [sleep] + ([wake] + rest);
  }

  lemma {:induction false} StaysFired(s: State, events: seq<Event>)
    requires s.loop.Fired? && CanRun(s, events) && forall e | e in events :: e.Elapse? || e.Wake?
    ensures Exec(s, events).loop.Fired? && Exec(s, events).now >= s.now
    decreases |events|
  {
    if events != [] {
      assert events[0] in events;
      StaysFired(Next(s, events[0]), events[1..]);
    }
  }

  // ---------------------------------------------------------------- the object

  /** The watchdog's fields. Each method takes the clock reading its body would make. */
  class MediaPort {
    var timeoutStart: Option<int>
    var timeoutInitial: int
    var timeoutGeneral: int
    var lastPacketTime: int
    var timeoutKick: bool
    var timer: int
    var closed: bool
    var loop: Loop
    var callbacks: nat

    ghost function View(now: int, setters: nat): State
      reads this
    {
      State(now, timeoutStart, timeoutInitial, timeoutGeneral, lastPacketTime, timeoutKick,
            timer, setters, closed, loop, callbacks)
    }

    constructor (now: int, initial: int, general: int)
      requires now > 0
      ensures Initial(View(now, 0))
      ensures timeoutInitial == if initial > 0 then initial else 30_000_000_000
      ensures timeoutGeneral == if general > 0 then general else 15_000_000_000
    {
      timeoutStart := None;
      timeoutInitial := OrDefault(initial, DEFAULT_INITIAL);
      timeoutGeneral := OrDefault(general, DEFAULT_GENERAL);
      lastPacketTime := 0;
      timeoutKick := false;
      timer := now + DISABLED_PARK;
      closed := false;
      loop := Running;
      callbacks := 0;
    }

    method KickTimeoutLoop(ghost now: int, ghost setters: nat)
      requires setters > 0
      modifies this`timeoutKick
      ensures View(now, setters - 1) == Next(old(View(now, setters)), SetterKicks)
    {
      timeoutKick := true;
    }

    /** The stores and the kick of enableTimeout, as one uninterrupted run of its steps. */
    method EnableTimeout(now: int, initial: int, general: int)
      requires now > 0
      modifies this
      ensures
        var steps := [SetterBegins, StoreInitial(if initial > 0 then initial else 30_000_000_000),
                      StoreGeneral(if general > 0 then general else 15_000_000_000), StoreStart(now), SetterKicks];
        CanRun(old(View(now, 0)), steps) && View(now, 0) == Exec(old(View(now, 0)), steps)
    {
      ghost var s0 := View(now, 0);
      ghost var steps := [SetterBegins, StoreInitial(OrDefault(initial, DEFAULT_INITIAL)),
                          StoreGeneral(OrDefault(general, DEFAULT_GENERAL)), StoreStart(now), SetterKicks];
      timeoutInitial := OrDefault(initial, DEFAULT_INITIAL);
      timeoutGeneral := OrDefault(general, DEFAULT_GENERAL);
      timeoutStart := Some(now);
      KickTimeoutLoop(now, 1);
      ExecFive(s0, steps);
    }

    method DisableTimeout(ghost now: int)
      modifies this
      ensures
        var steps := [SetterBegins, ClearStart, SetterKicks];
        CanRun(old(View(now, 0)), steps) && View(now, 0) == Exec(old(View(now, 0)), steps)
    {
      ghost var s0 := View(now, 0);
      ghost var steps := [SetterBegins, ClearStart, SetterKicks];
      timeoutStart := None;
      KickTimeoutLoop(now, 1);
      assert steps[1..] == [ClearStart, SetterKicks] && steps[1..][1..] == [SetterKicks];
      assert steps[1..][1..][1..] == [];
    }

    method HandlePacket(now: int, ghost setters: nat)
      modifies this`lastPacketTime
      ensures View(now, setters) == Next(old(View(now, setters)), PacketArrives)
    {
      lastPacketTime := now;
    }

    /** One iteration of timeoutLoop: the cause is what its select chose. */
    method LoopIteration(now: int, cause: Cause, ghost setters: nat)
      requires Enabled(View(now, setters), Wake(cause))
      modifies this
      ensures View(now, setters) == Next(old(View(now, setters)), Wake(cause))
    {
      if cause == ByClose {
        loop := Stopped;
        return;
      }
      if cause == ByKick {
        timeoutKick := false;
      }
      if timeoutStart.None? {
        timer := now + DISABLED_PARK;
        return;
      }
      var isInitial := lastPacketTime <= 0;
      var deadline := if isInitial then timeoutStart.value + timeoutInitial else lastPacketTime + timeoutGeneral;
      var remaining := deadline - now;
      if remaining <= 0 {
        callbacks := callbacks + 1;
        loop := Fired;
        return;
      }
      timer := now + Min(remaining, timeoutGeneral);
    }
  }

  lemma {:induction false} ExecFive(s: State, es: seq<Event>)
    requires |es| == 5
    requires Enabled(s, es[0]) && Enabled(Next(s, es[0]), es[1])
    requires
      var s2 := Next(Next(s, es[0]), es[1]);
      Enabled(s2, es[2]) && Enabled(Next(s2, es[2]), es[3]) && Enabled(Next(Next(s2, es[2]), es[3]), es[4])
    ensures CanRun(s, es)
    ensures Exec(s, es) == Next(Next(Next(Next(Next(s, es[0]), es[1]), es[2]), es[3]), es[4])
  {
    var s1 := Next(s, es[0]);
    var s2 := Next(s1, es[1]);
    var s3 := Next(s2, es[2]);
    var s4 := Next(s3, es[3]);
    ExecCons(s4, es[4], []);
    assert es[4..] == [es[4]] + [] && es[3..] == [es[3]] + es[4..] && es[2..] == [es[2]] + es[3..];
    ExecCons(s3, es[3], es[4..]);
    ExecCons(s2, es[2], es[3..]);
    assert es[1..] == [es[1]] + es[2..] && es == [es[0]] + es[1..];
    ExecCons(s1, es[1], es[2..]);
    ExecCons(s, es[0], es[1..]);
  }

  lemma {:induction false} ExecCons(s: State, e: Event, rest: seq<Event>)
    requires Enabled(s, e) && CanRun(Next(s, e), rest)
    ensures CanRun(s, [e] + rest) && Exec(s, [e] + rest) == Exec(Next(s, e), rest)
  {
    assert ([e] + rest)[0] == e && ([e] + rest)[1..] == rest;
  }
}
