/** The delta list with its alarm and the clock as one value, and what each call, the passing
    of time and the signal handler make of it. */
module TimerSystem {
  import opened DeltaList

  const INT_MAX: nat := 0x7fff_ffff

  /** The interval timer: off, or armed to expire when the clock reaches `when`. */
  datatype Alarm = Off | At(when: nat)

  datatype System = System(q: seq<Entry<int>>, lastTick: nat, clock: nat, alarm: Alarm, signal: bool)

  datatype Event = Start(timer: int, time: nat) | Stop(timer: int) | Pass(msecs: nat) | Handle

  function AtLeastOne(time: nat): (ticks: nat)
    ensures time <= ticks && 1 <= ticks && (ticks == time || ticks == 1)
  {
    if time == 0 then 1 else time
  }

  /** Whether a timer started on `idle` goes first, so that the alarm is set anew. */
  predicate GoesFirst(idle: seq<Entry<int>>, ticks: nat) {
    idle == [] || ticks <= idle[0].delta
  }

  /** What radTimerStart does to the alarm. */
  function StartAlarm(alarm: Alarm, clock: nat, idle: seq<Entry<int>>, ticks: nat): Alarm {
    if GoesFirst(idle, ticks) then At(clock + ticks) else alarm
  }

  /** It is set when no other deadline is earlier. */
  lemma {:induction false} StartAlarmIs(alarm: Alarm, clock: nat, idle: seq<Entry<int>>, ticks: nat, base: int)
    ensures StartAlarm(alarm, clock, idle, ticks) ==
      if forall e | e in Deadlines(idle, base) :: base + ticks <= e.at then At(clock + ticks) else alarm
  {
    DeadlinesAreOrdered(idle, base);
    if idle != [] {
      var d := Deadlines(idle, base);
      assert d[0].at == base + idle[0].delta && d[0] in d;
      assert forall e | e in d :: d[0].at <= e.at;
    }
  }

  /** What radUtilsSetIntervalTimer makes of the alarm: zero disarms, a negative value is
      refused and changes nothing. */
  function Armed(alarm: Alarm, clock: nat, msecs: int): Alarm {
    if msecs == 0 then Off else if msecs < 0 then alarm else At(clock + msecs)
  }

  /** As radTimerListCreate leaves it. */
  function Created(now: nat): System {
    System([], 0, now, Off, false)
  }

  function Next(s: System, e: Event): System {
    match e
    case Start(timer, time) =>
      var idle, ticks := Remove(s.q, timer), AtLeastOne(time);
      s.(q := Insert(idle, timer, ticks), lastTick := if idle == [] then s.clock else s.lastTick,
         alarm := StartAlarm(s.alarm, s.clock, idle, ticks))
    case Stop(timer) => s.(q := Remove(s.q, timer))
    case Pass(msecs) =>
      var now := s.clock + msecs;
      if s.alarm.At? && s.alarm.when <= now then s.(clock := now, alarm := Off, signal := true) else s.(clock := now)
    case Handle =>
      if !s.signal || s.clock < s.lastTick then s
      else
        var rest := Tick(s.q, s.clock - s.lastTick).rest;
        s.(q := rest, lastTick := s.clock, alarm := Armed(s.alarm, s.clock, Delay(rest)), signal := false)
  }

  // ----- what every event keeps -----

  /** The delta list: bounded by int, its first timer still ahead. */
  ghost predicate Sound(es: seq<Entry<int>>) {
    Total(es) <= INT_MAX && (es != [] ==> 0 < es[0].delta)
  }

  /** No lost wakeup: while timers are pending, SIGALRM is pending or the alarm is armed, ahead
      of the clock but by no more than the first timer's ticks. */
  ghost predicate Awake(es: seq<Entry<int>>, clock: nat, alarm: Alarm, signal: bool) {
    es != [] ==> signal || (alarm.At? && clock < alarm.when <= clock + es[0].delta)
  }

  /** Stopping a timer keeps the delta list sound and the system awake. */
  lemma {:induction false} StopKeeps(es: seq<Entry<int>>, x: int, clock: nat, alarm: Alarm, signal: bool)
    requires Sound(es) && Awake(es, clock, alarm, signal)
    ensures Sound(Remove(es, x)) && Awake(Remove(es, x), clock, alarm, signal)
  {
    RemoveTotal(es, x);
    if Remove(es, x) != [] { RemoveHeadGrows(es, x); }
  }

  /** So does starting one, with the alarm that radTimerStart sets. */
  lemma {:induction false} StartKeeps(es: seq<Entry<int>>, x: int, ticks: nat, clock: nat, alarm: Alarm, signal: bool)
    requires Sound(es) && Awake(es, clock, alarm, signal) && 0 < ticks <= INT_MAX
    ensures var s := Insert(es, x, ticks); Sound(s) && Awake(s, clock, StartAlarm(alarm, clock, es, ticks), signal)
  {
    InsertTotal(es, x, ticks);
    InsertHead(es, x, ticks);
  }

  /** And the signal handler, with the alarm it sets. */
  lemma {:induction false} TickKeeps(es: seq<Entry<int>>, n: nat, clock: nat, alarm: Alarm)
    requires Sound(es)
    ensures var rest := Tick(es, n).rest; Sound(rest) && Awake(rest, clock, Armed(alarm, clock, Delay(rest)), false)
  {
    TickTotal(es, n);
  }

  ghost predicate Good(s: System) {
    Sound(s.q) && Once(s.q) && Awake(s.q, s.clock, s.alarm, s.signal) && s.lastTick <= s.clock
  }

  /** Start takes a non-negative int. */
  predicate Fits(e: Event) { e.Start? ==> e.time <= INT_MAX }

  /** No wakeup is lost: every event keeps SIGALRM pending or the alarm armed while a timer is
      pending, and every timer on the list at most once. */
  lemma {:induction false} NextKeepsGood(s: System, e: Event)
    requires Good(s) && Fits(e)
    ensures Good(Next(s, e))
  {
    hide Insert, Remove, Tick, Sound, Awake;
    match e {
      case Start(timer, time) =>
        StopKeeps(s.q, timer, s.clock, s.alarm, s.signal);
        var idle, ticks := Remove(s.q, timer), AtLeastOne(time);
        RemoveOnce(s.q, timer);
        InsertOnce(idle, timer, ticks);
        StartKeeps(idle, timer, ticks, s.clock, s.alarm, s.signal);
      case Stop(timer) =>
        RemoveOnce(s.q, timer);
        StopKeeps(s.q, timer, s.clock, s.alarm, s.signal);
      case Pass(msecs) =>
        PassKeepsAwake(s, msecs);
      case Handle =>
        if s.signal {
          TickOnce(s.q, s.clock - s.lastTick);
          TickKeeps(s.q, s.clock - s.lastTick, s.clock, s.alarm);
        }
    }
  }

  lemma {:induction false} PassKeepsAwake(s: System, msecs: nat)
    requires Awake(s.q, s.clock, s.alarm, s.signal)
    ensures var t := Next(s, Pass(msecs)); Awake(t.q, t.clock, t.alarm, t.signal)
  {
  }
}
