/** The timer list, its alarm and the clock over whole runs: starts, stops, the passing of
    time and signal handling in any order. */
module TimerRuns {
  import opened DeltaList
  import opened TimerSystem

  ghost predicate Legal(events: seq<Event>) {
    forall e | e in events :: Fits(e)
  }

  ghost function Run(s: System, events: seq<Event>): System
    decreases |events|
  {
    if events == [] then s else Run(Next(s, events[0]), events[1..])
  }

  /** The timers that timerProcess would fire now. */
  function Due(s: System): seq<int> {
    if s.clock < s.lastTick then [] else Tick(s.q, s.clock - s.lastTick).fired
  }

  lemma {:induction false} LegalTail(events: seq<Event>)
    requires Legal(events) && events != []
    ensures Fits(events[0]) && Legal(events[1..])
  {
    assert events[0] in events && forall e | e in events[1..] :: e in events;
  }

  /** No wakeup is ever lost: after any history a non-empty delta list has SIGALRM pending or
      the alarm armed, ahead of the clock, and holds every timer at most once. */
  lemma {:induction false} RunsStayAwake(s: System, events: seq<Event>)
    requires Good(s) && Legal(events)
    ensures Good(Run(s, events))
    decreases |events|
  {
    if events != [] {
      LegalTail(events);
      NextKeepsGood(s, events[0]);
      RunsStayAwake(Next(s, events[0]), events[1..]);
    }
  }

  lemma {:induction false} RunAppend(s: System, a: seq<Event>, b: seq<Event>)
    ensures Run(s, a + b) == Run(Run(s, a), b)
    decreases |a|
  {
    if a == [] {
      assert a + b == b;
    } else {
      assert (a + b)[1..] == a[1..] + b;
      RunAppend(Next(s, a[0]), a[1..], b);
    }
  }

  // ----- when the alarm comes in time -----

  /** The alarm is no later than the first deadline. */
  ghost predicate OnTime(s: System) {
    s.q != [] ==> s.signal || (s.alarm.At? && s.alarm.when <= s.lastTick + s.q[0].delta)
  }

  /** What that means: as time passes, no timer falls due without SIGALRM pending. */
  lemma {:induction false} OnTimeMeans(s: System)
    requires Good(s)
    ensures OnTime(s) <==> forall n: nat :: Due(Next(s, Pass(n))) != [] ==> Next(s, Pass(n)).signal
  {
    if !OnTime(s) {
      var due := s.lastTick + s.q[0].delta;
      var n := if due < s.clock then 0 else due - s.clock;
      assert Due(Next(s, Pass(n)))[0] == s.q[0].item;
    }
  }

  /** The one thing that can make the alarm late: a timer started in front of others when
      ticks have gone unseen since the last tick and no SIGALRM is pending. */
  predicate Prompt(s: System, e: Event) {
    e.Start? && s.lastTick < s.clock && !s.signal ==>
      var idle := Remove(s.q, e.timer);
      idle == [] || !GoesFirst(idle, AtLeastOne(e.time))
  }

  /** How far behind the first deadline the alarm is. */
  function Late(s: System): nat {
    if s.q == [] || s.signal || s.alarm.Off? || s.alarm.when <= s.lastTick + s.q[0].delta then 0
    else s.alarm.when - (s.lastTick + s.q[0].delta)
  }

  lemma {:induction false} LateIsNotOnTime(s: System)
    requires Good(s)
    ensures OnTime(s) <==> Late(s) == 0
  {
  }

  /** A prompt event does not make the alarm later. One that is not sets it late by the ticks
      unseen, and these are fewer than the ticks of the timer put off, plus what the alarm
      was late before. */
  lemma {:induction false} LateAfter(s: System, e: Event)
    requires Good(s) && Fits(e)
    ensures Prompt(s, e) ==> Late(Next(s, e)) <= Late(s)
    ensures !Prompt(s, e) ==>
      && Late(Next(s, e)) == s.clock - s.lastTick > 0
      && Late(Next(s, e)) < Remove(s.q, e.timer)[0].delta + Late(s)
  {
    hide Insert, Remove, Tick, Total, Once;
    match e {
      case Start(timer, time) =>
        var idle := Remove(s.q, timer);
        InsertHead(idle, timer, AtLeastOne(time));
        if idle != [] { RemoveHeadGrows(s.q, timer); }
      case Stop(timer) =>
        if Remove(s.q, timer) != [] { RemoveHeadGrows(s.q, timer); }
      case Pass(msecs) =>
      case Handle =>
        if s.signal { TickTotal(s.q, s.clock - s.lastTick); }
    }
  }

  ghost predicate AlwaysOnTime(s: System, events: seq<Event>)
    decreases |events|
  {
    OnTime(s) && (events != [] ==> AlwaysOnTime(Next(s, events[0]), events[1..]))
  }

  ghost predicate AlwaysPrompt(s: System, events: seq<Event>)
    decreases |events|
  {
    events != [] ==> Prompt(s, events[0]) && AlwaysPrompt(Next(s, events[0]), events[1..])
  }

  /** The alarm is on time all through a run if and only if every event is prompt. */
  lemma {:induction false} OnTimeExactly(s: System, events: seq<Event>)
    requires Good(s) && OnTime(s) && Legal(events)
    ensures AlwaysOnTime(s, events) <==> AlwaysPrompt(s, events)
    decreases |events|
  {
    if events != [] {
      var t := Next(s, events[0]);
      LegalTail(events);
      NextKeepsGood(s, events[0]);
      LateIsNotOnTime(s);
      LateIsNotOnTime(t);
      LateAfter(s, events[0]);
      if OnTime(t) { OnTimeExactly(t, events[1..]); }
    }
  }

  /** The ticks of the timers put off by events that are not prompt. */
  ghost function PutOff(s: System, events: seq<Event>): nat
    decreases |events|
  {
    if events == [] then 0
    else
      (if Prompt(s, events[0]) then 0 else Remove(s.q, events[0].timer)[0].delta)
      + PutOff(Next(s, events[0]), events[1..])
  }

  lemma {:induction false} LateAtMost(s: System, events: seq<Event>)
    requires Good(s) && Legal(events)
    ensures Late(Run(s, events)) <= Late(s) + PutOff(s, events)
    decreases |events|
  {
    if events != [] {
      LegalTail(events);
      NextKeepsGood(s, events[0]);
      LateAfter(s, events[0]);
      LateAtMost(Next(s, events[0]), events[1..]);
    }
  }

  /** With calls at any time: once the first deadline is past by what the alarm was late before
      and the ticks put off since, the signal is there, and handling it fires that timer. From a
      handled signal on, only the ticks put off count. */
  lemma {:induction false} FirstTimerFires(s: System, events: seq<Event>)
    requires Good(s) && Legal(events)
    ensures var t := Run(s, events);
      t.q != [] && t.lastTick + t.q[0].delta + Late(s) + PutOff(s, events) <= t.clock ==>
        t.signal && t.q[0].item in Due(t)
    ensures s.signal ==> Late(Next(s, Handle)) == 0
  {
    var t := Run(s, events);
    RunsStayAwake(s, events);
    LateAtMost(s, events);
    if t.q != [] && t.lastTick + t.q[0].delta + Late(s) + PutOff(s, events) <= t.clock {
      assert Due(t)[0] == t.q[0].item;
    }
    TickTotal(s.q, s.clock - s.lastTick);
  }

  // ----- a watchdog that starves every other timer -----

  const Deadline100: seq<Event> := [Start(5, 100), Pass(50), Start(6, 50)]

  const Restarts: seq<Event> := [Pass(40), Start(6, 50)]

  function Repeat(events: seq<Event>, n: nat): seq<Event> {
    if n == 0 then [] else events + Repeat(events, n - 1)
  }

  function Starving(clock: nat): System {
    System([Entry(6, 50), Entry(5, 50)], 0, clock, At(clock + 50), false)
  }

  lemma {:induction false} RestartsStarve(clock: nat)
    ensures Run(Starving(clock), Restarts) == Starving(clock + 40)
  {
    var s := Starving(clock);
    var t := Next(s, Pass(40));
    assert Remove(t.q, 6) == [Entry(5, 100)];
    assert Insert([Entry(5, 100)], 6, 50) == s.q;
    var u := Next(t, Start(6, 50));
    assert Restarts[1..] == [Start(6, 50)];
    assert Run(t, [Start(6, 50)]) == Run(u, []);
  }

  lemma {:induction false} StarvesFor(clock: nat, n: nat)
    ensures Run(Starving(clock), Repeat(Restarts, n)) == Starving(clock + 40 * n)
    decreases n
  {
    if 0 < n {
      RestartsStarve(clock);
      RunAppend(Starving(clock), Restarts, Repeat(Restarts, n - 1));
      StarvesFor(clock + 40, n - 1);
    }
  }

  /** Timer 5 is to fire at 100. As long as timer 6, of 50 ticks, is restarted every 40, it
      never does: neither SIGALRM nor a tick ever comes. */
  lemma {:induction false} WatchdogStarves(n: nat)
    ensures var s := Run(Created(0), Deadline100 + Repeat(Restarts, n));
      s.clock == 50 + 40 * n && !s.signal && s.lastTick == 0 && On(s.q, 5) && (2 <= n ==> 5 in Due(s))
  {
    var c := Created(0);
    var a := Next(c, Start(5, 100));
    var b := Next(a, Pass(50));
    assert a.q == [Entry(5, 100)] && b == a.(clock := 50);
    assert Insert([Entry(5, 100)], 6, 50) == Starving(50).q;
    assert Next(b, Start(6, 50)) == Starving(50);
    assert Deadline100[1..] == [Pass(50), Start(6, 50)] && Deadline100[1..][1..] == [Start(6, 50)];
    assert Run(b, [Start(6, 50)]) == Run(Starving(50), []);
    RunAppend(c, Deadline100, Repeat(Restarts, n));
    StarvesFor(50, n);
    var q := Starving(50).q;
    assert q[1..] == [Entry(5, 50)];
    if 2 <= n {
      var k: nat := 50 + 40 * n;
      assert Tick(q, k).fired == [6] + Tick(q[1..], k - 50).fired;
      assert Tick(q[1..], k - 50).fired[0] == 5;
    }
  }

  // ----- left alone -----

  /** The handler runs when SIGALRM is pending. */
  function Settled(s: System): System {
    if s.signal then Next(s, Handle) else s
  }

  /** After `n` msecs without a call. */
  function After(s: System, n: nat): System {
    Settled(if n == 0 then s else Next(After(s, n - 1), Pass(1)))
  }

  /** When the handler runs next. */
  function Wake(s: System): nat {
    if s.signal || s.alarm.Off? then s.clock else s.alarm.when
  }

  lemma {:induction false} HandleIsOnTime(s: System)
    requires Good(s) && s.signal
    ensures var t := Next(s, Handle);
      && Good(t) && OnTime(t) && !t.signal && t.clock == s.clock
      && Deadlines(t.q, t.lastTick) == DueAfter(Deadlines(s.q, s.lastTick), s.clock)
  {
    hide Tick, Sound, Once;
    NextKeepsGood(s, Handle);
    TickRefines(s.q, s.clock - s.lastTick, s.lastTick);
    TickTotal(s.q, s.clock - s.lastTick);
  }

  lemma {:induction false} NothingDueYet(s: System)
    requires Good(s) && OnTime(s) && !s.signal
    ensures DueAfter(Deadlines(s.q, s.lastTick), s.clock) == Deadlines(s.q, s.lastTick)
  {
    if s.q != [] {
      var d := Deadlines(s.q, s.lastTick);
      DeadlinesAreOrdered(s.q, s.lastTick);
      assert forall e | e in d :: d[0].at <= e.at;
      NoneDue(d, s.clock);
    }
  }

  /** What `n` msecs without a call make of s: nothing until the handler runs, and from then on
      exactly the timers whose deadlines lie ahead are pending. */
  ghost predicate LeftFor(s: System, n: nat, t: System) {
    && Good(t) && !t.signal && t.clock == s.clock + n
    && if t.clock < Wake(s) && s.q != [] then t == s.(clock := t.clock)
       else OnTime(t) && Deadlines(t.q, t.lastTick) == DueAfter(Deadlines(s.q, s.lastTick), t.clock)
  }

  lemma {:induction false} FirstWake(s: System)
    requires Good(s)
    ensures LeftFor(s, 0, After(s, 0))
  {
    hide Sound, Once;
    if s.signal { HandleIsOnTime(s); }
  }

  /** One msec more. */
  lemma {:induction false} LeftAloneStep(s: System, n: nat, t: System)
    requires Good(s) && 0 < n && LeftFor(s, n - 1, t)
    ensures LeftFor(s, n, Settled(Next(t, Pass(1))))
  {
    hide Sound, Once, Deadlines, DueAfter, Tick, Total;
    var u, d := Next(t, Pass(1)), Deadlines(s.q, s.lastTick);
    NextKeepsGood(t, Pass(1));
    DueAfterTwice(d, t.clock, u.clock);
    if u.signal {
      HandleIsOnTime(u);
    } else if s.clock + n - 1 >= Wake(s) || s.q == [] {
      NothingDueYet(u);
    }
  }

  /** A system left alone, at every moment. */
  lemma {:induction false} LeftAlone(s: System, n: nat)
    requires Good(s)
    ensures LeftFor(s, n, After(s, n))
  {
    if n == 0 {
      FirstWake(s);
    } else {
      hide *;
      LeftAlone(s, n - 1);
      LeftAloneStep(s, n, After(s, n - 1));
      assert After(s, n) == Settled(Next(After(s, n - 1), Pass(1)));
    }
  }

  // ----- the delay a caller gets -----

  /** Whether timer x is still to fire `wait` msecs from now, if no call comes in between. */
  ghost predicate StillPending(s: System, x: int, wait: nat) {
    On(After(s, wait).q, x)
  }

  /** A started timer fires with the first handler at or behind its deadline. */
  lemma {:induction false} PendingUntil(s: System, x: int, time: nat, wait: nat)
    requires Good(s) && time <= INT_MAX
    ensures var t := Next(s, Start(x, time));
      StillPending(t, x, wait) <==> t.clock + wait < Wake(t) || t.clock + wait < t.lastTick + AtLeastOne(time)
  {
    hide Sound, Once, Deadlines, DueAfter, Schedule, Insert, Remove;
    var t, idle, ticks := Next(s, Start(x, time)), Remove(s.q, x), AtLeastOne(time);
    var u, d := After(t, wait), Deadlines(idle, t.lastTick);
    NextKeepsGood(s, Start(x, time));
    LeftAlone(t, wait);
    RemoveOnce(s.q, x);
    InsertOnce(idle, x, ticks);
    InsertHead(idle, x, ticks);
    InsertRefines(idle, x, ticks, t.lastTick);
    OnHas(idle, x, t.lastTick);
    OnHas(u.q, x, u.lastTick);
    ScheduledUntilDue(d, x, t.lastTick + ticks, t.clock + wait);
  }

  /** When a timer started now runs for its full time: the list is otherwise empty, or no tick
      has gone unseen, or it goes first and no SIGALRM is pending. */
  predicate FullTime(s: System, x: int, time: nat) {
    var idle := Remove(s.q, x);
    idle == [] || s.clock == s.lastTick || (!s.signal && GoesFirst(idle, AtLeastOne(time)))
  }

  /** The delay a caller of radTimerStart gets, after any history and if no further call comes:
      it is never longer than the one asked for, and as long exactly under `FullTime`. */
  lemma {:induction false} FullDelay(now: nat, events: seq<Event>, x: int, time: nat)
    requires Legal(events) && time <= INT_MAX
    ensures var s := Run(Created(now), events);
      var t := Next(s, Start(x, time));
      && (forall wait: nat :: StillPending(t, x, wait) ==> wait < AtLeastOne(time))
      && ((forall wait: nat :: StillPending(t, x, wait) <==> wait < AtLeastOne(time)) <==> FullTime(s, x, time))
  {
    var s := Run(Created(now), events);
    var t, ticks := Next(s, Start(x, time)), AtLeastOne(time);
    RunsStayAwake(Created(now), events);
    var idle := Remove(s.q, x);
    if idle != [] { RemoveHeadGrows(s.q, x); }
    forall wait: nat
      ensures StillPending(t, x, wait) <==> t.clock + wait < Wake(t) || t.clock + wait < t.lastTick + ticks
    {
      PendingUntil(s, x, time, wait);
    }
    assert Wake(t) <= t.clock + ticks && t.lastTick <= t.clock;
    if !FullTime(s, x, time) {
      assert !StillPending(t, x, ticks - 1);
    }
  }

  /** Timer 6, started for 120 msecs half-way to another timer's deadline of 100, fires after 70. */
  lemma {:induction false} FiresEarly()
    ensures var s := Run(Created(0), [Start(5, 100), Pass(50)]);
      !FullTime(s, 6, 120) && !StillPending(Next(s, Start(6, 120)), 6, 70)
  {
    var events := [Start(5, 100), Pass(50)];
    var s := System([Entry(5, 100)], 0, 50, At(100), false);
    assert events[1..] == [Pass(50)] && Run(s, []) == s;
    assert Run(Next(Created(0), Start(5, 100)), [Pass(50)]) == Run(s, []);
    assert Run(Created(0), events) == s;
    NextKeepsGood(Created(0), Start(5, 100));
    NextKeepsGood(Next(Created(0), Start(5, 100)), Pass(50));
    PendingUntil(s, 6, 120, 70);
  }
}
