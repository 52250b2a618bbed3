/** The timer list of radtimers.c with the one-shot alarm that drives it. The clock, the
    alarm and the pending SIGALRM belong to the system and are part of the state; the signal
    handler is one atomic step. Between any two steps a public method may be interrupted
    only where the source has SIGALRM enabled, and each of these steps keeps `Valid`. */
module Timers {
  import opened DeltaList
  import opened Sequences
  import opened TimerCells
  import opened TimerSystem

  /** The callbacks of fired timers, in order; a timer without a routine sends none. */
  ghost function Calls(cb: seq<Callback>, fired: seq<int>): seq<Callback> {
    if fired == [] then [] else Call(cb, fired[0]) + Calls(cb, fired[1..])
  }

  ghost function Call(cb: seq<Callback>, t: int): seq<Callback> {
    if 0 <= t < |cb| && cb[t].routine != 0 then [cb[t]] else []
  }

  lemma {:induction false} CallsAppend(cb: seq<Callback>, fired: seq<int>, t: int)
    ensures Calls(cb, fired + [t]) == Calls(cb, fired) + Call(cb, t)
  {
    if fired == [] {
      assert fired + [t] == [t];
      assert Calls(cb, [t][1..]) == [];
    } else {
      assert (fired + [t])[1..] == fired[1..] + [t];
      CallsAppend(cb, fired[1..], t);
    }
  }

  /** What is sent for the timers `due`, in their order: one message, with the timer's own
      routine and parameter, for each that has a routine. These are at positions `at`. */
  ghost predicate Messages(m: seq<Cell>, due: seq<int>, more: seq<Callback>, at: seq<nat>) {
    && AllWithRoutine(m, due, at) && |more| == |at|
    && forall i | 0 <= i < |at| :: var t := m[due[at[i]]]; more[i] == Callback(t.routine, t.parm)
  }

  /** The positions of the timers that have a routine, in order. */
  ghost predicate AllWithRoutine(m: seq<Cell>, due: seq<int>, at: seq<nat>) {
    && (forall i, j | 0 <= i < j < |at| :: at[i] < at[j])
    && (forall i | 0 <= i < |at| :: at[i] < |due| && 0 <= due[at[i]] < |m| && m[due[at[i]]].routine != 0)
    && forall k | 0 <= k < |due| && 0 <= due[k] < |m| && m[due[k]].routine != 0 :: k in at
  }

  lemma {:induction false} CallsAreSent(m: seq<Cell>, due: seq<int>) returns (at: seq<nat>)
    requires forall t | t in due :: 0 <= t < |m|
    ensures Messages(m, due, Calls(Callbacks(m), due), at)
  {
    hide Messages, Calls, Call, Callbacks;
    if due == [] {
      at := [];
      NoneSent(m);
    } else {
      var n := |due| - 1;
      var front, t := due[..n], due[n];
      assert t in due && (forall x | x in front :: x in due) && front + [t] == due;
      at := CallsAreSent(m, front);
      CallsAppend(Callbacks(m), front, t);
      CallIs(m, t);
      at := OneMoreMessage(m, front, t, Calls(Callbacks(m), front), at, Call(Callbacks(m), t));
    }
  }

  lemma {:induction false} NoneSent(m: seq<Cell>)
    ensures Messages(m, [], Calls(Callbacks(m), []), [])
  {
  }

  lemma {:induction false} CallIs(m: seq<Cell>, t: int)
    requires 0 <= t < |m|
    ensures Call(Callbacks(m), t) == if m[t].routine != 0 then [Callback(m[t].routine, m[t].parm)] else []
  {
  }

  lemma {:induction false} OneMoreMessage(m: seq<Cell>, due: seq<int>, t: int, more: seq<Callback>, at: seq<nat>,
                                          c: seq<Callback>) returns (at': seq<nat>)
    requires Messages(m, due, more, at) && 0 <= t < |m|
    requires c == if m[t].routine != 0 then [Callback(m[t].routine, m[t].parm)] else []
    ensures Messages(m, due + [t], more + c, at')
  {
    at' := OneMoreWithRoutine(m, due, t, at);
    var all, more' := due + [t], more + c;
    forall i | 0 <= i < |at'| ensures var x := m[all[at'[i]]]; more'[i] == Callback(x.routine, x.parm) {
      if i < |at| { assert at'[i] == at[i] && all[at[i]] == due[at[i]]; }
    }
  }

  lemma {:induction false} OneMoreWithRoutine(m: seq<Cell>, due: seq<int>, t: int, at: seq<nat>) returns (at': seq<nat>)
    requires AllWithRoutine(m, due, at) && 0 <= t < |m|
    ensures at' == if m[t].routine != 0 then at + [|due|] else at
    ensures AllWithRoutine(m, due + [t], at')
  {
    var all, n := due + [t], |due|;
    at' := if m[t].routine != 0 then at + [n] else at;
    assert forall i | 0 <= i < n :: all[i] == due[i];
    forall k | 0 <= k < |all| && 0 <= all[k] < |m| && m[all[k]].routine != 0 ensures k in at' {
      if k < n {
        assert k in at;
        var i :| 0 <= i < |at| && at[i] == k;
        assert at'[i] == k;
      } else {
        assert at'[|at|] == k;
      }
    }
  }

  lemma {:induction false} CallbackSet(m0: seq<Cell>, m: seq<Cell>, m': seq<Cell>, t: int, routine: nat, parm: int)
    requires Callbacks(m) == Callbacks(m0) && 0 <= t < |m| && m' == SetCallback(m, t, routine, parm)
    ensures |m'| == |m0| && m'[t].routine == routine && m'[t].parm == parm
    ensures forall x | 0 <= x < |m| && x != t :: m'[x].routine == m0[x].routine && m'[x].parm == m0[x].parm
  {
    hide SetCallback;
    assert forall x | 0 <= x < |m| :: Callbacks(m)[x] == Callback(m[x].routine, m[x].parm);
    assert forall x | 0 <= x < |m| :: Callbacks(m0)[x] == Callback(m0[x].routine, m0[x].parm);
    assert forall x | 0 <= x < |m| :: Callbacks(m')[x] == Callback(m'[x].routine, m'[x].parm);
  }

  lemma {:induction false} NoDeadlines(es: seq<Entry<int>>, a: int, b: int)
    ensures es == [] ==> Deadlines(es, a) == Deadlines(es, b)
  {
  }

  lemma {:induction false} FiredInBlock(m: seq<Cell>, queue: seq<int>, free: seq<int>, first: int, es: seq<Entry<int>>,
                                        n: nat)
    requires Lists(m, queue, free, first) && es == Entries(m, queue)
    ensures forall t | t in Tick(es, n).fired :: 0 <= t < |m|
  {
    hide Linked, Chained, Flags;
    FiredAreOn(es, n);
    EntriesOnce(m, queue);
  }

  lemma {:induction false} ArmedIs(alarm: Alarm, clock: nat, rest: seq<Entry<int>>)
    requires rest != [] ==> 0 < rest[0].delta
    ensures Armed(alarm, clock, Delay(rest)) == if rest == [] then alarm else At(clock + rest[0].delta)
  {
  }

  /** The loop of timerProcess halfway: `fired` have fired, `n` ticks are left for `rest`. */
  ghost predicate TickedTo(t: Ticked<int>, rest: seq<Entry<int>>, fired: seq<int>, n: nat) {
    t == Ticked(Tick(rest, n).rest, fired + Tick(rest, n).fired)
  }

  lemma {:induction false} TickStart(es: seq<Entry<int>>, n: nat, cb: seq<Callback>)
    ensures TickedTo(Tick(es, n), es, [], n) && Calls(cb, []) == []
  {
    assert [] + Tick(es, n).fired == Tick(es, n).fired;
  }

  lemma {:induction false} TickStep(t: Ticked<int>, rest: seq<Entry<int>>, fired: seq<int>, n: nat)
    requires rest != [] && rest[0].delta <= n && TickedTo(t, rest, fired, n)
    ensures TickedTo(t, rest[1..], fired + [rest[0].item], n - rest[0].delta)
  {
    var t' := Tick(rest[1..], n - rest[0].delta);
    assert fired + ([rest[0].item] + t'.fired) == fired + [rest[0].item] + t'.fired;
  }

  lemma {:induction false} TickDone(t: Ticked<int>, rest: seq<Entry<int>>, fired: seq<int>, n: nat)
    requires (rest != [] ==> n < rest[0].delta) && TickedTo(t, rest, fired, n)
    ensures t == Ticked(Shortened(rest, n), fired)
  {
    assert fired + [] == fired;
  }

  class TimerList {
    var cells: seq<Cell>
    var freeList: int
    var noFreeTimers: nat
    var lastTick: nat

    // the system
    var clock: nat
    var alarm: Alarm
    var signal: bool
    var sent: seq<Callback>

    ghost var queue: seq<int>
    ghost var free: seq<int>

    /** The timers radTimerCreate has handed out and radTimerDelete has not taken back. */
    ghost var taken: set<int>

    ghost predicate Core()
      reads this
    {
      && Lists(cells, queue, free, freeList) && noFreeTimers == |free|
      && Sound(Entries(cells, queue)) && lastTick <= clock
      && forall t :: t in taken <==> FIRST <= t < |cells| && t !in free
    }

    ghost predicate Valid()
      reads this
    {
      Core() && Awake(Entries(cells, queue), clock, alarm, signal)
    }

    /** The pending timers with their ticks. */
    ghost function Pending(): seq<Entry<int>>
      requires Core()
      reads this
    {
      Entries(cells, queue)
    }

    /** The list, its alarm and the clock. */
    ghost function State(): System
      requires Core()
      reads this
    {
      System(Pending(), lastTick, clock, alarm, signal)
    }

    /** radUtilsSetIntervalTimer. */
    method SetIntervalTimer(msecs: int)
      modifies this`alarm
      ensures alarm == Armed(old(alarm), clock, msecs)
      ensures msecs == 0 ==> alarm.Off?
      ensures msecs < 0 ==> alarm == old(alarm)
      ensures 0 < msecs ==> alarm == At(clock + msecs)
    {
      if msecs == 0 {
        alarm := Off;
      } else if 0 < msecs {
        alarm := At(clock + msecs);
      }
    }

    /** Time passes; an alarm that is due raises SIGALRM and is spent. */
    method AdvanceClock(ticks: nat)
      requires Valid()
      modifies this`clock, this`alarm, this`signal
      ensures Valid() && State() == Next(old(State()), Event.Pass(ticks))
      ensures signal <==> old(signal) || (old(alarm).At? && old(alarm).when <= clock)
      ensures alarm == if old(alarm).At? && old(alarm).when <= clock then Off else old(alarm)
    {
      clock := clock + ticks;
      if alarm.At? && alarm.when <= clock {
        alarm := Off;
        signal := true;
      }
    }

    /** The writes of radTimerStop for the timer at position `k`. */
    method TakeOff(timer: int, ghost k: nat)
      requires InBlock(|cells|, queue) && Distinct(queue) && Linked(cells, queue) && k < |queue| && timer == queue[k]
      modifies this`cells
      ensures Stopped(old(cells), cells, queue, k)
    {
      ghost var m := cells;
      Neighbours(m, queue, k);
      cells := SetPending(cells, timer, false);
      ghost var m1 := cells;
      var next, prev := cells[timer].next, cells[timer].prev;
      if next != TAIL {
        cells := SetTicks(cells, next, cells[next].deltaTime + cells[timer].deltaTime);
      }
      ghost var m2 := cells;
      cells := SetPrev(cells, next, prev);
      ghost var m3 := cells;
      cells := SetNext(cells, prev, next);
      StopWrites(m, m1, m2, m3, cells, queue, k, next, prev);
    }

    /** radTimerStop of a pending timer. */
    method StopPending(timer: int, ghost es: seq<Entry<int>>)
      requires Lists(cells, queue, free, freeList) && timer in queue && es == Entries(cells, queue)
      modifies this`cells, this`queue
      ensures Lists(cells, queue, free, freeList) && Entries(cells, queue) == Remove(es, timer)
      ensures |cells| == |old(cells)| && timer !in queue
      ensures Callbacks(cells) == Callbacks(old(cells)) && !cells[timer].pending
    {
      ghost var m, q := cells, queue;
      ghost var k :| 0 <= k < |q| && q[k] == timer;
      assert InBlock(|m|, q) && Distinct(q) && Linked(m, q) && Lists(m, q, free, freeList);
      hide *;
      TakeOff(timer, k);
      ghost var rest := Without(q, k);
      StopLists(m, cells, q, free, freeList, k);
      queue := rest;
      assert Lists(cells, queue, free, freeList);
    }

    /** radTimerStop: the timer's deadline is cancelled, no other moves. */
    method Stop(timer: int)
      requires Valid() && (timer == NULL || timer in taken)
      modifies this`cells, this`queue
      ensures timer == NULL ==> unchanged(this)
      ensures Valid() && Callbacks(cells) == Callbacks(old(cells))
      ensures timer != NULL ==> !cells[timer].pending && State() == Next(old(State()), Event.Stop(timer))
      ensures timer != NULL ==>
        Deadlines(Pending(), lastTick) == Cancel(old(Deadlines(Pending(), lastTick)), timer)
    {
      if timer == NULL {
        return;
      }
      ghost var es := Pending();
      RemoveRefines(es, timer, lastTick);
      if !cells[timer].pending {
        RemoveAbsent(es, timer);
        return;
      }
      StopKeeps(es, timer, clock, alarm, signal);
      StopPending(timer, es);
    }

    /** The search of radTimerStart: past every timer that is due earlier. */
    method FindPlace(timer: int, ticks: nat, ghost es: seq<Entry<int>>)
      returns (prev: int, next: int, time: nat, ghost k: nat)
      requires InBlock(|cells|, queue) && Linked(cells, queue) && cells[TAIL].deltaTime == TAIL_DELTA
      requires es == Entries(cells, queue) && ticks <= INT_MAX
      ensures k <= |queue| && prev == Before(queue, k) && next == After(queue, k)
      ensures if k == 0 then time == ticks else es[0].delta < ticks
      ensures k < |queue| ==> time <= cells[queue[k]].deltaTime
      ensures InsertFrom(es, k, timer, time) == Insert(es, timer, ticks)
    {
      hide InsertFrom, Insert;
      prev, next, time := HEAD, cells[HEAD].next, ticks;
      k := 0;
      HeadOf(cells, queue);
      InsertFromStart(es, timer, ticks);
      while cells[next].deltaTime < time
        invariant k <= |queue| && prev == Before(queue, k) && next == After(queue, k) && time <= ticks
        invariant if k == 0 then time == ticks else es[0].delta < ticks
        invariant InsertFrom(es, k, timer, time) == Insert(es, timer, ticks)
        decreases |queue| - k
      {
        InsertStep(es, timer, time, k);
        time := time - cells[next].deltaTime;
        assert Before(queue, k + 1) == next;
        prev, next := next, cells[next].next;
        k := k + 1;
      }
    }

    /** The writes of radTimerStart for an idle timer. */
    method LinkIn(timer: int, prev: int, next: int, time: nat, ghost k: nat)
      requires InBlock(|cells|, queue) && k <= |queue| && FIRST <= timer < |cells| && timer !in queue
      requires prev == Before(queue, k) && next == After(queue, k)
        && (k < |queue| ==> time <= cells[queue[k]].deltaTime)
      modifies this`cells
      ensures Started(old(cells), cells, queue, k, timer, time)
    {
      ghost var m := cells;
      cells := SetPending(cells, timer, true);
      ghost var m1 := cells;
      cells := SetPrev(cells, timer, prev);
      ghost var m2 := cells;
      cells := SetNext(cells, timer, next);
      ghost var m3 := cells;
      cells := SetTicks(cells, timer, time);
      ghost var m4 := cells;
      cells := SetNext(cells, prev, timer);
      ghost var m5 := cells;
      cells := SetPrev(cells, next, timer);
      ghost var m6 := cells;
      if next != TAIL {
        cells := SetTicks(cells, next, cells[next].deltaTime - time);
      }
      StartWrites(m, m1, m2, m3, m4, m5, m6, cells, queue, k, timer, time, prev, next);
    }

    /** radTimerStart of an idle timer; `first` tells whether it is now the first. */
    method PutIn(timer: int, ticks: nat, ghost es: seq<Entry<int>>) returns (first: bool)
      requires Lists(cells, queue, free, freeList) && es == Entries(cells, queue) && timer !in queue && timer !in free
      requires FIRST <= timer < |cells| && ticks <= INT_MAX
      modifies this`cells, this`queue
      ensures Lists(cells, queue, free, freeList) && Entries(cells, queue) == Insert(es, timer, ticks)
      ensures Callbacks(cells) == Callbacks(old(cells)) && cells[timer].pending
      ensures first <==> es == [] || ticks <= es[0].delta
    {
      ghost var m, q := cells, queue;
      var prev, next, time, k := FindPlace(timer, ticks, es);
      assert InBlock(|m|, q) && Lists(m, q, free, freeList);
      first := prev == HEAD;
      LinkIn(timer, prev, next, time, k);
      StartLists(m, cells, q, free, freeList, k, timer, time);
      queue := With(q, k, timer);
    }

    /** radTimerStart. The deadline is the last tick plus the ticks asked for, at least one;
        a pending timer gives its old deadline up; no other deadline moves. */
    method Start(timer: int, time: nat)
      requires Valid() && (timer == NULL || timer in taken) && time <= INT_MAX
      modifies this`cells, this`queue, this`lastTick, this`alarm
      ensures timer == NULL ==> unchanged(this)
      ensures Valid() && Callbacks(cells) == Callbacks(old(cells))
      ensures timer != NULL ==> cells[timer].pending && State() == Next(old(State()), Event.Start(timer, time))
      ensures timer != NULL ==>
        var others := Cancel(old(Deadlines(Pending(), lastTick)), timer);
        var ticks := if time == 0 then 1 else time;
        && Deadlines(Pending(), lastTick) == Schedule(others, timer, lastTick + ticks)
        && alarm == if forall e | e in others :: old(lastTick) + ticks <= e.at then At(clock + ticks) else old(alarm)
    {
      hide InBlock, Distinct, Linked, Chained, Callbacks, Remove, Insert, Schedule, Cancel, Sound, Awake, Deadlines,
        StartAlarm, GoesFirst;
      if timer == NULL {
        return;
      }
      ghost var es := Pending();
      StopKeeps(es, timer, clock, alarm, signal);
      RemoveRefines(es, timer, lastTick);
      if cells[timer].pending {
        StopPending(timer, es);
      } else {
        RemoveAbsent(es, timer);
      }
      ghost var idle := Remove(es, timer);
      assert timer !in queue;
      var ticks := AtLeastOne(time);
      StartAlarmIs(alarm, clock, idle, ticks, lastTick);
      StartIdle(timer, ticks, idle);
      NoDeadlines(idle, lastTick, old(lastTick));
      assert Deadlines(idle, lastTick) == Cancel(Deadlines(es, old(lastTick)), timer);
      InsertRefines(idle, timer, ticks, lastTick);
    }

    /** radTimerStart from the point where the timer is idle. */
    method StartIdle(timer: int, ticks: nat, ghost es: seq<Entry<int>>)
      requires Lists(cells, queue, free, freeList) && es == Entries(cells, queue) && Sound(es)
        && Awake(es, clock, alarm, signal)
      requires FIRST <= timer < |cells| && timer !in queue && timer !in free && 0 < ticks <= INT_MAX
      modifies this`cells, this`queue, this`lastTick, this`alarm
      ensures Lists(cells, queue, free, freeList) && Entries(cells, queue) == Insert(es, timer, ticks)
      ensures Sound(Insert(es, timer, ticks)) && Awake(Insert(es, timer, ticks), clock, alarm, signal)
      ensures Callbacks(cells) == Callbacks(old(cells)) && cells[timer].pending
      ensures lastTick == if es == [] then clock else old(lastTick)
      ensures alarm == StartAlarm(old(alarm), clock, es, ticks)
    {
      if cells[HEAD].next == TAIL {
        lastTick := clock;
      }
      assert cells[HEAD].next == TAIL <==> es == [] by { assert Before(queue, 0) == HEAD; }
      hide Lists, Sound, Awake, Callbacks;
      var first := PutIn(timer, ticks, es);
      StartKeeps(es, timer, ticks, clock, alarm, signal);
      if first {
        SetIntervalTimer(ticks);
      }
    }

    /** One firing of timerProcess: the first timer leaves the list and sends its callback. */
    method FireFirst(timer: int, ghost es: seq<Entry<int>>)
      requires Lists(cells, queue, free, freeList) && es == Entries(cells, queue) && queue != [] && timer == queue[0]
      modifies this`cells, this`queue, this`sent
      ensures Lists(cells, queue, free, freeList) && Entries(cells, queue) == es[1..] && |queue| == |old(queue)| - 1
      ensures Callbacks(cells) == Callbacks(old(cells)) && sent == old(sent) + Call(Callbacks(old(cells)), timer)
      ensures Fired(old(cells), cells, old(queue)) && queue == old(queue)[1..]
      ensures var c := old(cells)[timer];
        sent == if c.routine != 0 then old(sent) + [Callback(c.routine, c.parm)] else old(sent)
    {
      ghost var m, q := cells, queue;
      Neighbours(m, q, 0);
      cells := SetPending(cells, timer, false);
      ghost var m1 := cells;
      cells := SetNext(cells, HEAD, cells[timer].next);
      ghost var m2 := cells;
      cells := SetPrev(cells, cells[timer].next, HEAD);
      if cells[timer].routine != 0 {
        sent := sent + [Callback(cells[timer].routine, cells[timer].parm)];
      }
      FireWrites(m, m1, m2, cells, q);
      FireLists(m, cells, q, free, freeList);
      queue := q[1..];
    }

    /** The loop of timerProcess: fires what has come due and returns the ticks left over. */
    method FireDue(ticks: nat, ghost es: seq<Entry<int>>) returns (left: nat, ghost rest: seq<Entry<int>>)
      requires Lists(cells, queue, free, freeList) && es == Entries(cells, queue) && ticks < TAIL_DELTA
      modifies this`cells, this`queue, this`sent
      ensures Lists(cells, queue, free, freeList) && Callbacks(cells) == Callbacks(old(cells))
      ensures rest == Entries(cells, queue) && (rest != [] ==> left < rest[0].delta)
      ensures Tick(es, ticks).rest == Shortened(rest, left)
      ensures sent == old(sent) + Calls(Callbacks(old(cells)), Tick(es, ticks).fired)
      ensures var f := |Tick(es, ticks).fired|;
        f <= |old(queue)| && FiredTo(old(cells), cells, old(queue), f) && queue == old(queue)[f..]
    {
      hide Lists, Linked, Distinct, Tick, Calls, Call, Callbacks, TickedTo, FiredTo, Fired;
      ghost var cb, fired := Callbacks(cells), [];
      ghost var m0, q0 := cells, queue;
      NoneFired(m0, q0, free, freeList);
      left, rest := ticks, es;
      FirstTimer(cells, queue, free, freeList);
      TickStart(es, ticks, cb);
      var timer := cells[HEAD].next;
      while cells[timer].deltaTime <= left
        invariant Lists(cells, queue, free, freeList) && InBlock(|cells|, queue)
        invariant rest == Entries(cells, queue) && Callbacks(cells) == cb
        invariant 0 <= timer < |cells| && left <= ticks
        invariant if queue == [] then rest == [] && cells[timer].deltaTime == TAIL_DELTA
                  else timer == queue[0] && rest != [] && rest[0] == Entry(timer, cells[timer].deltaTime)
        invariant TickedTo(Tick(es, ticks), rest, fired, left)
        invariant sent == old(sent) + Calls(cb, fired)
        invariant |fired| <= |q0| && FiredTo(m0, cells, q0, |fired|) && queue == q0[|fired|..]
        decreases |queue|
      {
        TickStep(Tick(es, ticks), rest, fired, left);
        CallsAppend(cb, fired, timer);
        left := left - cells[timer].deltaTime;
        ghost var m := cells;
        FireFirst(timer, rest);
        FiredOneMore(m0, m, cells, q0, |fired|, free, freeList);
        rest, fired := rest[1..], fired + [timer];
        FirstTimer(cells, queue, free, freeList);
        timer := cells[HEAD].next;
      }
      TickDone(Tick(es, ticks), rest, fired, left);
    }

    /** The end of timerProcess: what is left over shortens the first timer. */
    method Shorten(n: nat, ghost es: seq<Entry<int>>) returns (delay: int)
      requires Lists(cells, queue, free, freeList) && es == Entries(cells, queue) && (es != [] ==> n < es[0].delta)
      modifies this`cells
      ensures Lists(cells, queue, free, freeList) && Callbacks(cells) == Callbacks(old(cells))
      ensures Entries(cells, queue) == Shortened(es, n) && delay == Delay(Shortened(es, n))
      ensures Shrunk(old(cells), cells, queue, n)
    {
      hide Lists, InBlock, Distinct, Callbacks;
      FirstTimer(cells, queue, free, freeList);
      ghost var m := cells;
      var timer := cells[HEAD].next;
      if timer != TAIL {
        cells := SetTicks(cells, timer, cells[timer].deltaTime - n);
        ShortenLists(m, cells, queue, free, freeList, n);
        delay := cells[timer].deltaTime;
      } else {
        delay := -1;
      }
    }

    /** timerProcess; the result is the ticks to the first timer left, or -1. */
    method Process(ghost es: seq<Entry<int>>, ghost t: Ticked<int>) returns (delay: int)
      requires Lists(cells, queue, free, freeList) && es == Entries(cells, queue)
      requires 0 <= clock - lastTick < TAIL_DELTA && t == Tick(es, clock - lastTick)
      modifies this`cells, this`queue, this`lastTick, this`sent
      ensures Lists(cells, queue, free, freeList) && lastTick == clock && Callbacks(cells) == Callbacks(old(cells))
      ensures Entries(cells, queue) == t.rest && delay == Delay(t.rest)
      ensures sent == old(sent) + Calls(Callbacks(old(cells)), t.fired)
      ensures FiredCells(old(cells), cells, old(queue), |t.fired|)
      ensures |t.fired| <= |old(queue)| && queue == old(queue)[|t.fired|..]
    {
      hide *;
      ghost var m0, q0 := cells, queue;
      var numberOfTicks := clock - lastTick;
      lastTick := clock;
      ghost var rest;
      numberOfTicks, rest := FireDue(numberOfTicks, es);
      ghost var m := cells;
      delay := Shorten(numberOfTicks, rest);
      FiredStay(m0, m, cells, q0, |t.fired|, numberOfTicks);
    }

    /** timerSignalHandler: timerProcess, then the interval timer it asks for. */
    method Handle(ghost es: seq<Entry<int>>, ghost t: Ticked<int>)
      requires Lists(cells, queue, free, freeList) && es == Entries(cells, queue)
      requires 0 <= clock - lastTick < TAIL_DELTA && t == Tick(es, clock - lastTick)
      modifies this`cells, this`queue, this`lastTick, this`sent, this`alarm, this`signal
      ensures Lists(cells, queue, free, freeList) && lastTick == clock && Callbacks(cells) == Callbacks(old(cells))
        && !signal
      ensures Entries(cells, queue) == t.rest && alarm == Armed(old(alarm), clock, Delay(t.rest))
      ensures sent == old(sent) + Calls(Callbacks(old(cells)), t.fired)
    {
      hide *;
      signal := false;
      var delay := Process(es, t);
      SetIntervalTimer(delay);
    }

    /** timerSignalHandler: exactly the timers that are due by now fire, in list order, each
        with a routine sends it with its parameter, the others keep their deadlines, and the
        alarm is set for the first of them. */
    method HandleSignal() returns (ghost more: seq<Callback>, ghost at: seq<nat>)
      requires Valid() && signal && clock - lastTick < TAIL_DELTA
      modifies this`cells, this`queue, this`lastTick, this`sent, this`alarm, this`signal
      ensures Valid() && Callbacks(cells) == Callbacks(old(cells)) && lastTick == clock && !signal
      ensures State() == Next(old(State()), Event.Handle)
      ensures var due := old(Deadlines(Pending(), lastTick));
        && sent == old(sent) + more && Messages(old(cells), DueBy(due, clock), more, at)
        && Deadlines(Pending(), lastTick) == DueAfter(due, clock)
      ensures alarm == if Pending() == [] then old(alarm) else At(clock + Pending()[0].delta)
    {
      hide Lists, InBlock, Distinct, Callbacks, Tick, Calls, Deadlines, DueAfter, DueBy, Sound, Awake, Armed;
      ghost var es, n := Pending(), clock - lastTick;
      ghost var t := Tick(es, n);
      TickRefines(es, n, lastTick);
      TickKeeps(es, n, clock, alarm);
      TickTotal(es, n);
      FiredInBlock(cells, queue, free, freeList, es, n);
      more := Calls(Callbacks(cells), t.fired);
      at := CallsAreSent(cells, t.fired);
      ghost var alarm0 := alarm;
      Handle(es, t);
      ArmedIs(alarm0, clock, t.rest);
    }

    /** The allocation of radTimerCreate. */
    method TakeTimer(ghost es: seq<Entry<int>>) returns (timer: int)
      requires Lists(cells, queue, free, freeList) && es == Entries(cells, queue) && noFreeTimers == |free|
      modifies this`cells, this`freeList, this`noFreeTimers, this`free
      ensures Lists(cells, queue, free, freeList) && Entries(cells, queue) == es && noFreeTimers == |free|
      ensures Callbacks(cells) == Callbacks(old(cells)) && |cells| == |old(cells)|
      ensures timer == NULL ==> old(free) == [] && unchanged(this)
      ensures timer != NULL ==>
        old(free) == [timer] + free && FIRST <= timer < |cells| && timer !in free && timer !in queue
          && !cells[timer].pending
    {
      timer := freeList;
      if timer != NULL {
        ghost var m := cells;
        freeList := cells[timer].next;
        noFreeTimers := noFreeTimers - 1;
        cells := SetPending(cells, timer, false);
        TakeFree(m, cells, queue, free, timer);
        free := free[1..];
      }
    }

    /** radTimerCreate: a free timer, or a new callback for `given`; NULL when a timer is asked
        for and none is free. The delta list stays as it is. */
    method CreateTimer(given: int, routine: nat, parm: int) returns (timer: int)
      requires Valid() && (given == NULL || given in taken)
      modifies this`cells, this`freeList, this`noFreeTimers, this`free, this`taken
      ensures Valid() && State() == old(State()) && |cells| == |old(cells)|
      ensures timer == NULL <==> given == NULL && old(noFreeTimers) == 0
      ensures timer == NULL ==> unchanged(this)
      ensures timer != NULL ==> taken == old(taken) + {timer}
      ensures timer != NULL ==> 0 <= timer < |cells| && cells[timer].routine == routine && cells[timer].parm == parm
      ensures forall t | 0 <= t < |cells| && t != timer ::
        cells[t].routine == old(cells)[t].routine && cells[t].parm == old(cells)[t].parm
      ensures given != NULL ==> timer == given && unchanged(`free, `noFreeTimers)
      ensures given == NULL != timer ==>
        timer !in old(taken) && !cells[timer].pending && old(free) == [timer] + free
    {
      hide Lists, Linked, Chained, Distinct, Callbacks, Sound, Awake, Entries, InBlock, Apart, Flags;
      ghost var es, m0 := Pending(), cells;
      timer := given;
      if timer == NULL {
        timer := TakeTimer(es);
        if timer == NULL {
          return;
        }
      }
      ghost var m := cells;
      cells := SetCallback(cells, timer, routine, parm);
      CallbackLists(m, cells, queue, free, freeList);
      CallbackSet(m0, m, cells, timer, routine, parm);
      taken := taken + {timer};
    }

    /** The second half of radTimerDelete: an idle timer goes to the front of the free list. */
    method GiveTimer(timer: int, ghost es: seq<Entry<int>>)
      requires Lists(cells, queue, free, freeList) && es == Entries(cells, queue) && noFreeTimers == |free|
      requires FIRST <= timer < |cells| && timer !in queue && timer !in free && !cells[timer].pending
      modifies this`cells, this`freeList, this`noFreeTimers, this`free
      ensures Lists(cells, queue, free, freeList) && Entries(cells, queue) == es && noFreeTimers == |free|
      ensures Callbacks(cells) == Callbacks(old(cells)) && free == [timer] + old(free)
    {
      hide Lists, Callbacks, InBlock;
      ghost var m := cells;
      cells := SetNext(cells, timer, freeList);
      GiveBack(m, cells, queue, free, freeList, timer);
      freeList := timer;
      noFreeTimers := noFreeTimers + 1;
      free := [timer] + free;
    }

    /** radTimerDelete: the timer is stopped and free; no other deadline moves. */
    method DeleteTimer(timer: int)
      requires Valid() && (timer == NULL || timer in taken)
      modifies this`cells, this`queue, this`freeList, this`noFreeTimers, this`free, this`taken
      ensures timer == NULL ==> unchanged(this)
      ensures Valid() && Callbacks(cells) == Callbacks(old(cells))
      ensures timer != NULL ==> free == [timer] + old(free) && taken == old(taken) - {timer}
      ensures timer != NULL ==> State() == Next(old(State()), Event.Stop(timer))
      ensures Deadlines(Pending(), lastTick) ==
        if timer == NULL then old(Deadlines(Pending(), lastTick))
          else Cancel(old(Deadlines(Pending(), lastTick)), timer)
    {
      if timer == NULL {
        return;
      }
      Stop(timer);
      GiveTimer(timer, Pending());
      taken := taken - {timer};
    }

    /** radTimerStatus: whether the timer has a deadline. */
    method Status(timer: int) returns (pending: bool)
      requires Valid() && (timer == NULL || timer in taken)
      ensures pending <==> Has(Deadlines(Pending(), lastTick), timer)
    {
      DeadlineItems(Pending(), lastTick, timer);
      pending := timer != NULL && cells[timer].pending;
    }

    /** The free timers and those handed out always sum to the number the list was created with. */
    lemma NoTimerIsLost()
      requires Valid()
      ensures noFreeTimers + |taken| == |cells| - FIRST
    {
      FreeAndTaken(|cells|, free, taken);
    }

    /** A valid list is a good system: the laws of its runs hold. */
    lemma ValidIsGood()
      requires Valid()
      ensures Good(State())
    {
      EntriesOnce(cells, queue);
    }

    /** The loop of radTimerListCreate: the timers are pushed one by one, in address order. */
    static method ChainFree(block: seq<Cell>) returns (m: seq<Cell>, first: int, ghost free: seq<int>)
      requires FIRST <= |block|
      ensures |m| == |block| && Callbacks(m) == Callbacks(block)
      ensures InBlock(|m|, free) && Distinct(free) && Chained(m, first, free) && |free| == |m| - FIRST
      ensures forall t | FIRST <= t < |m| :: t in free
    {
      m, first, free := block, NULL, [];
      var timer := FIRST;
      while timer < |block|
        invariant FIRST <= timer <= |block| == |m| && Callbacks(m) == Callbacks(block)
        invariant |free| == timer - FIRST && forall i | 0 <= i < |free| :: free[i] == timer - 1 - i
        invariant forall t | FIRST <= t < timer :: t in free
        invariant first == FreeAt(free, 0) && forall i | 0 <= i < |free| :: m[free[i]].next == FreeAt(free, i + 1)
      {
        m := SetNext(m, timer, first);
        first := timer;
        free := [timer] + free;
        timer := timer + 1;
      }
    }

    /** The block radTimerListCreate sets up: no timer pending, all free. */
    static method FreshBlock(block: seq<Cell>) returns (m: seq<Cell>, first: int, ghost free: seq<int>)
      requires FIRST <= |block|
      ensures |m| == |block| && Lists(m, [], free, first) && Entries(m, []) == []
      ensures |free| == |block| - FIRST && forall t | FIRST <= t < |m| :: t in free
    {
      m, first, free := ChainFree(block);
      m := m[HEAD := Cell(TAIL, NULL, 0, false, 0, 0)];
      m := m[TAIL := Cell(NULL, HEAD, TAIL_DELTA, false, 0, 0)];
      FreshLists(m, free, first);
    }

    /** radTimerListCreate on a block of `noTimers` timers whose contents are arbitrary. */
    constructor (noTimers: nat, block: seq<Cell>, now: nat)
      requires |block| == FIRST + noTimers
      ensures Valid() && State() == Created(now) && noFreeTimers == noTimers && |cells| == |block| && taken == {}
    {
      hide Lists;
      var m, first;
      ghost var spare;
      m, first, spare := FreshBlock(block);
      cells, freeList, free := m, first, spare;
      noFreeTimers, lastTick := noTimers, 0;
      clock, alarm, signal, sent := now, Off, false, [];
      queue, taken := [], {};
    }
  }
}
