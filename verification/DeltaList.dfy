/** The delta list of radtimers.c as a value: pending timers in firing order, each with the
    ticks that remain once its predecessor has fired. What the list means is a sequence of
    absolute deadlines; every operation refines the obvious one on deadlines. */
module DeltaList {

  datatype Entry<T> = Entry(item: T, delta: nat)

  datatype Due<T> = Due(item: T, at: int)

  datatype Ticked<T> = Ticked(rest: seq<Entry<T>>, fired: seq<T>)

  // ----- the operations on deltas -----

  /** radTimerStart of an idle timer. */
  function Insert<T>(q: seq<Entry<T>>, x: T, time: nat): seq<Entry<T>> {
    if q == [] then [Entry(x, time)]
    else if q[0].delta < time then [q[0]] + Insert(q[1..], x, time - q[0].delta)
    else [Entry(x, time), Entry(q[0].item, q[0].delta - time)] + q[1..]
  }

  /** radTimerStop. */
  function Remove<T(==)>(q: seq<Entry<T>>, x: T): seq<Entry<T>> {
    if q == [] then []
    else if q[0].item != x then [q[0]] + Remove(q[1..], x)
    else if |q| == 1 then []
    else [Entry(q[1].item, q[1].delta + q[0].delta)] + q[2..]
  }

  /** timerProcess after `n` ticks. */
  function Tick<T>(q: seq<Entry<T>>, n: nat): Ticked<T> {
    if q == [] then Ticked([], [])
    else if q[0].delta <= n then
      var t := Tick(q[1..], n - q[0].delta);
      Ticked(t.rest, [q[0].item] + t.fired)
    else Ticked([Entry(q[0].item, q[0].delta - n)] + q[1..], [])
  }

  /** The first timer `n` ticks closer. */
  function Shortened<T>(q: seq<Entry<T>>, n: nat): seq<Entry<T>>
    requires q != [] ==> n <= q[0].delta
  {
    if q == [] then [] else [Entry(q[0].item, q[0].delta - n)] + q[1..]
  }

  /** The delay timerProcess returns: all bits set, -1 as an int, when no timer is left. */
  function Delay<T>(q: seq<Entry<T>>): int {
    if q == [] then -1 else q[0].delta
  }

  // ----- the operations on deadlines -----

  function Deadlines<T>(q: seq<Entry<T>>, base: int): seq<Due<T>> {
    if q == [] then []
    else [Due(q[0].item, base + q[0].delta)] + Deadlines(q[1..], base + q[0].delta)
  }

  /** Before the first deadline that is not earlier. */
  function Schedule<T>(d: seq<Due<T>>, x: T, at: int): seq<Due<T>> {
    if d == [] || at <= d[0].at then [Due(x, at)] + d else [d[0]] + Schedule(d[1..], x, at)
  }

  function Cancel<T(==)>(d: seq<Due<T>>, x: T): seq<Due<T>> {
    if d == [] then []
    else if d[0].item == x then d[1..]
    else [d[0]] + Cancel(d[1..], x)
  }

  function DueBy<T>(d: seq<Due<T>>, now: int): seq<T> {
    if d == [] then []
    else (if d[0].at <= now then [d[0].item] else []) + DueBy(d[1..], now)
  }

  function DueAfter<T>(d: seq<Due<T>>, now: int): seq<Due<T>> {
    if d == [] then []
    else (if d[0].at <= now then [] else [d[0]]) + DueAfter(d[1..], now)
  }

  // ----- what they mean -----

  /** Deadlines are the running sums of the ticks. */
  lemma {:induction false} DeadlinesAre<T>(q: seq<Entry<T>>, base: int)
    ensures var d := Deadlines(q, base);
      && |d| == |q| && (forall i | 0 <= i < |q| :: d[i].item == q[i].item)
      && (q != [] ==> d[0].at == base + q[0].delta)
      && forall i | 0 < i < |q| :: d[i].at == d[i - 1].at + q[i].delta
  {
    if q != [] {
      var d, tail := Deadlines(q, base), Deadlines(q[1..], base + q[0].delta);
      DeadlinesAre(q[1..], base + q[0].delta);
      assert forall i | 0 < i < |d| :: d[i] == tail[i - 1] && q[i] == q[1..][i - 1];
    }
  }

  lemma {:induction false} OrderedTail<T>(d: seq<Due<T>>)
    requires Ordered(d) && d != []
    ensures Ordered(d[1..])
  {
    assert forall i | 0 <= i < |d[1..]| :: d[1..][i] == d[i + 1];
  }

  /** A deadline is entered behind all earlier ones and in front of those that are not. */
  lemma {:induction false} ScheduleIs<T>(d: seq<Due<T>>, x: T, at: int) returns (k: nat)
    requires Ordered(d)
    ensures k <= |d| && Schedule(d, x, at) == d[..k] + [Due(x, at)] + d[k..]
    ensures (forall i | 0 <= i < k :: d[i].at < at) && forall i | k <= i < |d| :: at <= d[i].at
  {
    k := 0;
    if d != [] && d[0].at < at {
      var rest := d[1..];
      assert forall i | 0 < i < |d| :: d[i] == rest[i - 1];
      OrderedTail(d);
      k := ScheduleIs(rest, x, at);
      assert d[..k + 1] == [d[0]] + rest[..k] && d[k + 1..] == rest[k..];
      k := k + 1;
    }
  }

  /** What is cancelled is the first deadline of the timer, and nothing else. */
  lemma {:induction false} CancelIs<T>(d: seq<Due<T>>, x: T) returns (k: nat)
    ensures k <= |d| && (forall i | 0 <= i < k :: d[i].item != x) && (k < |d| ==> d[k].item == x)
    ensures Cancel(d, x) == d[..k] + (if k == |d| then [] else d[k + 1..])
  {
    k := 0;
    if d != [] && d[0].item != x {
      var rest := d[1..];
      var j := CancelIs(rest, x);
      k := j + 1;
      forall i | 0 <= i < k ensures d[i].item != x {
        if 0 < i { assert d[i] == rest[i - 1]; }
      }
      CancelLater(d, rest, j);
    }
  }

  lemma {:induction false} CancelLater<T>(d: seq<Due<T>>, rest: seq<Due<T>>, j: nat)
    requires d != [] && rest == d[1..] && j <= |rest|
    ensures d[..j + 1] == [d[0]] + rest[..j] && (j < |rest| ==> d[j + 2..] == rest[j + 1..])
  {
  }

  /** The timers due by a time are the first ones, up to the first deadline behind it. */
  lemma {:induction false} DueIs<T>(d: seq<Due<T>>, now: int) returns (m: nat)
    requires Ordered(d)
    ensures m <= |d| && (forall i | 0 <= i < m :: d[i].at <= now) && forall i | m <= i < |d| :: now < d[i].at
    ensures |DueBy(d, now)| == m && forall i | 0 <= i < m :: DueBy(d, now)[i] == d[i].item
    ensures DueAfter(d, now) == d[m..]
  {
    m := 0;
    if d != [] {
      var rest := d[1..];
      assert forall i | 0 < i < |d| :: d[i] == rest[i - 1];
      OrderedTail(d);
      m := DueIs(rest, now);
      if d[0].at <= now {
        assert rest[m..] == d[m + 1..];
        m := m + 1;
      } else {
        assert m == 0;
      }
    }
  }

  /** Only timers of the list fire. */
  lemma {:induction false} FiredAreOn<T>(q: seq<Entry<T>>, n: nat)
    ensures forall x | x in Tick(q, n).fired :: On(q, x)
  {
    if q != [] && q[0].delta <= n { FiredAreOn(q[1..], n - q[0].delta); }
  }

  // ----- refinement -----

  lemma {:induction false} DeadlinesCons<T>(e: Entry<T>, q: seq<Entry<T>>, base: int)
    ensures Deadlines([e] + q, base) == [Due(e.item, base + e.delta)] + Deadlines(q, base + e.delta)
  {
    assert ([e] + q)[1..] == q;
  }

  lemma {:induction false} InsertHereRefines<T>(q: seq<Entry<T>>, x: T, time: nat, base: int)
    requires q != [] && time <= q[0].delta
    ensures Deadlines(Insert(q, x, time), base) == [Due(x, base + time)] + Deadlines(q, base)
  {
    var e := Entry(q[0].item, q[0].delta - time);
    DeadlinesCons(Entry(x, time), [e] + q[1..], base);
    DeadlinesCons(e, q[1..], base + time);
    assert [Entry(x, time)] + ([e] + q[1..]) == Insert(q, x, time);
  }

  /** Starting a timer gives it deadline base + time, before equal ones. */
  lemma {:induction false} InsertRefines<T>(q: seq<Entry<T>>, x: T, time: nat, base: int)
    ensures Deadlines(Insert(q, x, time), base) == Schedule(Deadlines(q, base), x, base + time)
  {
    if q == [] {
      DeadlinesCons(Entry(x, time), [], base);
    } else if q[0].delta < time {
      var tail := Insert(q[1..], x, time - q[0].delta);
      InsertRefines(q[1..], x, time - q[0].delta, base + q[0].delta);
      DeadlinesCons(q[0], tail, base);
      assert Deadlines(q, base)[1..] == Deadlines(q[1..], base + q[0].delta);
    } else {
      InsertHereRefines(q, x, time, base);
    }
  }

  /** Stopping a timer takes its deadline out and moves no other. */
  lemma {:induction false} RemoveRefines<T>(q: seq<Entry<T>>, x: T, base: int)
    ensures Deadlines(Remove(q, x), base) == Cancel(Deadlines(q, base), x)
  {
    if q != [] {
      var d := Deadlines(q, base);
      assert d[1..] == Deadlines(q[1..], base + q[0].delta);
      if q[0].item != x {
        RemoveRefines(q[1..], x, base + q[0].delta);
        DeadlinesCons(q[0], Remove(q[1..], x), base);
      } else if |q| > 1 {
        DeadlinesCons(Entry(q[1].item, q[1].delta + q[0].delta), q[2..], base);
        assert q[1..][1..] == q[2..];
      }
    }
  }

  lemma {:induction false} NothingDue<T>(q: seq<Entry<T>>, base: int, now: int)
    requires now < base
    ensures DueBy(Deadlines(q, base), now) == [] && DueAfter(Deadlines(q, base), now) == Deadlines(q, base)
  {
    if q != [] {
      var d := Deadlines(q, base);
      assert d[1..] == Deadlines(q[1..], base + q[0].delta);
      NothingDue(q[1..], base + q[0].delta, now);
    }
  }

  /** A tick of n fires exactly the timers due within n, in list order, and leaves every
      other deadline where it was. */
  lemma {:induction false} TickRefines<T>(q: seq<Entry<T>>, n: nat, base: int)
    ensures Tick(q, n).fired == DueBy(Deadlines(q, base), base + n)
    ensures Deadlines(Tick(q, n).rest, base + n) == DueAfter(Deadlines(q, base), base + n)
  {
    if q != [] {
      var d := Deadlines(q, base);
      assert d[1..] == Deadlines(q[1..], base + q[0].delta);
      if q[0].delta <= n {
        TickRefines(q[1..], n - q[0].delta, base + q[0].delta);
      } else {
        NothingDue(q[1..], base + q[0].delta, base + n);
        DeadlinesCons(Entry(q[0].item, q[0].delta - n), q[1..], base + n);
      }
    }
  }

  /** Ticks compose: a then b is a + b, in what remains and in what fires. */
  lemma {:induction false} TicksCompose<T>(q: seq<Entry<T>>, a: nat, b: nat)
    ensures var first, both := Tick(q, a), Tick(q, a + b);
      var second := Tick(first.rest, b);
      second.rest == both.rest && first.fired + second.fired == both.fired
  {
    if q != [] {
      if q[0].delta <= a {
        TicksCompose(q[1..], a - q[0].delta, b);
        var s, t := Tick(q[1..], a - q[0].delta).fired, Tick(Tick(q, a).rest, b).fired;
        assert [q[0].item] + s + t == [q[0].item] + (s + t);
      } else {
        var e := Entry(q[0].item, q[0].delta - a);
        assert ([e] + q[1..])[1..] == q[1..];
      }
    }
  }

  // ----- every other timer keeps its deadline -----

  ghost predicate Has<T>(d: seq<Due<T>>, x: T) {
    exists i :: 0 <= i < |d| && d[i].item == x
  }

  lemma {:induction false} ScheduleThenCancel<T>(d: seq<Due<T>>, x: T, at: int)
    requires !Has(d, x)
    ensures Cancel(Schedule(d, x, at), x) == d
  {
    var s := Schedule(d, x, at);
    if d == [] || at <= d[0].at {
      assert s[1..] == d;
    } else {
      assert !Has(d[1..], x) by {
        assert forall i | 0 <= i < |d[1..]| :: d[1..][i] == d[i + 1];
      }
      ScheduleThenCancel(d[1..], x, at);
      assert d[0].item != x && s[1..] == Schedule(d[1..], x, at);
    }
  }

  /** Restarting a pending timer: apart from its own, all deadlines and their order are
      those of before. */
  lemma {:induction false} RestartMovesOnlyItself<T>(q: seq<Entry<T>>, x: T, time: nat, base: int)
    requires !Has(Cancel(Deadlines(q, base), x), x)
    ensures Deadlines(Insert(Remove(q, x), x, time), base) == Schedule(Cancel(Deadlines(q, base), x), x, base + time)
    ensures Cancel(Deadlines(Insert(Remove(q, x), x, time), base), x) == Cancel(Deadlines(q, base), x)
  {
    RemoveRefines(q, x, base);
    InsertRefines(Remove(q, x), x, time, base);
    ScheduleThenCancel(Cancel(Deadlines(q, base), x), x, base + time);
  }

  ghost predicate Ordered<T>(d: seq<Due<T>>) {
    forall i, j | 0 <= i < j < |d| :: d[i].at <= d[j].at
  }

  /** A timer fires before those with a later deadline, whatever the history. */
  lemma {:induction false} DeadlinesAreOrdered<T>(q: seq<Entry<T>>, base: int)
    ensures Ordered(Deadlines(q, base)) && forall e | e in Deadlines(q, base) :: base <= e.at
  {
    if q != [] {
      var d, tail := Deadlines(q, base), Deadlines(q[1..], base + q[0].delta);
      DeadlinesAreOrdered(q[1..], base + q[0].delta);
      assert forall i | 0 < i < |d| :: d[i] == tail[i - 1];
    }
  }

  // ----- bounds -----

  /** The last deadline, relative to the last tick. */
  function Total<T>(q: seq<Entry<T>>): nat {
    if q == [] then 0 else q[0].delta + Total(q[1..])
  }

  lemma {:induction false} TotalCons<T>(e: Entry<T>, q: seq<Entry<T>>)
    ensures Total([e] + q) == e.delta + Total(q)
  {
    assert ([e] + q)[1..] == q;
  }

  lemma {:induction false} InsertTotal<T>(q: seq<Entry<T>>, x: T, time: nat)
    ensures Total(Insert(q, x, time)) == if Total(q) < time then time else Total(q)
  {
    if q == [] {
      TotalCons(Entry(x, time), []);
    } else if q[0].delta < time {
      InsertTotal(q[1..], x, time - q[0].delta);
      TotalCons(q[0], Insert(q[1..], x, time - q[0].delta));
    } else {
      var e := Entry(q[0].item, q[0].delta - time);
      TotalCons(e, q[1..]);
      TotalCons(Entry(x, time), [e] + q[1..]);
      assert [Entry(x, time)] + ([e] + q[1..]) == Insert(q, x, time);
    }
  }

  lemma {:induction false} RemoveTotal<T>(q: seq<Entry<T>>, x: T)
    ensures Total(Remove(q, x)) <= Total(q)
  {
    if q != [] {
      if q[0].item != x {
        RemoveTotal(q[1..], x);
        TotalCons(q[0], Remove(q[1..], x));
      } else if |q| > 1 {
        TotalCons(Entry(q[1].item, q[1].delta + q[0].delta), q[2..]);
        assert q[1..][1..] == q[2..];
      }
    }
  }

  lemma {:induction false} TickTotal<T>(q: seq<Entry<T>>, n: nat)
    ensures Total(Tick(q, n).rest) <= Total(q)
    ensures Tick(q, n).rest != [] ==> 0 < Tick(q, n).rest[0].delta
  {
    if q != [] {
      if q[0].delta <= n {
        TickTotal(q[1..], n - q[0].delta);
      } else {
        TotalCons(Entry(q[0].item, q[0].delta - n), q[1..]);
      }
    }
  }

  lemma {:induction false} EntryBelowTotal<T>(q: seq<Entry<T>>, k: nat)
    requires k < |q|
    ensures q[k].delta <= Total(q)
  {
    if 0 < k { EntryBelowTotal(q[1..], k - 1); }
  }

  // ----- the operations by position -----

  lemma {:induction false} RemoveAt<T>(q: seq<Entry<T>>, k: nat)
    requires k < |q| && forall i | 0 <= i < k :: q[i].item != q[k].item
    ensures Remove(q, q[k].item) ==
      q[..k] + (if k + 1 == |q| then [] else [Entry(q[k + 1].item, q[k + 1].delta + q[k].delta)] + q[k + 2..])
  {
    if 0 < k {
      var tail := q[1..];
      RemoveAt(tail, k - 1);
      assert q[..k] == [q[0]] + tail[..k - 1];
      assert k + 1 < |q| ==> tail[k + 1..] == q[k + 2..];
    }
  }

  /** Insertion behind the first k timers. */
  function InsertFrom<T>(q: seq<Entry<T>>, k: nat, x: T, time: nat): seq<Entry<T>>
    requires k <= |q|
  {
    q[..k] + Insert(q[k..], x, time)
  }

  lemma {:induction false} InsertFromStart<T>(q: seq<Entry<T>>, x: T, time: nat)
    ensures InsertFrom(q, 0, x, time) == Insert(q, x, time)
  {
    assert q[0..] == q;
  }

  /** One step of the search of radTimerStart. */
  lemma {:induction false} InsertStep<T>(q: seq<Entry<T>>, x: T, time: nat, k: nat)
    requires k < |q| && q[k].delta < time
    ensures InsertFrom(q, k, x, time) == InsertFrom(q, k + 1, x, time - q[k].delta)
  {
    assert q[k..][1..] == q[k + 1..];
    assert q[..k + 1] == q[..k] + [q[k]];
  }

  /** Where that search ends. */
  lemma {:induction false} InsertHere<T>(q: seq<Entry<T>>, x: T, time: nat, k: nat)
    requires k <= |q| && (k < |q| ==> time <= q[k].delta)
    ensures InsertFrom(q, k, x, time) ==
      q[..k] + [Entry(x, time)] + (if k == |q| then [] else [Entry(q[k].item, q[k].delta - time)] + q[k + 1..])
  {
    if k < |q| {
      assert q[k..][1..] == q[k + 1..];
    }
  }

  /** A timer fires once `n` ticks have passed since the last tick exactly when it was
      started for at most `n`. */
  lemma {:induction false} FiresWhenDue<T>(q: seq<Entry<T>>, x: T, time: nat, n: nat)
    requires forall e | e in q :: e.item != x
    ensures x in Tick(Insert(q, x, time), n).fired <==> time <= n
  {
    var s := Insert(q, x, time);
    NotFired(q, x, n);
    if q == [] {
      assert s[1..] == [];
    } else if q[0].delta < time {
      assert s[0] == q[0] && s[1..] == Insert(q[1..], x, time - q[0].delta);
      if q[0].delta <= n {
        FiresWhenDue(q[1..], x, time - q[0].delta, n - q[0].delta);
        assert q[0] in q;
      }
    }
  }

  lemma {:induction false} NotFired<T>(q: seq<Entry<T>>, x: T, n: nat)
    requires forall e | e in q :: e.item != x
    ensures x !in Tick(q, n).fired
  {
    if q != [] && q[0].delta <= n {
      assert q[0] in q;
      NotFired(q[1..], x, n - q[0].delta);
    }
  }

  lemma {:induction false} RemoveAbsent<T>(q: seq<Entry<T>>, x: T)
    requires forall e | e in q :: e.item != x
    ensures Remove(q, x) == q
  {
    if q != [] {
      assert q[0] in q;
      RemoveAbsent(q[1..], x);
    }
  }

  /** Stopping a timer never brings the first deadline forward. */
  lemma {:induction false} RemoveHeadGrows<T>(q: seq<Entry<T>>, x: T)
    requires Remove(q, x) != []
    ensures q != [] && q[0].delta <= Remove(q, x)[0].delta
  {
  }

  /** Starting a timer puts either it or the old first timer first. */
  lemma {:induction false} InsertHead<T>(q: seq<Entry<T>>, x: T, time: nat)
    ensures var s := Insert(q, x, time);
      s != [] && (if q != [] && q[0].delta < time then s[0] == q[0] else s[0] == Entry(x, time))
  {
  }

  lemma {:induction false} DeadlineItems<T>(q: seq<Entry<T>>, base: int, x: T)
    ensures Has(Deadlines(q, base), x) <==> exists i :: 0 <= i < |q| && q[i].item == x
  {
    if q != [] {
      var d, tail := Deadlines(q, base), Deadlines(q[1..], base + q[0].delta);
      DeadlineItems(q[1..], base + q[0].delta, x);
      assert d[0].item == q[0].item;
      assert forall i | 0 < i < |d| :: d[i] == tail[i - 1];
      assert forall i | 0 <= i < |tail| :: tail[i] == d[i + 1];
      assert forall i | 0 < i < |q| :: q[i] == q[1..][i - 1];
      assert forall i | 0 <= i < |q[1..]| :: q[1..][i] == q[i + 1];
    }
  }

  // ----- each timer is on the list once -----

  ghost predicate On<T>(q: seq<Entry<T>>, x: T) {
    q != [] && (q[0].item == x || On(q[1..], x))
  }

  ghost predicate Once<T>(q: seq<Entry<T>>) {
    q != [] ==> !On(q[1..], q[0].item) && Once(q[1..])
  }

  lemma {:induction false} OnCons<T>(e: Entry<T>, q: seq<Entry<T>>)
    ensures forall y :: On([e] + q, y) <==> y == e.item || On(q, y)
    ensures Once([e] + q) <==> !On(q, e.item) && Once(q)
  {
    assert ([e] + q)[1..] == q;
  }

  lemma {:induction false} InsertOnce<T>(q: seq<Entry<T>>, x: T, time: nat)
    ensures forall y :: On(Insert(q, x, time), y) <==> y == x || On(q, y)
    ensures Once(q) && !On(q, x) ==> Once(Insert(q, x, time))
  {
    if q == [] {
      OnCons(Entry(x, time), q);
    } else if q[0].delta < time {
      InsertOnce(q[1..], x, time - q[0].delta);
      OnCons(q[0], Insert(q[1..], x, time - q[0].delta));
    } else {
      var e := Entry(q[0].item, q[0].delta - time);
      OnCons(e, q[1..]);
      OnCons(Entry(x, time), [e] + q[1..]);
      assert [Entry(x, time)] + ([e] + q[1..]) == Insert(q, x, time);
    }
  }

  lemma {:induction false} RemoveOnce<T>(q: seq<Entry<T>>, x: T)
    requires Once(q)
    ensures Once(Remove(q, x)) && forall y :: On(Remove(q, x), y) <==> On(q, y) && y != x
  {
    if q != [] {
      if q[0].item != x {
        RemoveOnce(q[1..], x);
        OnCons(q[0], Remove(q[1..], x));
      } else if |q| > 1 {
        assert q[1..][1..] == q[2..];
        OnCons(Entry(q[1].item, q[1].delta + q[0].delta), q[2..]);
      }
    }
  }

  lemma {:induction false} TickOnce<T>(q: seq<Entry<T>>, n: nat)
    requires Once(q)
    ensures Once(Tick(q, n).rest)
  {
    if q != [] {
      if q[0].delta <= n {
        TickOnce(q[1..], n - q[0].delta);
      } else {
        OnCons(Entry(q[0].item, q[0].delta - n), q[1..]);
      }
    }
  }

  /** A timer that is on the list has a deadline. */
  lemma {:induction false} OnHas<T>(q: seq<Entry<T>>, x: T, base: int)
    ensures On(q, x) <==> Has(Deadlines(q, base), x)
  {
    if q != [] {
      var d, tail := Deadlines(q, base), Deadlines(q[1..], base + q[0].delta);
      OnHas(q[1..], x, base + q[0].delta);
      HasCons(d[0], tail, x);
      assert d == [d[0]] + tail;
    }
  }

  lemma {:induction false} HasCons<T>(e: Due<T>, d: seq<Due<T>>, x: T)
    ensures Has([e] + d, x) <==> e.item == x || Has(d, x)
  {
    var s := [e] + d;
    assert s[0] == e;
    assert forall i | 0 < i < |s| :: s[i] == d[i - 1];
    assert forall i | 0 <= i < |d| :: d[i] == s[i + 1];
  }

  // ----- deadlines as time goes by -----

  lemma {:induction false} NoneDue<T>(d: seq<Due<T>>, now: int)
    requires forall e | e in d :: now < e.at
    ensures DueAfter(d, now) == d
  {
    if d != [] {
      assert d[0] in d;
      NoneDue(d[1..], now);
    }
  }

  lemma {:induction false} DueAfterTwice<T>(d: seq<Due<T>>, a: int, b: int)
    requires a <= b
    ensures DueAfter(DueAfter(d, a), b) == DueAfter(d, b)
  {
    if d != [] {
      DueAfterTwice(d[1..], a, b);
      var s := DueAfter(d, a);
      if a < d[0].at {
        assert s[1..] == DueAfter(d[1..], a);
      } else {
        assert s == DueAfter(d[1..], a);
      }
    }
  }

  lemma {:induction false} NotDueAfter<T>(d: seq<Due<T>>, x: T, now: int)
    requires !Has(d, x)
    ensures !Has(DueAfter(d, now), x)
  {
    if d != [] {
      assert d == [d[0]] + d[1..];
      HasCons(d[0], d[1..], x);
      NotDueAfter(d[1..], x, now);
      HasCons(d[0], DueAfter(d[1..], now), x);
    }
  }

  /** A scheduled timer keeps its deadline until the deadline has come. */
  lemma {:induction false} ScheduledUntilDue<T>(d: seq<Due<T>>, x: T, at: int, now: int)
    requires !Has(d, x)
    ensures Has(DueAfter(Schedule(d, x, at), now), x) <==> now < at
  {
    var s := Schedule(d, x, at);
    if d == [] || at <= d[0].at {
      assert s[1..] == d;
      NotDueAfter(d, x, now);
      HasCons(s[0], DueAfter(d, now), x);
    } else {
      assert d == [d[0]] + d[1..] && s[1..] == Schedule(d[1..], x, at);
      HasCons(d[0], d[1..], x);
      ScheduledUntilDue(d[1..], x, at, now);
      HasCons(d[0], DueAfter(s[1..], now), x);
      var tail := DueAfter(s[1..], now);
      assert DueAfter(s, now) == if d[0].at <= now then tail else [d[0]] + tail;
    }
  }
}
