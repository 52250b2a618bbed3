/** The nodes of radtimers.c as the one block they are allocated in: cell 0 is the head
    sentinel, cell 1 the tail, the timers follow. Links are cell numbers. */
module TimerCells {
  import opened DeltaList
  import opened Sequences

  const HEAD: int := 0
  const TAIL: int := 1
  const FIRST: int := 2
  const NULL: int := -1
  const TAIL_DELTA: nat := 0xffff_ffff

  datatype Cell = Cell(next: int, prev: int, deltaTime: nat, pending: bool, routine: nat, parm: int)

  // ----- writing one field of one cell -----

  /** What is written to the notify descriptor; routine 0 is NULL. */
  datatype Callback = Callback(routine: nat, parm: int)

  /** The callbacks of all cells. */
  ghost function Callbacks(m: seq<Cell>): (cb: seq<Callback>)
    ensures |cb| == |m|
  {
    seq(|m|, i requires 0 <= i < |m| => Callback(m[i].routine, m[i].parm))
  }

  ghost predicate SameLinks(m: seq<Cell>, m': seq<Cell>) {
    |m'| == |m| && forall t | 0 <= t < |m| :: m'[t].next == m[t].next && m'[t].prev == m[t].prev
  }

  ghost predicate SameTicks(m: seq<Cell>, m': seq<Cell>) {
    |m'| == |m| && forall t | 0 <= t < |m| :: m'[t].deltaTime == m[t].deltaTime
  }

  ghost predicate SamePending(m: seq<Cell>, m': seq<Cell>) {
    |m'| == |m| && forall t | 0 <= t < |m| :: m'[t].pending == m[t].pending
  }

  function SetNext(m: seq<Cell>, i: int, v: int): (m': seq<Cell>)
    requires 0 <= i < |m|
    ensures Callbacks(m') == Callbacks(m) && SameTicks(m, m') && SamePending(m, m')
    ensures |m'| == |m| && forall t | 0 <= t < |m| ::
      && m'[t].next == (if t == i then v else m[t].next)
      && m'[t].prev == m[t].prev
  {
    var m' := m[i := m[i].(next := v)];
    assert Callbacks(m') == Callbacks(m);
    m'
  }

  function SetPrev(m: seq<Cell>, i: int, v: int): (m': seq<Cell>)
    requires 0 <= i < |m|
    ensures Callbacks(m') == Callbacks(m) && SameTicks(m, m') && SamePending(m, m')
    ensures |m'| == |m| && forall t | 0 <= t < |m| ::
      && m'[t].prev == (if t == i then v else m[t].prev)
      && m'[t].next == m[t].next
  {
    var m' := m[i := m[i].(prev := v)];
    assert Callbacks(m') == Callbacks(m);
    m'
  }

  function SetTicks(m: seq<Cell>, i: int, v: nat): (m': seq<Cell>)
    requires 0 <= i < |m|
    ensures Callbacks(m') == Callbacks(m) && SameLinks(m, m') && SamePending(m, m')
    ensures |m'| == |m| && forall t | 0 <= t < |m| :: m'[t].deltaTime == if t == i then v else m[t].deltaTime
  {
    var m' := m[i := m[i].(deltaTime := v)];
    assert Callbacks(m') == Callbacks(m);
    m'
  }

  function SetPending(m: seq<Cell>, i: int, v: bool): (m': seq<Cell>)
    requires 0 <= i < |m|
    ensures Callbacks(m') == Callbacks(m) && SameLinks(m, m') && SameTicks(m, m')
    ensures |m'| == |m| && forall t | 0 <= t < |m| :: m'[t].pending == if t == i then v else m[t].pending
  {
    var m' := m[i := m[i].(pending := v)];
    assert Callbacks(m') == Callbacks(m);
    m'
  }

  function SetCallback(m: seq<Cell>, i: int, routine: nat, parm: int): (m': seq<Cell>)
    requires 0 <= i < |m|
    ensures SameLinks(m, m') && SameTicks(m, m') && SamePending(m, m')
    ensures Callbacks(m') == Callbacks(m)[i := Callback(routine, parm)]
  {
    var m' := m[i := m[i].(routine := routine, parm := parm)];
    assert Callbacks(m') == Callbacks(m)[i := Callback(routine, parm)];
    m'
  }

  /** The nodes between which `i` timers have been passed. */
  function After(q: seq<int>, i: nat): int {
    if i < |q| then q[i] else TAIL
  }

  function Before(q: seq<int>, i: nat): int
    requires i <= |q|
  {
    if i == 0 then HEAD else q[i - 1]
  }

  function FreeAt(free: seq<int>, i: nat): int {
    if i < |free| then free[i] else NULL
  }

  ghost predicate InBlock(n: nat, q: seq<int>) {
    FIRST <= n && forall i | 0 <= i < |q| :: FIRST <= q[i] < n
  }

  /** Both lists hold distinct timers of the block and share none. */
  ghost predicate Apart(n: nat, queue: seq<int>, free: seq<int>) {
    && InBlock(n, queue) && InBlock(n, free)
    && Distinct(queue) && Distinct(free)
    && (forall i, j | 0 <= i < |queue| && 0 <= j < |free| :: queue[i] != free[j])
  }

  /** Head, the queue and tail are linked both ways, in this order. */
  ghost predicate Linked(m: seq<Cell>, q: seq<int>)
    requires InBlock(|m|, q)
  {
    forall i | 0 <= i <= |q| :: m[Before(q, i)].next == After(q, i) && m[After(q, i)].prev == Before(q, i)
  }

  /** Free timers are linked through next alone. */
  ghost predicate Chained(m: seq<Cell>, first: int, free: seq<int>)
    requires InBlock(|m|, free)
  {
    first == FreeAt(free, 0) && forall i | 0 <= i < |free| :: m[free[i]].next == FreeAt(free, i + 1)
  }

  /** An allocated timer is pending exactly when it is on the delta list. */
  ghost predicate Flags(m: seq<Cell>, queue: seq<int>, free: seq<int>) {
    forall t | FIRST <= t < |m| && t !in free :: m[t].pending <==> t in queue
  }

  /** The delta list the queue stands for. */
  function Entries(m: seq<Cell>, q: seq<int>): (es: seq<Entry<int>>)
    requires InBlock(|m|, q)
    ensures |es| == |q| && forall i | 0 <= i < |q| :: es[i] == Entry(q[i], m[q[i]].deltaTime)
  {
    seq(|q|, i requires 0 <= i < |q| => Entry(q[i], m[q[i]].deltaTime))
  }

  ghost predicate Lists(m: seq<Cell>, queue: seq<int>, free: seq<int>, first: int) {
    && Apart(|m|, queue, free)
    && Linked(m, queue) && Chained(m, first, free) && Flags(m, queue, free)
    && m[HEAD].deltaTime == 0 && m[TAIL].deltaTime == TAIL_DELTA
  }

  // ----- stopping -----

  lemma {:induction false} WithoutMembers(q: seq<int>, k: nat)
    requires Distinct(q) && k < |q|
    ensures Distinct(Without(q, k))
    ensures forall t :: t in Without(q, k) <==> t in q && t != q[k]
  {
    var rest := Without(q, k);
    assert forall i | 0 <= i < |rest| :: rest[i] == if i < k then q[i] else q[i + 1];
    forall t | t in q && t != q[k] ensures t in rest {
      var i :| 0 <= i < |q| && q[i] == t;
      assert rest[if i < k then i else i - 1] == t;
    }
  }

  lemma {:induction false} WithoutApart(n: nat, queue: seq<int>, free: seq<int>, k: nat)
    requires Apart(n, queue, free) && k < |queue|
    ensures Apart(n, Without(queue, k), free)
  {
    hide Distinct;
    WithoutMembers(queue, k);
    var rest := Without(queue, k);
    assert forall i | 0 <= i < |rest| :: rest[i] == if i < k then queue[i] else queue[i + 1];
  }

  /** Only the two neighbours' links of timer k have changed, to each other. */
  ghost predicate Bridged(m: seq<Cell>, m': seq<Cell>, q: seq<int>, k: nat)
    requires InBlock(|m|, q) && k < |q|
  {
    var prev, next := Before(q, k), After(q, k + 1);
    && |m'| == |m|
    && (forall t | 0 <= t < |m| && t != prev :: m'[t].next == m[t].next)
    && (forall t | 0 <= t < |m| && t != next :: m'[t].prev == m[t].prev)
    && m'[prev].next == next && m'[next].prev == prev
  }

  lemma {:induction false} BridgedIsLinked(m: seq<Cell>, m': seq<Cell>, q: seq<int>, k: nat)
    requires InBlock(|m|, q) && Distinct(q) && Linked(m, q) && k < |q| && Bridged(m, m', q, k)
    ensures InBlock(|m'|, Without(q, k)) && Linked(m', Without(q, k))
  {
    var rest := Without(q, k);
    WithoutMembers(q, k);
    forall i | 0 <= i <= |rest|
      ensures m'[Before(rest, i)].next == After(rest, i) && m'[After(rest, i)].prev == Before(rest, i)
    {
      if i < k {
        assert Before(rest, i) == Before(q, i) && After(rest, i) == After(q, i);
      } else if k < i {
        assert Before(rest, i) == Before(q, i + 1) && After(rest, i) == After(q, i + 1);
      }
    }
  }

  lemma {:induction false} HeadOf(m: seq<Cell>, queue: seq<int>)
    requires InBlock(|m|, queue) && Linked(m, queue)
    ensures m[HEAD].next == After(queue, 0)
    ensures After(queue, 0) == TAIL <==> queue == []
  {
    assert Before(queue, 0) == HEAD;
  }

  /** The neighbours of timer k. */
  lemma {:induction false} Neighbours(m: seq<Cell>, q: seq<int>, k: nat)
    requires InBlock(|m|, q) && Linked(m, q) && k < |q|
    ensures m[q[k]].next == After(q, k + 1) && m[q[k]].prev == Before(q, k)
  {
    assert Before(q, k + 1) == q[k] && After(q, k) == q[k];
  }

  lemma {:induction false} BridgedKeepsChain(m: seq<Cell>, m': seq<Cell>, queue: seq<int>, free: seq<int>, first: int,
                                             k: nat)
    requires Apart(|m|, queue, free) && Chained(m, first, free) && k < |queue| && Bridged(m, m', queue, k)
    ensures Chained(m', first, free)
  {
  }

  /** What the writes of radTimerStop change, for the timer at position k. */
  ghost predicate Stopped(m: seq<Cell>, m': seq<Cell>, q: seq<int>, k: nat)
    requires InBlock(|m|, q) && k < |q|
  {
    && Bridged(m, m', q, k) && Callbacks(m') == Callbacks(m)
    && (forall t | 0 <= t < |m| :: m'[t].pending == if t == q[k] then false else m[t].pending)
    && (forall t | 0 <= t < |m| ::
          m'[t].deltaTime == if t == After(q, k + 1) && t != TAIL then m[t].deltaTime + m[q[k]].deltaTime
            else m[t].deltaTime)
  }

  /** The writes of radTimerStop, one after the other. */
  lemma {:induction false} StopWrites(m: seq<Cell>, m1: seq<Cell>, m2: seq<Cell>, m3: seq<Cell>, m4: seq<Cell>,
                                      q: seq<int>, k: nat, next: int, prev: int)
    requires InBlock(|m|, q) && Distinct(q) && k < |q| && next == After(q, k + 1) && prev == Before(q, k)
    requires m1 == SetPending(m, q[k], false)
    requires m2 == if next != TAIL then SetTicks(m1, next, m1[next].deltaTime + m1[q[k]].deltaTime) else m1
    requires m3 == SetPrev(m2, next, prev) && m4 == SetNext(m3, prev, next)
    ensures Stopped(m, m4, q, k)
  {
    hide SetPending, SetTicks, SetPrev, SetNext;
  }

  /** What radTimerStop leaves: the lists without timer k, its ticks added to the next. */
  lemma {:induction false} StopLists(m: seq<Cell>, m': seq<Cell>, queue: seq<int>, free: seq<int>, first: int, k: nat)
    requires Lists(m, queue, free, first) && k < |queue| && Stopped(m, m', queue, k)
    ensures Lists(m', Without(queue, k), free, first)
    ensures Entries(m', Without(queue, k)) == Remove(Entries(m, queue), queue[k])
    ensures |m'| == |m| && queue[k] !in Without(queue, k)
    ensures Callbacks(m') == Callbacks(m) && !m'[queue[k]].pending
  {
    hide Distinct, Linked, Chained, Bridged, Callbacks;
    WithoutMembers(queue, k);
    WithoutApart(|m|, queue, free, k);
    BridgedIsLinked(m, m', queue, k);
    BridgedKeepsChain(m, m', queue, free, first, k);
    StopEntries(m, m', queue, k);
  }

  lemma {:induction false} StopEntries(m: seq<Cell>, m': seq<Cell>, q: seq<int>, k: nat)
    requires InBlock(|m|, q) && Distinct(q) && k < |q| && |m'| == |m| && InBlock(|m'|, Without(q, k))
    requires forall t | 0 <= t < |m| ::
      m'[t].deltaTime == if t == After(q, k + 1) && t != TAIL then m[t].deltaTime + m[q[k]].deltaTime
        else m[t].deltaTime
    ensures Entries(m', Without(q, k)) == Remove(Entries(m, q), q[k])
  {
    var es, rest := Entries(m, q), Without(q, k);
    RemoveAt(es, k);
    var target := es[..k] +
      (if k + 1 == |es| then [] else [Entry(es[k + 1].item, es[k + 1].delta + es[k].delta)] + es[k + 2..]);
    forall i | 0 <= i < |rest| ensures Entries(m', rest)[i] == target[i] {
      assert rest[i] == if i < k then q[i] else q[i + 1];
    }
  }

  /** All writes of radTimerStop behind its test of `pending`. */
  function StopCells(m: seq<Cell>, t: int): seq<Cell>
    requires 0 <= t < |m| && 0 <= m[t].next < |m| && 0 <= m[t].prev < |m|
  {
    var m1 := SetPending(m, t, false);
    var m2 := if m1[t].next != TAIL then SetTicks(m1, m1[t].next, m1[m1[t].next].deltaTime + m1[t].deltaTime) else m1;
    SetNext(SetPrev(m2, m[t].next, m[t].prev), m[t].prev, m[t].next)
  }

  // ----- starting -----

  lemma {:induction false} WithMembers(q: seq<int>, k: nat, t: int)
    requires Distinct(q) && k <= |q| && t !in q
    ensures Distinct(With(q, k, t))
    ensures forall x :: x in With(q, k, t) <==> x == t || x in q
  {
    var s := With(q, k, t);
    assert forall i | 0 <= i < |s| :: s[i] == if i < k then q[i] else if i == k then t else q[i - 1];
    forall x | x in q ensures x in s {
      var i :| 0 <= i < |q| && q[i] == x;
      assert s[if i < k then i else i + 1] == x;
    }
    assert s[k] == t;
  }

  /** Timer t is linked in between the nodes of position k. */
  ghost predicate Spliced(m: seq<Cell>, m': seq<Cell>, q: seq<int>, k: nat, t: int)
    requires InBlock(|m|, q) && k <= |q| && FIRST <= t < |m|
  {
    var prev, next := Before(q, k), After(q, k);
    && |m'| == |m|
    && (forall x | 0 <= x < |m| && x != prev && x != t :: m'[x].next == m[x].next)
    && (forall x | 0 <= x < |m| && x != next && x != t :: m'[x].prev == m[x].prev)
    && m'[prev].next == t && m'[t].next == next && m'[next].prev == t && m'[t].prev == prev
  }

  lemma {:induction false} SplicedIsLinked(m: seq<Cell>, m': seq<Cell>, q: seq<int>, k: nat, t: int)
    requires InBlock(|m|, q) && Distinct(q) && Linked(m, q) && k <= |q| && FIRST <= t < |m| && t !in q
    requires Spliced(m, m', q, k, t)
    ensures InBlock(|m'|, With(q, k, t)) && Linked(m', With(q, k, t))
  {
    var s := With(q, k, t);
    WithMembers(q, k, t);
    forall i | 0 <= i <= |s|
      ensures m'[Before(s, i)].next == After(s, i) && m'[After(s, i)].prev == Before(s, i)
    {
      if i < k {
        assert Before(s, i) == Before(q, i) && After(s, i) == After(q, i);
      } else if i == k {
        assert Before(s, i) == Before(q, k) && After(s, i) == t;
      } else if i == k + 1 {
        assert Before(s, i) == t && After(s, i) == After(q, k);
      } else {
        assert Before(s, i) == Before(q, i - 1) && After(s, i) == After(q, i - 1);
      }
    }
  }

  lemma {:induction false} SplicedKeepsChain(m: seq<Cell>, m': seq<Cell>, queue: seq<int>, free: seq<int>, first: int,
                                             k: nat, t: int)
    requires Apart(|m|, queue, free) && Chained(m, first, free) && k <= |queue| && FIRST <= t < |m| && t !in free
    requires Spliced(m, m', queue, k, t)
    ensures Chained(m', first, free)
  {
  }

  /** What the writes of radTimerStart change, for timer t at position k. */
  ghost predicate Started(m: seq<Cell>, m': seq<Cell>, q: seq<int>, k: nat, t: int, time: nat)
    requires InBlock(|m|, q) && k <= |q| && FIRST <= t < |m|
    requires k < |q| ==> time <= m[q[k]].deltaTime
  {
    && Spliced(m, m', q, k, t) && Callbacks(m') == Callbacks(m)
    && (forall x | 0 <= x < |m| :: m'[x].pending == if x == t then true else m[x].pending)
    && (forall x | 0 <= x < |m| ::
          m'[x].deltaTime == if x == t then time else if x == After(q, k) && x != TAIL then m[x].deltaTime - time
            else m[x].deltaTime)
  }

  /** The writes of radTimerStart, one after the other. */
  lemma {:induction false} StartWrites(m: seq<Cell>, m1: seq<Cell>, m2: seq<Cell>, m3: seq<Cell>, m4: seq<Cell>,
                                       m5: seq<Cell>, m6: seq<Cell>, m7: seq<Cell>, q: seq<int>, k: nat, t: int,
                                       time: nat, prev: int, next: int)
    requires InBlock(|m|, q) && k <= |q| && FIRST <= t < |m| && t !in q && prev == Before(q, k) && next == After(q, k)
    requires k < |q| ==> time <= m[q[k]].deltaTime
    requires m1 == SetPending(m, t, true) && m2 == SetPrev(m1, t, prev) && m3 == SetNext(m2, t, next)
    requires m4 == SetTicks(m3, t, time) && m5 == SetNext(m4, prev, t) && m6 == SetPrev(m5, next, t)
    requires next != TAIL ==> time <= m6[next].deltaTime
    requires m7 == if next != TAIL then SetTicks(m6, next, m6[next].deltaTime - time) else m6
    ensures Started(m, m7, q, k, t, time)
  {
    hide SetPending, SetTicks, SetPrev, SetNext;
  }

  /** What radTimerStart leaves: timer t at position k with `time` ticks, taken from the next. */
  lemma {:induction false} StartLists(m: seq<Cell>, m': seq<Cell>, queue: seq<int>, free: seq<int>, first: int, k: nat,
                                      t: int, time: nat)
    requires Lists(m, queue, free, first) && k <= |queue| && FIRST <= t < |m| && t !in queue && t !in free
    requires (k < |queue| ==> time <= m[queue[k]].deltaTime) && Started(m, m', queue, k, t, time)
    ensures Lists(m', With(queue, k, t), free, first) && Callbacks(m') == Callbacks(m) && m'[t].pending
    ensures Entries(m', With(queue, k, t)) == InsertFrom(Entries(m, queue), k, t, time)
  {
    WithMembers(queue, k, t);
    SplicedIsLinked(m, m', queue, k, t);
    SplicedKeepsChain(m, m', queue, free, first, k, t);
    StartEntries(m, m', queue, k, t, time);
  }

  lemma {:induction false} StartEntries(m: seq<Cell>, m': seq<Cell>, q: seq<int>, k: nat, t: int, time: nat)
    requires InBlock(|m|, q) && Distinct(q) && k <= |q| && FIRST <= t < |m| && t !in q && |m'| == |m|
      && InBlock(|m'|, With(q, k, t))
    requires k < |q| ==> time <= m[q[k]].deltaTime
    requires forall x | 0 <= x < |m| ::
      m'[x].deltaTime == if x == t then time else if x == After(q, k) && x != TAIL then m[x].deltaTime - time
        else m[x].deltaTime
    ensures Entries(m', With(q, k, t)) == InsertFrom(Entries(m, q), k, t, time)
  {
    var es, s := Entries(m, q), With(q, k, t);
    InsertHere(es, t, time, k);
    var target := es[..k] + [Entry(t, time)] +
      (if k == |es| then [] else [Entry(es[k].item, es[k].delta - time)] + es[k + 1..]);
    forall i | 0 <= i < |s| ensures Entries(m', s)[i] == target[i] {
      assert s[i] == if i < k then q[i] else if i == k then t else q[i - 1];
    }
  }

  // ----- ticking -----

  /** What the writes for one fired timer change. */
  ghost predicate Fired(m: seq<Cell>, m': seq<Cell>, q: seq<int>)
    requires InBlock(|m|, q) && q != []
  {
    && Bridged(m, m', q, 0) && Callbacks(m') == Callbacks(m)
    && (forall t | 0 <= t < |m| :: m'[t].pending == if t == q[0] then false else m[t].pending)
    && SameTicks(m, m')
  }

  lemma {:induction false} FireWrites(m: seq<Cell>, m1: seq<Cell>, m2: seq<Cell>, m3: seq<Cell>, q: seq<int>)
    requires InBlock(|m|, q) && Distinct(q) && Linked(m, q) && q != []
    requires m1 == SetPending(m, q[0], false) && m2 == SetNext(m1, HEAD, m1[q[0]].next) && 0 <= m2[q[0]].next < |m|
    requires m3 == SetPrev(m2, m2[q[0]].next, HEAD)
    ensures Fired(m, m3, q)
  {
    Neighbours(m, q, 0);
    hide SetPending, SetPrev, SetNext;
  }

  /** What one firing leaves: the lists without the first timer, all ticks as they were. */
  lemma {:induction false} FireLists(m: seq<Cell>, m': seq<Cell>, queue: seq<int>, free: seq<int>, first: int)
    requires Lists(m, queue, free, first) && queue != [] && Fired(m, m', queue)
    ensures Lists(m', queue[1..], free, first) && Callbacks(m') == Callbacks(m)
    ensures Entries(m', queue[1..]) == Entries(m, queue)[1..]
  {
    hide Distinct, Linked, Chained, Bridged, Callbacks;
    assert Without(queue, 0) == queue[1..];
    WithoutMembers(queue, 0);
    WithoutApart(|m|, queue, free, 0);
    BridgedIsLinked(m, m', queue, 0);
    BridgedKeepsChain(m, m', queue, free, first, 0);
  }

  /** What the handler leaves of the first `f` timers when it has fired them: no longer pending,
      their ticks and next links as they were, linked back to the head. */
  ghost predicate FiredCells(m0: seq<Cell>, m: seq<Cell>, q: seq<int>, f: nat) {
    && InBlock(|m0|, q) && Distinct(q) && f <= |q| && |m| == |m0|
    && forall j | 0 <= j < f ::
         && m[q[j]].next == After(q, j + 1) && m[q[j]].prev == HEAD
         && !m[q[j]].pending && m[q[j]].deltaTime == m0[q[j]].deltaTime
  }

  /** The loop of timerProcess halfway, as far as the cells are concerned. */
  ghost predicate FiredTo(m0: seq<Cell>, m: seq<Cell>, q: seq<int>, f: nat) {
    FiredCells(m0, m, q, f) && SameTicks(m0, m)
  }

  lemma {:induction false} NoneFired(m: seq<Cell>, q: seq<int>, free: seq<int>, first: int)
    requires Lists(m, q, free, first)
    ensures FiredTo(m, m, q, 0) && q[0..] == q
  {
  }

  lemma {:induction false} FiredOneMore(m0: seq<Cell>, m: seq<Cell>, m': seq<Cell>, q: seq<int>, f: nat, free: seq<int>,
                                        first: int)
    requires FiredTo(m0, m, q, f) && f < |q| && Lists(m, q[f..], free, first) && Fired(m, m', q[f..])
    ensures FiredTo(m0, m', q, f + 1) && q[f..][1..] == q[f + 1..]
  {
    hide Distinct, Linked, Chained, Flags;
    var rest := q[f..];
    Neighbours(m, rest, 0);
    assert After(rest, 1) == After(q, f + 1) && rest[0] == q[f];
  }

  /** The cells when timerProcess ends: what is left over shortens the first timer left. */
  lemma {:induction false} FiredStay(m0: seq<Cell>, m: seq<Cell>, m': seq<Cell>, q: seq<int>, f: nat, n: nat)
    requires FiredTo(m0, m, q, f) && Shrunk(m, m', q[f..], n)
    ensures FiredCells(m0, m', q, f)
  {
    hide SetTicks;
    RestOf(q, f);
  }

  ghost predicate Shrunk(m: seq<Cell>, m': seq<Cell>, q: seq<int>, n: nat) {
    if q == [] then m' == m
    else 0 <= q[0] < |m| && n <= m[q[0]].deltaTime && m' == SetTicks(m, q[0], m[q[0]].deltaTime - n)
  }

  /** radTimerStop tests `pending` before it blocks SIGALRM. If the handler, of any number of
      ticks, fires the timer in between, the stop still writes through the old links. The list
      stays well-linked exactly when the timer was the last one fired, and the other timers
      keep their ticks exactly when, besides, it had no successor or no ticks of its own. In
      all other cases a timer that has fired is back at the head of the list. */
  lemma {:induction false} LateStop(m0: seq<Cell>, m: seq<Cell>, q: seq<int>, f: nat, i: nat, free: seq<int>,
                                    first: int)
    requires FiredCells(m0, m, q, f) && i < f && Lists(m, q[f..], free, first)
    ensures var t, rest := q[i], q[f..];
      && 0 <= m[t].next < |m| && 0 <= m[t].prev < |m|
      && var m' := StopCells(m, t);
      && InBlock(|m'|, rest)
      && (Lists(m', rest, free, first) <==> i + 1 == f)
      && (Lists(m', rest, free, first) && Entries(m', rest) == Entries(m, rest)
          <==> i + 1 == f && (f == |q| || m0[t].deltaTime == 0))
      && (i + 1 < f ==> m'[HEAD].next == q[i + 1] && !m'[q[i + 1]].pending
                        && m'[q[i + 1]].deltaTime == m0[q[i + 1]].deltaTime + m0[t].deltaTime)
  {
    var t, rest := q[i], q[f..];
    var m' := StopCells(m, t);
    HeadOf(m, rest);
    RestOf(q, f);
    if i + 1 == f {
      LateStopLast(m, m', rest, free, first, t);
    } else {
      assert m'[HEAD].next == q[i + 1] != After(rest, 0);
      assert Before(rest, 0) == HEAD;
    }
  }

  lemma {:induction false} RestOf(q: seq<int>, f: nat)
    requires Distinct(q) && f <= |q|
    ensures After(q, f) == After(q[f..], 0) && forall i | 0 <= i < f :: q[i] !in q[f..]
  {
  }

  /** The late stop of the last timer fired. */
  lemma {:induction false} LateStopLast(m: seq<Cell>, m': seq<Cell>, rest: seq<int>, free: seq<int>, first: int, t: int)
    requires Lists(m, rest, free, first) && FIRST <= t < |m| && t !in rest
    requires m[t].next == After(rest, 0) && m[t].prev == HEAD && !m[t].pending && m' == StopCells(m, t)
    ensures Lists(m', rest, free, first)
    ensures Entries(m', rest) == Entries(m, rest) <==> rest == [] || m[t].deltaTime == 0
  {
    hide Distinct;
    HeadOf(m, rest);
    assert Before(rest, 0) == HEAD;
    assert SameLinks(m, m') && SamePending(m, m');
    if rest != [] {
      HeadAlone(rest);
      assert Entries(m', rest)[0].delta == m[rest[0]].deltaTime + m[t].deltaTime;
      forall i | 0 < i < |rest| ensures Entries(m', rest)[i] == Entries(m, rest)[i] {
        assert rest[i] == rest[1..][i - 1];
      }
    }
  }

  /** Timers 2, 3 and 4, of 10, 0 and 0 ticks. */
  function ThreePending(): seq<Cell> {
    [Cell(2, NULL, 0, false, 0, 0), Cell(NULL, 4, TAIL_DELTA, false, 0, 0),
     Cell(3, HEAD, 10, true, 0, 0), Cell(4, 2, 0, true, 0, 0), Cell(TAIL, 3, 0, true, 0, 0)]
  }

  /** The handler has fired all three. */
  function ThreeFired(): seq<Cell> {
    [Cell(TAIL, NULL, 0, false, 0, 0), Cell(NULL, HEAD, TAIL_DELTA, false, 0, 0),
     Cell(3, HEAD, 10, false, 0, 0), Cell(4, HEAD, 0, false, 0, 0), Cell(TAIL, HEAD, 0, false, 0, 0)]
  }

  /** A late stop of timer 3 puts timer 4 back on the list, and one of timer 2 puts timer 3
      back, with 10 ticks. */
  lemma {:induction false} LateStopRevives()
    ensures Lists(ThreePending(), [2, 3, 4], [], NULL) && Lists(ThreeFired(), [], [], NULL)
    ensures FiredCells(ThreePending(), ThreeFired(), [2, 3, 4], 3)
    ensures StopCells(ThreeFired(), 3)[HEAD].next == 4
    ensures StopCells(ThreeFired(), 2)[HEAD].next == 3 && StopCells(ThreeFired(), 2)[3].deltaTime == 10
  {
    var m, q := ThreePending(), [2, 3, 4];
    forall i | 0 <= i <= |q| ensures m[Before(q, i)].next == After(q, i) && m[After(q, i)].prev == Before(q, i) {
      assert i == 0 || i == 1 || i == 2 || i == 3;
    }
    assert 2 in q && 3 in q && 4 in q;
  }

  /** Shortening the first timer's ticks touches nothing else. */
  lemma {:induction false} ShortenLists(m: seq<Cell>, m': seq<Cell>, queue: seq<int>, free: seq<int>, first: int,
                                        n: nat)
    requires Lists(m, queue, free, first) && queue != [] && n <= m[queue[0]].deltaTime
    requires m' == SetTicks(m, queue[0], m[queue[0]].deltaTime - n)
    ensures Lists(m', queue, free, first)
    ensures Entries(m', queue) == Shortened(Entries(m, queue), n)
  {
    hide SetTicks, Distinct, Shortened;
    HeadAlone(queue);
    ShortenEntries(m, m', queue, n);
  }

  lemma {:induction false} HeadAlone(q: seq<int>)
    requires Distinct(q) && q != []
    ensures q[0] !in q[1..]
  {
  }

  lemma {:induction false} ShortenEntries(m: seq<Cell>, m': seq<Cell>, q: seq<int>, n: nat)
    requires InBlock(|m|, q) && q != [] && q[0] !in q[1..] && n <= m[q[0]].deltaTime
    requires m' == SetTicks(m, q[0], m[q[0]].deltaTime - n)
    ensures |m'| == |m| && Entries(m', q) == Shortened(Entries(m, q), n)
  {
    hide SetTicks;
    forall i | 0 <= i < |q| ensures Entries(m', q)[i] == Shortened(Entries(m, q), n)[i] {
      assert 0 < i ==> q[i] == q[1..][i - 1];
    }
  }

  /** What the head's next link and the ticks there tell. */
  lemma {:induction false} FirstTimer(m: seq<Cell>, queue: seq<int>, free: seq<int>, first: int)
    requires Lists(m, queue, free, first)
    ensures InBlock(|m|, queue) && 0 <= m[HEAD].next < |m|
    ensures var t, es := m[HEAD].next, Entries(m, queue);
      if queue == [] then t == TAIL && es == [] && m[t].deltaTime == TAIL_DELTA
      else t != TAIL && t == queue[0] && es != [] && es[0] == Entry(t, m[t].deltaTime)
  {
    hide Distinct, Chained;
    HeadOf(m, queue);
  }

  // ----- the free list -----

  /** Taking the first free timer. */
  lemma {:induction false} TakeFree(m: seq<Cell>, m': seq<Cell>, queue: seq<int>, free: seq<int>, first: int)
    requires Lists(m, queue, free, first) && free != [] && |m'| == |m|
    requires forall t | 0 <= t < |m| ::
      && m'[t].next == m[t].next && m'[t].prev == m[t].prev
      && m'[t].deltaTime == m[t].deltaTime
    requires forall t | 0 <= t < |m| :: m'[t].pending == if t == free[0] then false else m[t].pending
    ensures Lists(m', queue, free[1..], m[first].next)
    ensures Entries(m', queue) == Entries(m, queue)
  {
    assert free[0] in free;
    var rest := free[1..];
    assert forall t :: t in free <==> t == free[0] || t in rest;
    assert free[0] !in rest by {
      assert forall i | 0 <= i < |rest| :: rest[i] == free[i + 1];
    }
    forall i | 0 <= i < |rest| ensures m'[rest[i]].next == FreeAt(rest, i + 1) {
      assert rest[i] == free[i + 1];
    }
  }

  /** Giving an idle timer back. */
  lemma {:induction false} GiveBack(m: seq<Cell>, m': seq<Cell>, queue: seq<int>, free: seq<int>, first: int, t: int)
    requires Lists(m, queue, free, first) && FIRST <= t < |m| && t !in queue && t !in free && !m[t].pending
    requires m' == SetNext(m, t, first)
    ensures Lists(m', queue, [t] + free, t)
    ensures Entries(m', queue) == Entries(m, queue)
  {
    hide Distinct, Linked, Chained, SetNext;
    GiveBackApart(|m|, queue, free, t);
    GiveBackChained(m, m', free, first, t);
    GiveBackLinked(m, m', queue, first, t);
  }

  lemma {:induction false} GiveBackApart(n: nat, queue: seq<int>, free: seq<int>, t: int)
    requires Apart(n, queue, free) && FIRST <= t < n && t !in queue && t !in free
    ensures Apart(n, queue, [t] + free)
  {
    var free' := [t] + free;
    assert forall i | 0 < i < |free'| :: free'[i] == free[i - 1] && free'[i] in free;
  }

  lemma {:induction false} GiveBackChained(m: seq<Cell>, m': seq<Cell>, free: seq<int>, first: int, t: int)
    requires InBlock(|m|, free) && Chained(m, first, free) && FIRST <= t < |m| && t !in free
    requires m' == SetNext(m, t, first)
    ensures InBlock(|m'|, [t] + free) && Chained(m', t, [t] + free)
  {
    var free' := [t] + free;
    assert forall i | 0 < i < |free'| :: free'[i] == free[i - 1] && free'[i] in free;
    forall i | 0 <= i < |free'| ensures m'[free'[i]].next == FreeAt(free', i + 1) {
      assert 0 < i ==> m[free'[i]].next == FreeAt(free, i);
    }
  }

  lemma {:induction false} GiveBackLinked(m: seq<Cell>, m': seq<Cell>, queue: seq<int>, first: int, t: int)
    requires InBlock(|m|, queue) && Linked(m, queue) && FIRST <= t < |m| && t !in queue
    requires m' == SetNext(m, t, first)
    ensures Linked(m', queue)
  {
    forall i | 0 <= i <= |queue|
      ensures m'[Before(queue, i)].next == After(queue, i) && m'[After(queue, i)].prev == Before(queue, i)
    {
      assert 0 < i ==> Before(queue, i) in queue;
    }
  }

  /** Giving a timer another callback touches no list. */
  lemma {:induction false} CallbackLists(m: seq<Cell>, m': seq<Cell>, queue: seq<int>, free: seq<int>, first: int)
    requires Lists(m, queue, free, first) && SameLinks(m, m') && SameTicks(m, m') && SamePending(m, m')
    ensures Lists(m', queue, free, first)
    ensures Entries(m', queue) == Entries(m, queue)
  {
  }

  /** The timers of a block of n cells. */
  ghost function Block(n: nat): (ts: set<int>)
    ensures forall t :: t in ts <==> FIRST <= t < n
  {
    if n <= FIRST then {} else Block(n - 1) + {n - 1}
  }

  lemma {:induction false} BlockSize(n: nat)
    requires FIRST <= n
    ensures |Block(n)| == n - FIRST
  {
    if FIRST < n { BlockSize(n - 1); }
  }

  /** Every timer of the block is free or handed out. */
  lemma {:induction false} FreeAndTaken(n: nat, free: seq<int>, taken: set<int>)
    requires InBlock(n, free) && Distinct(free) && forall t :: t in taken <==> FIRST <= t < n && t !in free
    ensures |free| + |taken| == n - FIRST
  {
    MemberCount(free);
    BlockSize(n);
    assert Members(free) + taken == Block(n);
  }

  /** The queue holds no timer twice, so the delta list does not. */
  lemma {:induction false} EntriesOnce(m: seq<Cell>, q: seq<int>)
    requires InBlock(|m|, q) && Distinct(q)
    ensures Once(Entries(m, q)) && forall x :: On(Entries(m, q), x) ==> x in q
  {
    if q != [] {
      EntriesOnce(m, q[1..]);
      assert Entries(m, q)[1..] == Entries(m, q[1..]);
      HeadAlone(q);
    }
  }

  // ----- the fresh block -----

  /** What radTimerListCreate makes of the block: an empty delta list, every timer free. */
  lemma {:induction false} FreshLists(m: seq<Cell>, free: seq<int>, first: int)
    requires InBlock(|m|, free) && Distinct(free) && Chained(m, first, free)
    requires forall t | FIRST <= t < |m| :: t in free
    requires m[HEAD].next == TAIL && m[TAIL].prev == HEAD && m[HEAD].deltaTime == 0 && m[TAIL].deltaTime == TAIL_DELTA
    ensures Lists(m, [], free, first) && Entries(m, []) == []
  {
  }
}
