/** The readers/writer lock of mm_core.c on two System V semaphores, for any number of
    processes in any interleaving. Every semop, every load and store of mc_readers, every
    test of it and every access to mc_lockmode is a step of its own. */
module MmLock {
  import opened Wrappers

  datatype Mode = RD | RW

  /** What a process does next. */
  datatype Pc =
    | Idle
    // mm_core_lock, MM_LOCK_RD
    | RdEnter | RdLoad | RdStore(loaded: int) | RdTest | RdSem | RdExit
    // mm_core_lock, MM_LOCK_RW
    | WrEnter
    // mm_core_lock, both
    | SetMode(want: Mode)
    | Inside(held: Mode)
    // mm_core_unlock
    | UnEnter | UnLoad | UnStore(loaded: int) | UnTest | UnSem | UnExit
    | UnWrite

  /** The two semaphores, the two words of the memory core, and the processes. */
  datatype State = State(sem: nat, semRd: nat, readers: int, mode: Mode, pc: seq<Pc>)

  // ----- the steps -----

  /** Whether process p can take its next step. mm_core_dolock waits for zero and adds one,
      both at once; mm_core_dounlock subtracts one and would wait at zero. */
  predicate Enabled(s: State, p: nat)
    requires p < |s.pc|
  {
    match s.pc[p]
    case RdEnter => s.semRd == 0
    case UnEnter => s.semRd == 0
    case RdSem => s.sem == 0
    case WrEnter => s.sem == 0
    case RdExit => s.semRd >= 1
    case UnExit => s.semRd >= 1
    case UnSem => s.sem >= 1
    case UnWrite => s.sem >= 1
    case _ => true
  }

  /** The step of process p; an idle process calls mm_core_lock for `wish`. */
  function Step(s: State, p: nat, wish: Mode): State
    requires p < |s.pc| && Enabled(s, p)
  {
    match s.pc[p]
    case Idle => s.(pc := s.pc[p := if wish == RD then RdEnter else WrEnter])
    case RdEnter => s.(semRd := 1, pc := s.pc[p := RdLoad])
    case RdLoad => s.(pc := s.pc[p := RdStore(s.readers)])
    case RdStore(v) => s.(readers := v + 1, pc := s.pc[p := RdTest])
    case RdTest => s.(pc := s.pc[p := if s.readers == 1 then RdSem else RdExit])
    case RdSem => s.(sem := 1, pc := s.pc[p := RdExit])
    case RdExit => s.(semRd := s.semRd - 1, pc := s.pc[p := SetMode(RD)])
    case WrEnter => s.(sem := 1, pc := s.pc[p := SetMode(RW)])
    case SetMode(m) => s.(mode := m, pc := s.pc[p := Inside(m)])
    case Inside(_) => s.(pc := s.pc[p := if s.mode == RD then UnEnter else UnWrite])
    case UnEnter => s.(semRd := 1, pc := s.pc[p := UnLoad])
    case UnLoad => s.(pc := s.pc[p := UnStore(s.readers)])
    case UnStore(v) => s.(readers := v - 1, pc := s.pc[p := UnTest])
    case UnTest => s.(pc := s.pc[p := if s.readers == 0 then UnSem else UnExit])
    case UnSem => s.(sem := s.sem - 1, pc := s.pc[p := UnExit])
    case UnExit => s.(semRd := s.semRd - 1, pc := s.pc[p := Idle])
    case UnWrite => s.(sem := s.sem - 1, pc := s.pc[p := Idle])
  }

  /** mm_core_create: both semaphores at zero, no readers; mc_lockmode is not set. */
  function Init(n: nat, mode: Mode): State {
    State(0, 0, 0, mode, seq(n, _ => Idle))
  }

  datatype Move = Move(process: nat, wish: Mode)

  /** A schedule from s, if no process is made to run while it waits. */
  function Run(s: State, moves: seq<Move>): Option<State>
    decreases |moves|
  {
    if moves == [] then Some(s)
    else
      var m := moves[0];
      if m.process < |s.pc| && Enabled(s, m.process) then Run(Step(s, m.process, m.wish), moves[1..]) else None
  }

  // ----- counting processes -----

  function Count(pcs: seq<Pc>, f: Pc -> bool): nat {
    if pcs == [] then 0 else One(f(pcs[0])) + Count(pcs[1..], f)
  }

  lemma {:induction false} CountMoved(pcs: seq<Pc>, p: nat, to: Pc, f: Pc -> bool)
    requires p < |pcs|
    ensures Count(pcs[p := to], f) == Count(pcs, f) - One(f(pcs[p])) + One(f(to))
  {
    if p == 0 {
      assert pcs[0 := to][1..] == pcs[1..];
    } else {
      CountMoved(pcs[1..], p - 1, to, f);
      assert pcs[p := to][1..] == pcs[1..][p - 1 := to];
    }
  }

  lemma {:induction false} Counts(pcs: seq<Pc>, p: nat, f: Pc -> bool)
    requires p < |pcs| && f(pcs[p])
    ensures Count(pcs, f) >= 1
  {
    if 0 < p { Counts(pcs[1..], p - 1, f); }
  }

  lemma {:induction false} CountsTwo(pcs: seq<Pc>, p: nat, q: nat, f: Pc -> bool)
    requires p < q < |pcs| && f(pcs[p]) && f(pcs[q])
    ensures Count(pcs, f) >= 2
  {
    if p == 0 { Counts(pcs[1..], q - 1, f); } else { CountsTwo(pcs[1..], p - 1, q - 1, f); }
  }

  lemma {:induction false} Find(pcs: seq<Pc>, f: Pc -> bool) returns (p: nat)
    requires Count(pcs, f) >= 1
    ensures p < |pcs| && f(pcs[p])
  {
    if f(pcs[0]) {
      p := 0;
    } else {
      p := Find(pcs[1..], f);
      p := p + 1;
    }
  }

  lemma {:induction false} CountIdle(n: nat, f: Pc -> bool)
    requires !f(Idle)
    ensures Count(seq(n, _ => Idle), f) == 0
  {
    if 0 < n {
      CountIdle(n - 1, f);
      assert seq(n, _ => Idle)[1..] == seq(n - 1, _ => Idle);
    }
  }

  // ----- the invariant -----

  /** Between the two semops on mc_fdsem_rd. */
  predicate InCritical(c: Pc) {
    || c.RdLoad? || c.RdStore? || c.RdTest? || c.RdSem? || c.RdExit?
    || c.UnLoad? || c.UnStore? || c.UnTest? || c.UnSem? || c.UnExit?
  }

  /** Counted in mc_readers. */
  predicate Counted(c: Pc) {
    c.RdTest? || c.RdSem? || c.RdExit? || c == SetMode(RD) || c == Inside(RD) || c.UnEnter? || c.UnLoad? || c.UnStore?
  }

  /** Holding mc_fdsem as a writer. */
  predicate Writing(c: Pc) {
    c == SetMode(RW) || c == Inside(RW) || c.UnWrite?
  }

  predicate Opening(c: Pc) { c.RdTest? || c.RdSem? }

  predicate Closing(c: Pc) { c.UnTest? || c.UnSem? }

  /** Whether the readers together hold mc_fdsem: from the first one's semop to the last one's. */
  predicate ReadersHold(s: State) {
    Count(s.pc, Closing) >= 1 || (s.readers >= 1 && !(s.readers == 1 && Count(s.pc, Opening) >= 1))
  }

  /** What a process that is past a load or a test may still rely on. */
  predicate LocalOk(s: State, c: Pc) {
    && (c.RdStore? || c.UnStore? ==> c.loaded == s.readers)
    && (c.RdSem? ==> s.readers == 1)
    && (c.UnSem? ==> s.readers == 0)
    && (c.Inside? ==> c.held == s.mode)
  }

  ghost predicate Inv(s: State) {
    && s.semRd == Count(s.pc, InCritical) <= 1
    && s.readers == Count(s.pc, Counted)
    && s.sem == Count(s.pc, Writing) + One(ReadersHold(s)) <= 1
    && forall p | 0 <= p < |s.pc| :: LocalOk(s, s.pc[p])
  }

  // ----- every step keeps the invariant -----

  /** In mc_fdsem_rd's critical section, but neither opening nor closing mc_fdsem. */
  predicate Between(c: Pc) { InCritical(c) && !Opening(c) && !Closing(c) }

  lemma {:induction false} CriticalParts(pcs: seq<Pc>)
    ensures Count(pcs, InCritical) == Count(pcs, Opening) + Count(pcs, Closing) + Count(pcs, Between)
  {
    if pcs != [] { CriticalParts(pcs[1..]); }
  }

  lemma {:induction false} Moved(pcs: seq<Pc>, p: nat, to: Pc)
    requires p < |pcs|
    ensures Count(pcs[p := to], InCritical) == Count(pcs, InCritical) - One(InCritical(pcs[p])) + One(InCritical(to))
    ensures Count(pcs[p := to], Counted) == Count(pcs, Counted) - One(Counted(pcs[p])) + One(Counted(to))
    ensures Count(pcs[p := to], Writing) == Count(pcs, Writing) - One(Writing(pcs[p])) + One(Writing(to))
    ensures Count(pcs[p := to], Opening) == Count(pcs, Opening) - One(Opening(pcs[p])) + One(Opening(to))
    ensures Count(pcs[p := to], Closing) == Count(pcs, Closing) - One(Closing(pcs[p])) + One(Closing(to))
  {
    CountMoved(pcs, p, to, InCritical);
    CountMoved(pcs, p, to, Counted);
    CountMoved(pcs, p, to, Writing);
    CountMoved(pcs, p, to, Opening);
    CountMoved(pcs, p, to, Closing);
  }

  /** A process sees itself in the counts. */
  lemma {:induction false} Seen(pcs: seq<Pc>, p: nat)
    requires p < |pcs|
    ensures Counted(pcs[p]) ==> Count(pcs, Counted) >= 1
    ensures Writing(pcs[p]) ==> Count(pcs, Writing) >= 1
    ensures Opening(pcs[p]) ==> Count(pcs, Opening) >= 1
    ensures Closing(pcs[p]) ==> Count(pcs, Closing) >= 1
    ensures Between(pcs[p]) ==> Count(pcs, Between) >= 1
    ensures InCritical(pcs[p]) ==> Count(pcs, InCritical) >= 1
  {
    if Counted(pcs[p]) { Counts(pcs, p, Counted); }
    if Writing(pcs[p]) { Counts(pcs, p, Writing); }
    if Opening(pcs[p]) { Counts(pcs, p, Opening); }
    if Closing(pcs[p]) { Counts(pcs, p, Closing); }
    if Between(pcs[p]) { Counts(pcs, p, Between); }
    if InCritical(pcs[p]) { Counts(pcs, p, InCritical); }
  }

  lemma {:induction false} Two(pcs: seq<Pc>, p: nat, q: nat, f: Pc -> bool)
    requires p < |pcs| && q < |pcs| && p != q && f(pcs[p]) && f(pcs[q])
    ensures Count(pcs, f) >= 2
  {
    if p < q { CountsTwo(pcs, p, q, f); } else { CountsTwo(pcs, q, p, f); }
  }

  /** Only one process is between the semops on mc_fdsem_rd. */
  lemma {:induction false} AloneInCritical(s: State, p: nat, q: nat)
    requires Inv(s) && p < |s.pc| && q < |s.pc| && p != q && InCritical(s.pc[p])
    ensures !InCritical(s.pc[q])
  {
    if InCritical(s.pc[q]) { Two(s.pc, p, q, InCritical); }
  }

  /** While a writer holds mc_fdsem no other does, and a counted reader is still waiting. */
  lemma {:induction false} WriterAlone(s: State, p: nat, q: nat)
    requires Inv(s) && p < |s.pc| && q < |s.pc| && p != q && Writing(s.pc[p])
    ensures !Writing(s.pc[q]) && (Counted(s.pc[q]) ==> Opening(s.pc[q]))
  {
    Seen(s.pc, p);
    Seen(s.pc, q);
    if Writing(s.pc[q]) { Two(s.pc, p, q, Writing); }
    if Counted(s.pc[q]) && !Opening(s.pc[q]) {
      var r := Find(s.pc, Opening);
      Two(s.pc, q, r, Counted);
    }
  }

  /** The counts of mc_fdsem_rd and mc_readers after a step. */
  lemma {:induction false} StepKeepsReaders(s: State, p: nat, wish: Mode)
    requires Inv(s) && p < |s.pc| && Enabled(s, p)
    ensures var t := Step(s, p, wish); t.semRd == Count(t.pc, InCritical) <= 1 && t.readers == Count(t.pc, Counted)
  {
    hide Count, ReadersHold;
    assert LocalOk(s, s.pc[p]);
    Moved(s.pc, p, Step(s, p, wish).pc[p]);
    Seen(s.pc, p);
  }

  /** The count of mc_fdsem after a step. */
  lemma {:induction false} StepKeepsSem(s: State, p: nat, wish: Mode)
    requires Inv(s) && p < |s.pc| && Enabled(s, p)
    ensures var t := Step(s, p, wish); t.sem == Count(t.pc, Writing) + One(ReadersHold(t)) <= 1
  {
    hide Count;
    assert LocalOk(s, s.pc[p]);
    Moved(s.pc, p, Step(s, p, wish).pc[p]);
    Seen(s.pc, p);
    CriticalParts(s.pc);
  }

  lemma {:induction false} StepKeepsLocal(s: State, p: nat, wish: Mode, q: nat)
    requires Inv(s) && p < |s.pc| && q < |s.pc| && Enabled(s, p)
    ensures var t := Step(s, p, wish); LocalOk(t, t.pc[q])
  {
    var t := Step(s, p, wish);
    assert LocalOk(s, s.pc[p]) && LocalOk(s, s.pc[q]);
    if p != q {
      if InCritical(s.pc[p]) { AloneInCritical(s, p, q); }
      if s.pc[p] == SetMode(RW) { WriterAlone(s, p, q); }
      if s.pc[q] == Inside(RW) { WriterAlone(s, q, p); }
    }
  }

  lemma {:induction false} StepKeepsInv(s: State, p: nat, wish: Mode)
    requires Inv(s) && p < |s.pc| && Enabled(s, p)
    ensures Inv(Step(s, p, wish))
  {
    var t := Step(s, p, wish);
    StepKeepsReaders(s, p, wish);
    StepKeepsSem(s, p, wish);
    forall q | 0 <= q < |t.pc| ensures LocalOk(t, t.pc[q]) {
      StepKeepsLocal(s, p, wish, q);
    }
  }

  // ----- safety of every run -----

  lemma {:induction false} InitHolds(n: nat, mode: Mode)
    ensures Inv(Init(n, mode))
  {
    CountIdle(n, InCritical);
    CountIdle(n, Counted);
    CountIdle(n, Writing);
    CountIdle(n, Closing);
  }

  lemma {:induction false} RunKeepsInv(s: State, moves: seq<Move>)
    requires Inv(s) && Run(s, moves).Some?
    ensures Inv(Run(s, moves).value)
    decreases |moves|
  {
    if moves != [] {
      StepKeepsInv(s, moves[0].process, moves[0].wish);
      RunKeepsInv(Step(s, moves[0].process, moves[0].wish), moves[1..]);
    }
  }

  /** A state some schedule of some number of processes leads to. */
  ghost predicate Reachable(s: State) {
    exists n: nat, mode, moves :: Run(Init(n, mode), moves) == Some(s)
  }

  lemma {:induction false} ReachableHolds(s: State)
    requires Reachable(s)
    ensures Inv(s)
  {
    var n: nat, mode, moves :| Run(Init(n, mode), moves) == Some(s);
    InitHolds(n, mode);
    RunKeepsInv(Init(n, mode), moves);
  }

  /** A writer inside excludes everyone else. */
  lemma {:induction false} WriterExcludesAll(s: State, p: nat, q: nat)
    requires Reachable(s) && p < |s.pc| && q < |s.pc| && p != q && s.pc[p] == Inside(RW)
    ensures !s.pc[q].Inside?
  {
    ReachableHolds(s);
    WriterAlone(s, p, q);
  }

  /** mc_lockmode, as mm_core_unlock reads it, is how that process locked. */
  lemma {:induction false} UnlockTakesItsBranch(s: State, p: nat, wish: Mode)
    requires Reachable(s) && p < |s.pc| && s.pc[p].Inside?
    ensures s.mode == s.pc[p].held
    ensures Step(s, p, wish).pc[p] == if s.pc[p].held == RD then UnEnter else UnWrite
  {
    ReachableHolds(s);
    assert LocalOk(s, s.pc[p]);
  }

  // ----- who asks for a mode holds that mode -----

  /** The wish with which process p last left Idle in a schedule; `before` if it did not. */
  function LastWish(s: State, moves: seq<Move>, p: nat, before: Option<Mode>): Option<Mode>
    requires p < |s.pc|
    decreases |moves|
  {
    if moves == [] then before
    else
      var m := moves[0];
      if m.process >= |s.pc| || !Enabled(s, m.process) then before
      else
        LastWish(Step(s, m.process, m.wish), moves[1..], p,
                 if m.process == p && s.pc[p] == Idle then Some(m.wish) else before)
  }

  /** In mm_core_lock or holding the lock, after having asked for w. */
  ghost predicate AskedFor(c: Pc, w: Option<Mode>) {
    && (c.RdEnter? || c.RdLoad? || c.RdStore? || c.RdTest? || c.RdSem? || c.RdExit? ==> w == Some(RD))
    && (c.WrEnter? ==> w == Some(RW))
    && (c.SetMode? ==> w == Some(c.want))
    && (c.Inside? ==> w == Some(c.held))
  }

  lemma {:induction false} RunKeepsWish(s: State, moves: seq<Move>, p: nat, w: Option<Mode>)
    requires p < |s.pc| && AskedFor(s.pc[p], w) && Run(s, moves).Some?
    ensures var t := Run(s, moves).value; p < |t.pc| && AskedFor(t.pc[p], LastWish(s, moves, p, w))
    decreases |moves|
  {
    if moves != [] {
      var m := moves[0];
      var t := Step(s, m.process, m.wish);
      var w' := if m.process == p && s.pc[p] == Idle then Some(m.wish) else w;
      assert AskedFor(t.pc[p], w');
      RunKeepsWish(t, moves[1..], p, w');
    }
  }

  /** In every schedule from the start, a process that is inside holds the mode it asked for;
      and if it asked to write, it is alone. */
  lemma {:induction false} HoldsWhatItAsked(n: nat, mode: Mode, moves: seq<Move>, p: nat)
    requires p < n && Run(Init(n, mode), moves).Some?
    ensures var s, wish := Run(Init(n, mode), moves).value, LastWish(Init(n, mode), moves, p, None);
      && |s.pc| == n
      && (s.pc[p].Inside? ==> wish == Some(s.pc[p].held))
      && (s.pc[p].Inside? && wish == Some(RW) ==> forall q | 0 <= q < n && q != p :: !s.pc[q].Inside?)
  {
    var s := Run(Init(n, mode), moves).value;
    RunKeepsProcesses(Init(n, mode), moves);
    RunKeepsWish(Init(n, mode), moves, p, None);
    assert Run(Init(n, mode), moves) == Some(s);
    if s.pc[p] == Inside(RW) {
      forall q | 0 <= q < n && q != p ensures !s.pc[q].Inside? { WriterExcludesAll(s, p, q); }
    }
  }

  predicate ReaderInside(c: Pc) { c == Inside(RD) }

  ghost predicate Quiet(s: State) {
    forall p | 0 <= p < |s.pc| :: s.pc[p].Idle? || s.pc[p].Inside?
  }

  lemma {:induction false} QuietCounts(pcs: seq<Pc>)
    requires forall p | 0 <= p < |pcs| :: pcs[p].Idle? || pcs[p].Inside?
    ensures Count(pcs, Counted) == Count(pcs, ReaderInside)
    ensures Count(pcs, InCritical) == Count(pcs, Opening) == Count(pcs, Closing) == 0
  {
    if pcs != [] { QuietCounts(pcs[1..]); }
  }

  /** At a quiescent point mc_readers is the number of readers inside, mc_fdsem_rd is free
      and mc_fdsem is taken exactly when somebody is inside. */
  lemma {:induction false} QuietReaders(s: State)
    requires Reachable(s) && Quiet(s)
    ensures s.readers == Count(s.pc, ReaderInside) && s.semRd == 0
    ensures s.sem == One(exists p | 0 <= p < |s.pc| :: s.pc[p].Inside?)
  {
    ReachableHolds(s);
    QuietCounts(s.pc);
    if s.sem != 0 {
      var p;
      if s.readers >= 1 { p := Find(s.pc, Counted); } else { p := Find(s.pc, Writing); }
      assert s.pc[p].Inside?;
    }
    forall p | 0 <= p < |s.pc| && s.pc[p].Inside? ensures s.sem == 1 {
      Seen(s.pc, p);
    }
  }

  // ----- progress -----

  /** A process inside or in the middle of mm_core_lock or mm_core_unlock that can go on. */
  ghost predicate CanGoOn(s: State, p: nat) {
    p < |s.pc| && !s.pc[p].Idle? && Enabled(s, p)
  }

  lemma {:induction false} WriterGoesOn(s: State) returns (p: nat)
    requires Inv(s) && Count(s.pc, Writing) >= 1
    ensures CanGoOn(s, p)
  {
    p := Find(s.pc, Writing);
  }

  /** Whoever has mc_fdsem_rd goes on, or waits for a writer who can. */
  lemma {:induction false} CriticalGoesOn(s: State) returns (p: nat)
    requires Inv(s) && s.semRd != 0
    ensures CanGoOn(s, p)
  {
    p := Find(s.pc, InCritical);
    Seen(s.pc, p);
    CriticalParts(s.pc);
    assert LocalOk(s, s.pc[p]);
    if s.pc[p].RdSem? && s.sem != 0 {
      p := WriterGoesOn(s);
    }
  }

  /** Whoever has mc_fdsem goes on, or waits for someone who can. */
  lemma {:induction false} HolderGoesOn(s: State) returns (p: nat)
    requires Inv(s) && s.sem != 0
    ensures CanGoOn(s, p)
  {
    if s.semRd != 0 {
      p := CriticalGoesOn(s);
    } else if Count(s.pc, Writing) >= 1 {
      p := WriterGoesOn(s);
    } else {
      CriticalParts(s.pc);
      p := Find(s.pc, Counted);
      Seen(s.pc, p);
    }
  }

  /** No deadlock: while any process is inside or in the middle of a call, one can go on. */
  lemma {:induction false} SomeoneGoesOn(s: State, busy: nat)
    requires Reachable(s) && busy < |s.pc| && !s.pc[busy].Idle?
    ensures exists p :: CanGoOn(s, p)
  {
    ReachableHolds(s);
    var p := SomeoneBusyGoesOn(s, busy);
  }

  lemma {:induction false} SomeoneBusyGoesOn(s: State, busy: nat) returns (p: nat)
    requires Inv(s) && busy < |s.pc| && !s.pc[busy].Idle?
    ensures CanGoOn(s, p)
  {
    if s.semRd != 0 {
      p := CriticalGoesOn(s);
    } else if s.sem != 0 {
      p := HolderGoesOn(s);
    } else {
      p := busy;
      Seen(s.pc, p);
    }
  }

  /** Steps until the process is idle again. */
  function Left(c: Pc): nat {
    match c
    case Idle => 0
    case RdEnter => 14
    case RdLoad => 13
    case RdStore(_) => 12
    case RdTest => 11
    case RdSem => 10
    case RdExit => 9
    case WrEnter => 9
    case SetMode(_) => 8
    case Inside(_) => 7
    case UnEnter => 6
    case UnLoad => 5
    case UnStore(_) => 4
    case UnTest => 3
    case UnSem => 2
    case UnExit => 1
    case UnWrite => 1
  }

  function Work(pcs: seq<Pc>): nat {
    if pcs == [] then 0 else Left(pcs[0]) + Work(pcs[1..])
  }

  lemma {:induction false} WorkMoved(pcs: seq<Pc>, p: nat, to: Pc)
    requires p < |pcs|
    ensures Work(pcs[p := to]) == Work(pcs) - Left(pcs[p]) + Left(to)
  {
    if p == 0 {
      assert pcs[0 := to][1..] == pcs[1..];
    } else {
      WorkMoved(pcs[1..], p - 1, to);
      assert pcs[p := to][1..] == pcs[1..][p - 1 := to];
    }
  }

  /** No process is asked to lock anew: every move continues what is under way. */
  ghost predicate Draining(s: State, moves: seq<Move>)
    decreases |moves|
  {
    moves != [] ==>
      var m := moves[0];
      CanGoOn(s, m.process) && Draining(Step(s, m.process, m.wish), moves[1..])
  }

  lemma {:induction false} StepDoesWork(s: State, p: nat, wish: Mode)
    requires CanGoOn(s, p)
    ensures Work(Step(s, p, wish).pc) < Work(s.pc)
  {
    hide Work;
    WorkMoved(s.pc, p, Step(s, p, wish).pc[p]);
  }

  /** Once no new calls come, every schedule is over after at most Work steps... */
  lemma {:induction false} DrainEnds(s: State, moves: seq<Move>)
    requires Draining(s, moves)
    ensures Run(s, moves).Some? && |moves| + Work(Run(s, moves).value.pc) <= Work(s.pc)
    decreases |moves|
  {
    hide Step, Enabled, Work;
    if moves != [] {
      var m := moves[0];
      var t := Step(s, m.process, m.wish);
      DrainEnds(t, moves[1..]);
      StepDoesWork(s, m.process, m.wish);
    }
  }

  lemma {:induction false} RunKeepsProcesses(s: State, moves: seq<Move>)
    requires Run(s, moves).Some?
    ensures |Run(s, moves).value.pc| == |s.pc|
    decreases |moves|
  {
    if moves != [] { RunKeepsProcesses(Step(s, moves[0].process, moves[0].wish), moves[1..]); }
  }

  lemma {:induction false} AllIdle(pcs: seq<Pc>, f: Pc -> bool)
    requires !f(Idle) && forall p | 0 <= p < |pcs| :: pcs[p].Idle?
    ensures Count(pcs, f) == 0
  {
    if pcs != [] { AllIdle(pcs[1..], f); }
  }

  /** ... and one that cannot be continued has let every call return and every holder leave,
      and the lock is free. */
  lemma {:induction false} DrainFinishes(s: State, moves: seq<Move>, t: State)
    requires Reachable(s) && Draining(s, moves) && Run(s, moves) == Some(t)
    requires forall p :: !CanGoOn(t, p)
    ensures |t.pc| == |s.pc| && forall p | 0 <= p < |t.pc| :: t.pc[p].Idle?
    ensures t.sem == t.semRd == t.readers == 0
  {
    ReachableHolds(s);
    RunKeepsInv(s, moves);
    RunKeepsProcesses(s, moves);
    forall p | 0 <= p < |t.pc| ensures t.pc[p].Idle? {
      if !t.pc[p].Idle? { var q := SomeoneBusyGoesOn(t, p); }
    }
    AllIdle(t.pc, Counted);
    AllIdle(t.pc, Writing);
    AllIdle(t.pc, InCritical);
    AllIdle(t.pc, Closing);
  }

  // ----- no fairness -----

  /** Process p waits for mc_fdsem all through a schedule, and can never go on. */
  ghost predicate HeldOff(s: State, p: nat, moves: seq<Move>)
    decreases |moves|
  {
    && p < |s.pc| && s.pc[p] == WrEnter && !Enabled(s, p)
    && (moves != [] ==>
          var m := moves[0];
          m.process < |s.pc| && Enabled(s, m.process) && HeldOff(Step(s, m.process, m.wish), p, moves[1..]))
  }

  /** Counted in mc_readers, and past the opening of mc_fdsem. */
  predicate Reading(c: Pc) { Counted(c) && !Opening(c) }

  /** Keeps mc_fdsem taken: as a writer, as a reader, or as the last reader on the way out. */
  predicate Keeps(c: Pc) { Writing(c) || Reading(c) || Closing(c) }

  ghost predicate Kept(s: State) {
    exists q :: 0 <= q < |s.pc| && Keeps(s.pc[q])
  }

  lemma {:induction false} CountedParts(pcs: seq<Pc>)
    ensures Count(pcs, Counted) == Count(pcs, Opening) + Count(pcs, Reading)
  {
    if pcs != [] { CountedParts(pcs[1..]); }
  }

  /** A writer at mc_fdsem waits exactly while some process keeps it. */
  lemma {:induction false} WaitsWhileKept(s: State, p: nat)
    requires Inv(s) && p < |s.pc| && s.pc[p] == WrEnter
    ensures !Enabled(s, p) <==> Kept(s)
  {
    CountedParts(s.pc);
    CriticalParts(s.pc);
    if !Enabled(s, p) {
      var q;
      if Count(s.pc, Writing) >= 1 {
        q := Find(s.pc, Writing);
      } else if Count(s.pc, Closing) >= 1 {
        q := Find(s.pc, Closing);
      } else {
        q := Find(s.pc, Reading);
      }
      assert Keeps(s.pc[q]);
    }
    if Kept(s) {
      var q :| 0 <= q < |s.pc| && Keeps(s.pc[q]);
      Seen(s.pc, q);
      if Reading(s.pc[q]) { Counts(s.pc, q, Reading); }
    }
  }

  /** Some process keeps mc_fdsem at every state of a schedule. */
  ghost predicate AlwaysKept(s: State, moves: seq<Move>)
    decreases |moves|
  {
    && Kept(s)
    && (moves != [] ==>
          var m := moves[0];
          m.process < |s.pc| && Enabled(s, m.process) ==> AlwaysKept(Step(s, m.process, m.wish), moves[1..]))
  }

  /** A writer is held off all through a schedule if and only if at every state of it some
      process keeps mc_fdsem. */
  lemma {:induction false} HeldOffExactly(s: State, p: nat, moves: seq<Move>)
    requires Reachable(s) && p < |s.pc| && s.pc[p] == WrEnter && Run(s, moves).Some?
    ensures HeldOff(s, p, moves) <==> AlwaysKept(s, moves)
  {
    ReachableHolds(s);
    HeldOffWhileKept(s, p, moves);
  }

  lemma {:induction false} HeldOffWhileKept(s: State, p: nat, moves: seq<Move>)
    requires Inv(s) && p < |s.pc| && s.pc[p] == WrEnter && Run(s, moves).Some?
    ensures HeldOff(s, p, moves) <==> AlwaysKept(s, moves)
    decreases |moves|
  {
    hide Inv, Kept;
    WaitsWhileKept(s, p);
    if moves != [] && Kept(s) {
      var m := moves[0];
      StepKeepsInv(s, m.process, m.wish);
      HeldOffWhileKept(Step(s, m.process, m.wish), p, moves[1..]);
    }
  }

  /** Process p takes n steps; when idle it calls mm_core_lock for `wish`. */
  function Turns(p: nat, wish: Mode, n: nat): seq<Move> {
    if n == 0 then [] else [Move(p, wish)] + Turns(p, wish, n - 1)
  }

  /** n such steps of a reader lead from s to t, and mc_fdsem is taken all the time. */
  ghost predicate TurnsHeld(s: State, p: nat, n: nat, t: State)
    decreases n
  {
    && s.sem == 1
    && if n == 0 then s == t else p < |s.pc| && Enabled(s, p) && TurnsHeld(Step(s, p, RD), p, n - 1, t)
  }

  lemma {:induction false} TurnsHoldOff(s: State, p: nat, n: nat, t: State, w: nat)
    requires TurnsHeld(s, p, n, t) && w != p && w < |s.pc| && s.pc[w] == WrEnter
    ensures Run(s, Turns(p, RD, n)) == Some(t) && HeldOff(s, w, Turns(p, RD, n)) && |Turns(p, RD, n)| == n
    decreases n
  {
    if 0 < n {
      assert Turns(p, RD, n)[1..] == Turns(p, RD, n - 1);
      TurnsHoldOff(Step(s, p, RD), p, n - 1, t, w);
    }
  }

  lemma {:induction false} RunAppend(s: State, a: seq<Move>, b: seq<Move>)
    requires Run(s, a).Some?
    ensures Run(s, a + b) == Run(Run(s, a).value, b)
    ensures forall p :: HeldOff(s, p, a) && HeldOff(Run(s, a).value, p, b) ==> HeldOff(s, p, a + b)
    decreases |a|
  {
    if a == [] {
      assert a + b == b;
    } else {
      assert (a + b)[1..] == a[1..] + b;
      RunAppend(Step(s, a[0].process, a[0].wish), a[1..], b);
    }
  }

  /** Reader `inside` has the lock, the other reader is idle, and process 2 waits to write. */
  function OneReads(inside: nat): State
    requires inside < 2
  {
    State(1, 0, 1, RD, [if inside == 0 then Inside(RD) else Idle, if inside == 1 then Inside(RD) else Idle, WrEnter])
  }

  /** Both readers are inside. */
  function BothRead(): State {
    State(1, 0, 2, RD, [Inside(RD), Inside(RD), WrEnter])
  }

  /** The other reader enters, and then the first one leaves. */
  function HandOver(inside: nat): seq<Move>
    requires inside < 2
  {
    Turns(1 - inside, RD, 7) + Turns(inside, RD, 6)
  }

  lemma {:induction false} OtherEnters(inside: nat)
    requires inside < 2
    ensures TurnsHeld(OneReads(inside), 1 - inside, 7, BothRead())
  {
    var p, s := 1 - inside, OneReads(inside);
    var s1 := Step(s, p, RD);
    var s2 := Step(s1, p, RD);
    var s3 := Step(s2, p, RD);
    var s4 := Step(s3, p, RD);
    var s5 := Step(s4, p, RD);
    var s6 := Step(s5, p, RD);
    assert Step(s6, p, RD) == BothRead();
    assert TurnsHeld(s6, p, 1, BothRead());
    assert TurnsHeld(s4, p, 3, BothRead());
    assert TurnsHeld(s2, p, 5, BothRead());
  }

  lemma {:induction false} FirstLeaves(inside: nat)
    requires inside < 2
    ensures TurnsHeld(BothRead(), inside, 6, OneReads(1 - inside))
  {
    var p, s, t := inside, BothRead(), OneReads(1 - inside);
    var s1 := Step(s, p, RD);
    var s2 := Step(s1, p, RD);
    var s3 := Step(s2, p, RD);
    var s4 := Step(s3, p, RD);
    var s5 := Step(s4, p, RD);
    assert Step(s5, p, RD) == t;
    assert TurnsHeld(s5, p, 1, t);
    assert TurnsHeld(s3, p, 3, t);
    assert TurnsHeld(s1, p, 5, t);
  }

  lemma {:induction false} HandOverHoldsOff(inside: nat)
    requires inside < 2
    ensures var moves := HandOver(inside);
      Run(OneReads(inside), moves) == Some(OneReads(1 - inside)) && HeldOff(OneReads(inside), 2, moves) && |moves| == 13
  {
    OtherEnters(inside);
    FirstLeaves(inside);
    TurnsHoldOff(OneReads(inside), 1 - inside, 7, BothRead(), 2);
    TurnsHoldOff(BothRead(), inside, 6, OneReads(1 - inside), 2);
    RunAppend(OneReads(inside), Turns(1 - inside, RD, 7), Turns(inside, RD, 6));
  }

  /** n hand-overs in a row. */
  function HandOvers(inside: nat, n: nat): seq<Move>
    requires inside < 2
    decreases n
  {
    if n == 0 then [] else HandOver(inside) + HandOvers(1 - inside, n - 1)
  }

  lemma {:induction false} HandOversHoldOff(inside: nat, n: nat)
    requires inside < 2
    ensures HeldOff(OneReads(inside), 2, HandOvers(inside, n)) && |HandOvers(inside, n)| == 13 * n
    ensures Run(OneReads(inside), HandOvers(inside, n)) == Some(OneReads((inside + n) % 2))
    decreases n
  {
    if 0 < n {
      hide HandOver, HeldOff, Run;
      HandOverHoldsOff(inside);
      HandOversHoldOff(1 - inside, n - 1);
      RunAppend(OneReads(inside), HandOver(inside), HandOvers(1 - inside, n - 1));
    } else {
      assert HeldOff(OneReads(inside), 2, []);
    }
  }

  lemma {:induction false} OneTurn(s: State, p: nat, n: nat)
    requires 0 < n && p < |s.pc| && Enabled(s, p)
    ensures Run(s, Turns(p, RD, n)) == Run(Step(s, p, RD), Turns(p, RD, n - 1))
    ensures n == 1 ==> Run(s, Turns(p, RD, n)) == Some(Step(s, p, RD))
  {
    assert Turns(p, RD, n)[1..] == Turns(p, RD, n - 1);
  }

  lemma {:induction false} FirstMove(s: State, m: Move, rest: seq<Move>)
    requires m.process < |s.pc| && Enabled(s, m.process)
    ensures Run(s, [m] + rest) == Run(Step(s, m.process, m.wish), rest)
  {
    assert ([m] + rest)[1..] == rest;
  }

  lemma {:induction false} OneReadsIsReachable(mode: Mode)
    ensures Reachable(OneReads(0))
  {
    hide Run, Turns;
    var s0 := Init(3, mode).(pc := [Idle, Idle, Idle]);
    assert Init(3, mode) == s0;
    var s1 := Step(s0, 2, RW);
    var s2 := Step(s1, 0, RD);
    var s3 := Step(s2, 0, RD);
    var s4 := Step(s3, 0, RD);
    var s5 := Step(s4, 0, RD);
    var s6 := Step(s5, 0, RD);
    var s7 := Step(s6, 0, RD);
    var s8 := Step(s7, 0, RD);
    OneTurn(s1, 0, 8);
    OneTurn(s2, 0, 7);
    OneTurn(s3, 0, 6);
    OneTurn(s4, 0, 5);
    OneTurn(s5, 0, 4);
    OneTurn(s6, 0, 3);
    OneTurn(s7, 0, 2);
    OneTurn(s8, 0, 1);
    assert Step(s8, 0, RD) == OneReads(0);
    FirstMove(s0, Move(2, RW), Turns(0, RD, 8));
    assert Run(s0, [Move(2, RW)] + Turns(0, RD, 8)) == Some(OneReads(0));
  }

  /** Readers that keep handing the lock over to each other hold a writer off for any number of
      steps: it waits, and never can go on. */
  lemma {:induction false} WriterStarves(n: nat)
    ensures exists s, moves ::
      && Reachable(s) && 2 < |s.pc| && |moves| == 13 * n && Run(s, moves).Some?
      && HeldOff(s, 2, moves)
  {
    OneReadsIsReachable(RD);
    HandOversHoldOff(0, n);
  }
}
