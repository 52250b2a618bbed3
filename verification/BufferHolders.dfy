/** Who holds which buffer. A process holds what radBufferGet returned to it until its own
    radBufferRls of it has passed the test; nothing in radbuffers.c asks who releases. */
module BufferHolders {
  import opened BufferLayout
  import opened BufferPool
  import opened Sequences
  import opened Wrappers

  datatype Hold = Hold(block: nat, process: int)

  datatype Act = Act(process: int, move: Move)

  /** The pool, and who believes to hold which block. */
  datatype Owned = Owned(pool: State, has: set<Hold>)

  function Next(o: Owned, a: Act): Owned
    requires Sane(o.pool, a.move)
  {
    var s := Step(o.pool, a.move);
    match a.move
    case Flag(b) => Owned(s, o.has + {Hold(b, a.process)})
    case Test(b) => Owned(s, if o.pool.hdr[b].flag == 1 then o.has - {Hold(b, a.process)} else o.has)
    case _ => Owned(s, o.has)
  }

  ghost predicate Legal(o: Owned, acts: seq<Act>)
    decreases |acts|
  {
    acts != [] ==>
      Allowed(o.pool, acts[0].move) && (Sane(o.pool, acts[0].move) ==> Legal(Next(o, acts[0]), acts[1..]))
  }

  ghost function Run(o: Owned, acts: seq<Act>): Option<Owned>
    decreases |acts|
  {
    if acts == [] then Some(o)
    else if !Sane(o.pool, acts[0].move) then None
    else Run(Next(o, acts[0]), acts[1..])
  }

  /** No block has two holders. */
  ghost predicate OneEach(has: set<Hold>) {
    forall x, y | x in has && y in has && x.block == y.block :: x == y
  }

  ghost predicate HasHolder(has: set<Hold>, b: nat) {
    exists x :: x in has && x.block == b
  }

  /** The release that gets past the test is that of a holder. */
  predicate ByHolder(o: Owned, a: Act) {
    a.move.Test? && a.move.block in o.pool.hdr && o.pool.hdr[a.move.block].flag == 1 ==>
      Hold(a.move.block, a.process) in o.has
  }

  ghost predicate OwnedInv(o: Owned, rows: seq<seq<nat>>, chains: seq<seq<nat>>) {
    && Inv(o.pool, rows, chains) && OneEach(o.has)
    && forall b :: HasHolder(o.has, b) <==> Is(o.pool.fly, b, Held) && b !in o.pool.calls.tested
  }

  lemma {:induction false} HolderIsSingle(o: Owned, rows: seq<seq<nat>>, chains: seq<seq<nat>>, a: Act)
    requires OwnedInv(o, rows, chains) && ByHolder(o, a)
    ensures Single(o.pool, a.move)
  {
    hide Inv;
    if a.move.Test? { assert Hold(a.move.block, a.process) in o.has ==> HasHolder(o.has, a.move.block); }
  }

  /** What a step makes of phases and calls under way. */
  lemma {:induction false} PhasesAfter(s: State, rows: seq<seq<nat>>, chains: seq<seq<nat>>, m: Move)
    requires Inv(s, rows, chains) && Allowed(s, m) && Sane(s, m)
    ensures var t := Step(s, m); forall b ::
      (Is(t.fly, b, Held) && b !in t.calls.tested) <==>
        match m
        case Flag(c) => b == c || (Is(s.fly, b, Held) && b !in s.calls.tested)
        case Test(c) => (b != c || s.hdr[c].flag != 1) && Is(s.fly, b, Held) && b !in s.calls.tested
        case _ => Is(s.fly, b, Held) && b !in s.calls.tested
  {
    hide RowsOk, ClassOk, TablesOk, HeadersOk, Choose;
    assert CallsOk(s.fly, s.calls);
    InvSizes(s, rows, chains);
    if m.Pop? {
      var k := Choose(s.sizes, s.pool, m.size);
      if k < |s.pool| { PopFinds(s, rows, chains, k); }
    }
  }

  lemma {:induction false} StepKeepsOwned(o: Owned, rows: seq<seq<nat>>, chains: seq<seq<nat>>, a: Act)
    requires OwnedInv(o, rows, chains) && Allowed(o.pool, a.move) && ByHolder(o, a)
    ensures Sane(o.pool, a.move) && OwnedInv(Next(o, a), rows, ChainsAfter(o.pool, chains, a.move))
  {
    hide Inv, Step;
    HolderIsSingle(o, rows, chains, a);
    InvSizes(o.pool, rows, chains);
    StepKeepsInv(o.pool, rows, chains, a.move);
    PhasesAfter(o.pool, rows, chains, a.move);
    HoldersAfter(o, Next(o, a).has, a, rows, chains);
  }

  lemma {:induction false} HoldersAfter(o: Owned, has: set<Hold>, a: Act, rows: seq<seq<nat>>, chains: seq<seq<nat>>)
    requires OwnedInv(o, rows, chains) && Allowed(o.pool, a.move) && ByHolder(o, a) && Sane(o.pool, a.move)
    requires has == Next(o, a).has
    ensures OneEach(has)
    ensures forall b :: HasHolder(has, b) <==>
      match a.move
      case Flag(c) => b == c || HasHolder(o.has, b)
      case Test(c) => (b != c || o.pool.hdr[c].flag != 1) && HasHolder(o.has, b)
      case _ => HasHolder(o.has, b)
  {
    hide Step, RowsOk, ClassOk, TablesOk, HeadersOk;
    assert CallsOk(o.pool.fly, o.pool.calls);
    match a.move {
      case Flag(c) =>
        assert !HasHolder(o.has, c);
        forall b ensures HasHolder(has, b) <==> b == c || HasHolder(o.has, b) {
          assert Hold(c, a.process) in has;
          if HasHolder(o.has, b) {
            var x :| x in o.has && x.block == b;
            assert x in has;
          }
        }
      case Test(c) =>
        forall b | HasHolder(o.has, b) && (b != c || o.pool.hdr[c].flag != 1) ensures HasHolder(has, b) {
          var x :| x in o.has && x.block == b;
          assert x in has;
        }
      case _ =>
    }
  }

  // ----- what a release by another leads to -----

  /** radBufferGet for exactly the size of a class that has a block takes from that class. */
  lemma {:induction false} OwnClass(s: State, rows: seq<seq<nat>>, k: nat)
    requires TablesOk(s, rows) && k < |rows| && rows[k] != [] && s.pool[k] != 0
    ensures Choose(s.sizes, s.pool, s.sizes[k]) == k && 0 < s.sizes[k] < 0x8000_0000
  {
    var size := s.sizes[k];
    FirstFitIs(s.sizes, size, 0);
    var f := FirstFit(s.sizes, size, 0);
    assert k < s.numSizes;
    assert f <= k;
  }

  lemma {:induction false} OneAct(o: Owned, a: Act, rest: seq<Act>)
    requires Allowed(o.pool, a.move) && Sane(o.pool, a.move)
    ensures Legal(o, [a] + rest) <==> Legal(Next(o, a), rest)
    ensures Run(o, [a] + rest) == Run(Next(o, a), rest)
  {
    assert ([a] + rest)[1..] == rest;
  }

  lemma {:induction false} NoActs(o: Owned)
    ensures Legal(o, []) && Run(o, []) == Some(o)
  {
  }

  /** Calls under way go on and buffers are asked for, but no release begins. */
  predicate NoRelease(acts: seq<Act>) {
    forall a | a in acts :: !a.move.Test?
  }

  /** Without new releases, no block ever gets a second holder. */
  ghost predicate StaysOneEach(o: Owned) {
    forall more | NoRelease(more) && Legal(o, more) :: Run(o, more).Some? && OneEach(Run(o, more).value.has)
  }

  /** Process q, past the test, finishes its release and asks for a buffer of that size. */
  function ReleaseAndGet(q: int, b: nat, size: int): seq<Act> {
    [Act(q, Store(b))] + ([Act(q, Push(b))] + ([Act(q, Pop(size))] + ([Act(q, Flag(b))] + [])))
  }

  /** The block is on top of its class's chain after that release, and comes back. */
  lemma {:induction false} ReleasedComesBack(o: Owned, rows: seq<seq<nat>>, chains: seq<seq<nat>>, q: int, b: nat)
    requires Inv(o.pool, rows, chains) && b in o.pool.calls.tested
    ensures b in o.pool.hdr && o.pool.hdr[b].sizeIndex < |o.pool.sizes|
    ensures var more := ReleaseAndGet(q, b, o.pool.sizes[o.pool.hdr[b].sizeIndex]);
      Legal(o, more) && Run(o, more).Some? && Run(o, more).value.has == o.has + {Hold(b, q)}
  {
    hide Legal, Run, RowsOk, ClassOk, CallsOk, Choose, Chain, Distinct;
    var s := o.pool;
    StepIsSane(s, rows, chains, Store(b));
    InvSizes(s, rows, chains);
    var k := s.hdr[b].sizeIndex;
    var size := s.sizes[k];
    BlockOfRow(s, rows, chains, k, b);
    StepKeepsInv(s, rows, chains, Store(b));
    var o1 := Next(o, Act(q, Store(b)));
    StepKeepsInv(o1.pool, rows, chains, Push(b));
    var chains2 := ChainsAfter(o1.pool, chains, Push(b));
    var o2 := Next(o1, Act(q, Push(b)));
    OwnClass(o2.pool, rows, k);
    StepKeepsInv(o2.pool, rows, chains2, Pop(size));
    var o3 := Next(o2, Act(q, Pop(size)));
    OneAct(o, Act(q, Store(b)), [Act(q, Push(b))] + ([Act(q, Pop(size))] + ([Act(q, Flag(b))] + [])));
    OneAct(o1, Act(q, Push(b)), [Act(q, Pop(size))] + ([Act(q, Flag(b))] + []));
    OneAct(o2, Act(q, Pop(size)), [Act(q, Flag(b))] + []);
    OneAct(o3, Act(q, Flag(b)), []);
    NoActs(Next(o3, Act(q, Flag(b))));
  }

  /** Two releases of b that are past the test, carried to their ends, and two processes that
      then ask for a buffer. */
  function BothReleaseAndGet(b: nat, size: int): seq<Act> {
    [Act(0, Store(b))] + ([Act(1, Store(b))] + ([Act(0, Push(b))] + ([Act(1, Push(b))] + GetTwice(b, size))))
  }

  function GetTwice(b: nat, size: int): seq<Act> {
    [Act(0, Pop(size))] + ([Act(1, Pop(size))] + ([Act(0, Flag(b))] + ([Act(1, Flag(b))] + [])))
  }

  /** A block that links to itself is handed out twice. */
  lemma {:induction false} CyclicIsGotTwice(o: Owned, rows: seq<seq<nat>>, k: nat, b: nat)
    requires TablesOk(o.pool, rows) && k < |rows| && rows[k] != [] && b != 0
    requires b in o.pool.hdr && o.pool.hdr[b].next == b && o.pool.pool[k] == b
    ensures var more := GetTwice(b, o.pool.sizes[k]);
      Legal(o, more) && Run(o, more).Some? && Run(o, more).value.has == o.has + {Hold(b, 0)} + {Hold(b, 1)}
  {
    hide Legal, Run, Choose;
    var size := o.pool.sizes[k];
    OwnClass(o.pool, rows, k);
    var o1 := Next(o, Act(0, Pop(size)));
    OwnClass(o1.pool, rows, k);
    var o2 := Next(o1, Act(1, Pop(size)));
    var o3 := Next(o2, Act(0, Flag(b)));
    OneAct(o, Act(0, Pop(size)), [Act(1, Pop(size))] + ([Act(0, Flag(b))] + ([Act(1, Flag(b))] + [])));
    OneAct(o1, Act(1, Pop(size)), [Act(0, Flag(b))] + ([Act(1, Flag(b))] + []));
    OneAct(o2, Act(0, Flag(b)), [Act(1, Flag(b))] + []);
    OneAct(o3, Act(1, Flag(b)), []);
    NoActs(Next(o3, Act(1, Flag(b))));
  }

  lemma {:induction false} DoubledComesBack(o: Owned, rows: seq<seq<nat>>, b: nat)
    requires TablesOk(o.pool, rows) && b != 0 && b in o.pool.hdr && 2 <= o.pool.calls.tested[b]
    requires o.pool.hdr[b].sizeIndex < |rows| && rows[o.pool.hdr[b].sizeIndex] != []
    ensures var more := BothReleaseAndGet(b, o.pool.sizes[o.pool.hdr[b].sizeIndex]);
      Legal(o, more) && Run(o, more).Some? && Run(o, more).value.has == o.has + {Hold(b, 0)} + {Hold(b, 1)}
  {
    hide Legal, Run, Choose, GetTwice;
    var k := o.pool.hdr[b].sizeIndex;
    var gets := GetTwice(b, o.pool.sizes[k]);
    var o1 := Next(o, Act(0, Store(b)));
    var o2 := Next(o1, Act(1, Store(b)));
    var o3 := Next(o2, Act(0, Push(b)));
    var o4 := Next(o3, Act(1, Push(b)));
    OneAct(o, Act(0, Store(b)), [Act(1, Store(b))] + ([Act(0, Push(b))] + ([Act(1, Push(b))] + gets)));
    OneAct(o1, Act(1, Store(b)), [Act(0, Push(b))] + ([Act(1, Push(b))] + gets));
    OneAct(o2, Act(0, Push(b)), [Act(1, Push(b))] + gets);
    OneAct(o3, Act(1, Push(b)), gets);
    CyclicIsGotTwice(o4, rows, k, b);
  }

  // ----- exactly when no block has two holders -----

  lemma {:induction false} NoReleaseIsByHolder(o: Owned, rows: seq<seq<nat>>, chains: seq<seq<nat>>, more: seq<Act>)
    requires OwnedInv(o, rows, chains) && NoRelease(more) && Legal(o, more)
    ensures Run(o, more).Some? && OneEach(Run(o, more).value.has)
    decreases |more|
  {
    if more != [] {
      hide Inv, Allowed, Sane, OneEach;
      assert more[0] in more && forall a | a in more[1..] :: a in more;
      InvSizes(o.pool, rows, chains);
      StepKeepsOwned(o, rows, chains, more[0]);
      NoReleaseIsByHolder(Next(o, more[0]), rows, ChainsAfter(o.pool, chains, more[0].move), more[1..]);
    }
  }

  lemma {:induction false} OwnedStays(o: Owned, rows: seq<seq<nat>>, chains: seq<seq<nat>>)
    requires OwnedInv(o, rows, chains)
    ensures StaysOneEach(o)
  {
    forall more | NoRelease(more) && Legal(o, more) ensures Run(o, more).Some? && OneEach(Run(o, more).value.has) {
      NoReleaseIsByHolder(o, rows, chains, more);
    }
  }

  /** A release by a process that does not hold the block: somebody gets it a second time. */
  lemma {:induction false} OthersRelease(o: Owned, rows: seq<seq<nat>>, chains: seq<seq<nat>>, a: Act)
    requires OwnedInv(o, rows, chains) && Allowed(o.pool, a.move) && !ByHolder(o, a)
    ensures Sane(o.pool, a.move) && !StaysOneEach(Next(o, a))
  {
    hide RowsOk, CallsOk, ClassOk, Choose, Run, Legal, OneEach;
    var b, s := a.move.block, o.pool;
    StepIsSane(s, rows, chains, a.move);
    FlagOfBlock(s, rows, chains, b);
    InvSizes(s, rows, chains);
    BlockOfRow(s, rows, chains, s.hdr[b].sizeIndex, b);
    var t := Next(o, a);
    assert t.has == o.has;
    if b in s.calls.tested {
      DoubledComesBack(t, rows, b);
      var more := BothReleaseAndGet(b, t.pool.sizes[t.pool.hdr[b].sizeIndex]);
      TwoHolders(Run(t, more).value.has, Hold(b, 0), Hold(b, 1));
      assert NoRelease(more);
    } else {
      StepKeepsInv(s, rows, chains, a.move);
      ReleasedComesBack(t, rows, chains, a.process, b);
      var more := ReleaseAndGet(a.process, b, t.pool.sizes[t.pool.hdr[b].sizeIndex]);
      assert HasHolder(o.has, b);
      var x :| x in o.has && x.block == b;
      TwoHolders(Run(t, more).value.has, x, Hold(b, a.process));
      assert NoRelease(more);
    }
  }

  lemma {:induction false} TwoHolders(has: set<Hold>, x: Hold, y: Hold)
    requires x in has && y in has && x != y && x.block == y.block
    ensures !OneEach(has)
  {
  }

  /** Every release that gets past the test is a holder's. */
  ghost predicate OnlyHoldersRelease(o: Owned, acts: seq<Act>)
    decreases |acts|
  {
    acts != [] ==>
      ByHolder(o, acts[0]) && (Sane(o.pool, acts[0].move) ==> OnlyHoldersRelease(Next(o, acts[0]), acts[1..]))
  }

  ghost predicate AlwaysOneEach(o: Owned, acts: seq<Act>)
    decreases |acts|
  {
    StaysOneEach(o) && (acts != [] && Sane(o.pool, acts[0].move) ==> AlwaysOneEach(Next(o, acts[0]), acts[1..]))
  }

  /** At no point of a schedule can a block come to two holders without a further release, if
      and only if all releases that get past the test are those of holders. */
  lemma {:induction false} OneHolderExactly(o: Owned, rows: seq<seq<nat>>, chains: seq<seq<nat>>, acts: seq<Act>)
    requires OwnedInv(o, rows, chains) && Legal(o, acts)
    ensures AlwaysOneEach(o, acts) <==> OnlyHoldersRelease(o, acts)
    decreases |acts|
  {
    hide OwnedInv, StaysOneEach, Allowed, ByHolder, Sane, Next;
    OwnedStays(o, rows, chains);
    if acts != [] {
      var a := acts[0];
      OwnedIsSane(o, rows, chains, a.move);
      if ByHolder(o, a) {
        StepKeepsOwned(o, rows, chains, a);
        OneHolderExactly(Next(o, a), rows, ChainsAfter(o.pool, chains, a.move), acts[1..]);
      } else {
        OthersRelease(o, rows, chains, a);
      }
    }
  }

  lemma {:induction false} OwnedIsSane(o: Owned, rows: seq<seq<nat>>, chains: seq<seq<nat>>, m: Move)
    requires OwnedInv(o, rows, chains) && Allowed(o.pool, m)
    ensures Sane(o.pool, m) && |chains| == |o.pool.pool|
  {
    StepIsSane(o.pool, rows, chains, m);
  }

  /** The block radBufferGet takes has no holder. */
  lemma {:induction false} GetWasNobodys(o: Owned, rows: seq<seq<nat>>, chains: seq<seq<nat>>, size: int)
    requires OwnedInv(o, rows, chains)
    ensures var k := Choose(o.pool.sizes, o.pool.pool, size); k < |o.pool.pool| ==> !HasHolder(o.has, o.pool.pool[k])
  {
    hide RowsOk, ClassOk, Choose;
    var k := Choose(o.pool.sizes, o.pool.pool, size);
    if k < |o.pool.pool| { PopFinds(o.pool, rows, chains, k); }
  }

  /** The segment as radBuffersInit leaves it, nobody holding anything. */
  lemma {:induction false} FreshIsOwned(s: State, rows: seq<seq<nat>>)
    requires Fresh(s, rows)
    ensures OwnedInv(Owned(s, {}), rows, rows)
  {
  }
}
